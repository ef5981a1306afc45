/** Why the older parser refuses a request line. */
module OlderErrors {
  // The automaton names a reason and a position; both are worked out here from the bytes.

  import opened Text
  import opened HttpMessage
  import opened RequestLine
  import OlderRuns

  /** SetErrorStatusCodeOfRequestLine: a rejection it has no case for counts as the server's fault. */
  function StatusOf(why: Rejection): nat
  {
    match why
    case InvalidMethod => 405
    case InvalidUrl => 400
    case InvalidHttpVersion => 400
    case InvalidHttpRequest => 500
  }

  /** How many stretches of blanks begin before position `p`. */
  function Gaps(s: string, p: nat): nat
    requires p <= |s|
  {
    if p == 0 then 0
    else Gaps(s, p - 1) + if s[p - 1] == ' ' && (p == 1 || s[p - 2] != ' ') then 1 else 0
  }

  /** The third word begins at `w`. */
  predicate ThirdAt(s: string, w: int)
  {
    0 < w < |s| && s[w - 1] == ' ' && s[w] != ' ' && Gaps(s, w) == 2
  }

  /** The third word has a dot and at least two characters behind it before `p`. */
  predicate VersionRead(s: string, w: int, d: int, p: int)
  {
    ThirdAt(s, w) && w <= d < |s| && s[d] == '.' && '.' !in s[w..d] && d + 3 <= p
  }

  predicate AtLineEnd(s: string, p: nat)
  {
    p == 0 && s != "" && (s[0] == '\r' || s[0] == '\n')
  }

  lemma {:induction false} GapsGrow(s: string, w: nat, p: nat)
    requires w <= p <= |s|
    ensures Gaps(s, w) <= Gaps(s, p)
    ensures w < p && s[w] != ' ' && s[p - 1] == ' ' ==> Gaps(s, w) < Gaps(s, p)
    decreases p - w
  {
    if w < p {
      GapsGrow(s, w, p - 1);
    }
  }

  lemma OneThird(s: string, w: int, x: int)
    requires ThirdAt(s, w) && ThirdAt(s, x)
    ensures w == x
  {
    hide Gaps;
    if w < x {
      GapsGrow(s, w, x);
    } else if x < w {
      GapsGrow(s, x, w);
    }
  }

  /** How far the reading has come: `w` is where the third word begins, `d` its dot. */
  ghost predicate Reading(st: LineState, s: string, i: nat, w: nat, d: nat)
    requires i <= |s|
  {
    match st
    case Start => i == 0
    case InMethod => i > 0 && s[i - 1] != ' ' && Gaps(s, i) == 0
    case SpacesBeforeUrl => i > 0 && s[i - 1] == ' ' && Gaps(s, i) == 1
    case H => i > 0 && s[i - 1] == ' ' && Gaps(s, i) == 2
    case HT => Third(s, i, w) && '.' !in s[w..i]
    case HTT => Third(s, i, w) && '.' !in s[w..i]
    case HTTP => Third(s, i, w) && '.' !in s[w..i]
    case FirstMajorDigit => Third(s, i, w) && '.' !in s[w..i]
    case MajorDigit => Third(s, i, w) && '.' !in s[w..i]
    case VersionDot => Third(s, i, w) && '.' !in s[w..i]
    case FirstMinorDigit => Dotted(s, i, w, d) && i == d + 1
    case MinorDigit => Dotted(s, i, w, d) && i == d + 2
    case CrLfAfterMinor => Dotted(s, i, w, d) && i == d + 3
    case AlmostDone => Dotted(s, i, w, d) && i >= d + 3
    case Done => true
    case _ => i > 0 && s[i - 1] != ' ' && Gaps(s, i) == 1
  }

  predicate Third(s: string, i: nat, w: nat)
    requires i <= |s|
  {
    w < i && ThirdAt(s, w) && Gaps(s, i) >= 2
  }

  predicate Dotted(s: string, i: nat, w: nat, d: nat)
    requires i <= |s|
  {
    Third(s, i, w) && w <= d < i && s[d] == '.' && '.' !in s[w..d]
  }

  /** What the reason must be at `p`. */
  ghost predicate Reason(why: Rejection, s: string, p: nat)
    requires p < |s|
  {
    && (why == InvalidHttpRequest <==> AtLineEnd(s, p) || exists w, d :: VersionRead(s, w, d, p))
    && (why == InvalidMethod <==> Gaps(s, p) == 0 && !AtLineEnd(s, p))
    && (why == InvalidUrl <==> Gaps(s, p) == 1)
    && (why == InvalidHttpVersion <==> Gaps(s, p) >= 2 && !exists w, d :: VersionRead(s, w, d, p))
  }

  lemma NotYet(s: string, p: nat)
    requires p <= |s| && Gaps(s, p) < 2
    ensures !exists w, d :: VersionRead(s, w, d, p)
  {
    hide Gaps;
    forall w, d | VersionRead(s, w, d, p)
      ensures false
    {
      GapsGrow(s, w, p);
    }
  }

  lemma NoDotYet(s: string, p: nat, w: nat)
    requires p < |s| && w <= p && ThirdAt(s, w) && (forall d :: w <= d < p && s[d] == '.' ==> p <= d + 2)
    ensures !exists x, d :: VersionRead(s, x, d, p)
  {
    hide Gaps;
    forall x, d | VersionRead(s, x, d, p)
      ensures false
    {
      OneThird(s, w, x);
    }
  }

  lemma RejectedHere(a: Auto, s: string, i: nat, w: nat, d: nat)
    requires i < |s| && a.state != Done && Reading(a.state, s, i, w, d) && Next(a, s, i).Reject?
    ensures Reason(Next(a, s, i).why, s, i)
  {
    hide Gaps, MethodOf;
    match a.state
    case Start =>
      assert Gaps(s, 0) == 0 by { EmptyGaps(s); }
      NotYet(s, i);
    case H =>
      assert ThirdAt(s, i);
      NoDotYet(s, i, i);
    case CrLfAfterMinor =>
      assert VersionRead(s, w, d, i);
    case AlmostDone =>
      assert VersionRead(s, w, d, i);
    case HT => NoDots(s, i, w);
    case HTT => NoDots(s, i, w);
    case HTTP => NoDots(s, i, w);
    case FirstMajorDigit => NoDots(s, i, w);
    case MajorDigit => NoDots(s, i, w);
    case VersionDot => NoDots(s, i, w);
    case FirstMinorDigit =>
      OnlyThere(s, w, d);
      NoDotYet(s, i, w);
    case _ => NotYet(s, i);
  }

  lemma OneGap(s: string, i: nat)
    requires i < |s|
    ensures Gaps(s, i + 1) == Gaps(s, i) + if s[i] == ' ' && (i == 0 || s[i - 1] != ' ') then 1 else 0
  {
  }

  lemma EmptyGaps(s: string)
    ensures Gaps(s, 0) == 0
  {
  }

  lemma NoDots(s: string, i: nat, w: nat)
    requires i < |s| && w <= i && ThirdAt(s, w) && '.' !in s[w..i]
    ensures !exists x, d :: VersionRead(s, x, d, i)
  {
    hide Gaps;
    OnlyThere(s, w, i);
    NoDotYet(s, i, w);
  }

  lemma OnlyThere(s: string, w: nat, d: nat)
    requires w <= d <= |s| && '.' !in s[w..d]
    ensures forall e :: w <= e < d ==> s[e] != '.'
  {
    assert forall e :: w <= e < d ==> s[e] == s[w..d][e - w];
  }

  /** In the third word, in front of its dot. */
  lemma NameReadsOn(a: Auto, s: string, i: nat, w: nat) returns (d: nat)
    requires i < |s| && a.state in {HT, HTT, HTTP, FirstMajorDigit, MajorDigit, VersionDot}
    requires Third(s, i, w) && '.' !in s[w..i] && Next(a, s, i).Go?
    ensures Reading(Next(a, s, i).a.state, s, i + 1, w, d)
  {
    d := i;
    GapsGrow(s, i, i + 1);
    if s[i] != '.' {
      OneMore(s, w, i);
    }
    hide Gaps;
  }

  lemma ReadsOn(a: Auto, s: string, i: nat, w: nat, d: nat) returns (w': nat, d': nat)
    requires i < |s| && a.state != Done && Reading(a.state, s, i, w, d) && Next(a, s, i).Go?
    ensures Reading(Next(a, s, i).a.state, s, i + 1, w', d')
  {
    hide MethodOf;
    w', d' := w, d;
    EmptyGaps(s);
    OneGap(s, i);
    if a.state == H {
      if s[i] == 'H' {
        w' := i;
        assert s[i..i + 1] == ['H'];
        assert Third(s, i + 1, i);
      }
    } else if a.state in {HT, HTT, HTTP, FirstMajorDigit, MajorDigit, VersionDot} {
      d' := NameReadsOn(a, s, i, w);
    }
  }

  lemma OneMore(s: string, w: nat, i: nat)
    requires w <= i < |s| && '.' !in s[w..i] && s[i] != '.'
    ensures '.' !in s[w..i + 1]
  {
  }

  lemma {:induction false} ReasonFrom(a: Auto, s: string, i: nat, w: nat, d: nat)
    requires i <= |s| && Reading(a.state, s, i, w, d) && Run(a, s, i).Bad?
    ensures i <= Run(a, s, i).pos < |s| && Reason(Run(a, s, i).why, s, Run(a, s, i).pos)
    ensures Run(a, s[..Run(a, s, i).pos], i).Again? && Run(a, s[..Run(a, s, i).pos + 1], i).Bad?
    decreases |s| - i
  {
    hide Next, Reading, Reason, Gaps;
    if Next(a, s, i).Reject? {
      RejectedHere(a, s, i, w, d);
      SameNext(a, s, i, i + 1);
    } else {
      var w', d' := ReadsOn(a, s, i, w, d);
      ReasonFrom(Next(a, s, i).a, s, i + 1, w', d');
      var p := Run(a, s, i).pos;
      SameNext(a, s, i, p);
      SameNext(a, s, i, p + 1);
    }
  }

  lemma SameNext(a: Auto, s: string, i: nat, n: nat)
    requires i < n <= |s| && a.state != Done
    ensures Next(a, s[..n], i) == Next(a, s, i)
  {
    hide MethodOf;
    assert s[..n][..i] == s[..i];
  }

  /** A request line is refused at the first byte with which nothing can be accepted any more, and for
      the word that byte stands in: the first word is a bad method, the second a bad URL, the third a bad
      version; two characters behind the version's dot, and at a line end in front of everything, it is
      the request that is bad. */
  lemma RefusedAt(s: string)
    requires Run(INITIAL, s, 0).Bad?
    ensures var p := Run(INITIAL, s, 0).pos;
            && p < |s| && Reason(Run(INITIAL, s, 0).why, s, p)
            && OlderRuns.CanGoOn(s[..p]) && !OlderRuns.CanGoOn(s[..p + 1])
  {
    hide Run, Reason, IsRequestLine, OlderRuns.CanGoOn;
    ReasonFrom(INITIAL, s, 0, 0, 0);
    var p := Run(INITIAL, s, 0).pos;
    OlderRuns.UnfinishedGoesOn(s[..p]);
    OlderRuns.LineRejected(s[..p + 1]);
  }

  /** So a line with something odd behind its version, or in front of everything, is answered as the
      server's own fault, and every other bad line as the client's. */
  lemma BlamedOnServer(s: string)
    requires Run(INITIAL, s, 0).Bad?
    ensures var o := Run(INITIAL, s, 0);
            && o.pos < |s|
            && (StatusOf(o.why) == 500 <==> AtLineEnd(s, o.pos) || exists w, d :: VersionRead(s, w, d, o.pos))
            && (StatusOf(o.why) == 405 <==> Gaps(s, o.pos) == 0 && !AtLineEnd(s, o.pos))
            && StatusOf(o.why) in {400, 405, 500}
  {
    hide Run, Gaps, VersionRead;
    RefusedAt(s);
  }
}
