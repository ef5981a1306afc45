/** Whole calls of the older parser, on bytes. */
module OlderRuns {
  // What Parse answers to unfinished messages, to bytes in pieces, and when it rejects.

  import opened Text
  import opened HttpMessage
  import opened RequestLine
  import opened HttpRequestParser
  import opened HeaderCuts
  import opened RequestRoundTrip
  import opened ParsersAgree
  import ComplexUrl

  // ------------------------------------------------------ unfinished messages

  /** The block of header lines of a message, cut anywhere before its end. */
  lemma BlockShort(h: Header, fields: seq<Field>, n: nat)
    requires h.pos == 0 && forall k :: 0 <= k < |fields| ==> ValidField(fields[k])
    requires n < |FieldLines(fields)| + 2
    ensures HeaderCall(h, (FieldLines(fields) + CRLF)[..n]).result == HeadersShort
  {
    hide HeaderCall, ValidField, FieldLines, Harmless;
    var block := FieldLines(fields) + CRLF;
    var a, b := block[..n], block[n..];
    assert a + b == block;
    assert "" + (block + "") == block;
    FieldsValid(fields);
    FieldLinesHarmless("", fields, "", {});
    OldHeaders(h, "", fields, "");
    var _ := HarmlessExtends(h, a, b, {});
  }

  lemma FieldsValid(fields: seq<Field>)
    requires forall k :: 0 <= k < |fields| ==> ValidField(fields[k])
    ensures forall k :: 0 <= k < |fields| ==> ':' !in fields[k].0 && OneLine(FieldLine(fields[k]))
  {
    hide OneLine, FieldLine;
    forall k | 0 <= k < |fields|
      ensures ':' !in fields[k].0 && OneLine(FieldLine(fields[k]))
    {
      assert ValidField(fields[k]);
    }
  }

  /** Every proper prefix of the head of a message with a plain URL is answered with "more". */
  lemma HeadInPart(m: Message, n: nat)
    requires m.verb != NotSupport && m.version != NoVersion && PlainUrl(m.url)
    requires (forall k :: 0 <= k < |m.fields| ==> ValidField(m.fields[k])) && n < |HeadText(m)|
    ensures ParseCall(FRESH_STATE, HeadText(m)[..n]).0 == ResultShort
  {
    hide Run, HeaderCall, ValidField, PlainChars, LineCall, IsRequestLine;
    var s := HeadText(m);
    var block := FieldLines(m.fields) + CRLF;
    assert s == FirstText(m, block);
    var end := |FirstLine(m)| + 2;
    if n < end {
      MarksFit(m, block);
      AcceptsGrammar(s, LineMarks(m));
      MarksEnd(m);
      RunPrefix(INITIAL, s, 0, n, end);
      ShortLineCall(s[..n]);
    } else {
      var part := block[..n - end];
      assert s[..n] == FirstText(m, part);
      OldLine(m, part);
      var (r, t) := LineCall(FRESH_STATE, s[..n]);
      assert s[..n][end..] == part;
      BlockShort(t.header.(pos := 0), m.fields, n - end);
    }
  }

  lemma ShortLineCall(s: string)
    requires Run(INITIAL, s, 0).Again?
    ensures LineCall(FRESH_STATE, s).0 == ResultShort
  {
    hide Run;
    assert Restarted(INITIAL) == INITIAL;
  }

  // ------------------------------------------------------- bytes in pieces

  datatype Answer = Answer(result: Result, st: State, left: string)

  function Call(st: State, s: string): Answer
    requires st.header.pos <= |s|
  {
    var (r, t, left) := ParseCall(st, s);
    Answer(r, t, left)
  }

  /** What is left of the buffer with each further piece behind it, and Parse again, as long as the
      answer is "more"; and the pieces not needed. */
  function Calls(o: Answer, pieces: seq<string>): (Answer, string)
    requires o.st.header.pos <= |o.left|
    decreases |pieces|
  {
    if pieces == [] || o.result != ResultShort then (o, Flatten(pieces))
    else
      AnswerInRange(o.st, o.left + pieces[0]);
      Calls(Call(o.st, o.left + pieces[0]), pieces[1..])
  }

  lemma AnswerInRange(st: State, s: string)
    requires st.header.pos <= |s|
    ensures Call(st, s).st.header.pos <= |Call(st, s).left|
  {
    hide Run, HeaderCall, ComplexUrl.Feed;
    if st.phase == InRequestLine {
      LineCallBounds(st, s);
      Positions(Restarted(st.auto), s, st.header.pos);
    }
  }

  /** The calls end as one call on everything does. */
  ghost predicate EndAsOne(o: (Answer, string), whole: Answer)
  {
    o.0.result == whole.result && o.0.st == whole.st && o.0.left + o.1 == whole.left
  }

  lemma HeaderPhaseStep(st: State, a: string, b: string, seen: set<string>) returns (seen': set<string>)
    requires st.phase == InHeader && st.header.pos <= |a| && Harmless(a + b, st.header.pos, seen) && seen <= st.header.headers.Keys
    ensures st.header.pos <= |a + b|
    ensures var o, w := Call(st, a), Call(st, a + b);
            && o.st.header.pos <= |o.left|
            && (if o.result == ResultShort then
                  && o.left == a && o.st.phase == InHeader && Harmless(a + b, o.st.header.pos, seen') && seen' <= o.st.header.headers.Keys
                  && Call(o.st, a + b) == w
                else o.result == w.result && o.st == w.st && o.left + b == w.left)
  {
    hide HeaderCall, Harmless;
    seen' := HarmlessExtends(st.header, a, b, seen);
    var o := HeaderCall(st.header, a);
    if o.result == HeadersComplete {
      assert (a + b)[o.h.pos..] == a[o.h.pos..] + b;
    }
  }

  lemma {:induction false} HeaderPieceCalls(st: State, a: string, pieces: seq<string>, seen: set<string>)
    requires st.phase == InHeader && st.header.pos <= |a|
    requires Harmless(a + Flatten(pieces), st.header.pos, seen) && seen <= st.header.headers.Keys
    ensures Call(st, a).st.header.pos <= |Call(st, a).left| && st.header.pos <= |a + Flatten(pieces)|
    ensures EndAsOne(Calls(Call(st, a), pieces), Call(st, a + Flatten(pieces)))
    decreases |pieces|
  {
    hide Call, Harmless;
    var seen' := HeaderPhaseStep(st, a, Flatten(pieces), seen);
    var o := Call(st, a);
    if pieces == [] {
      assert a + Flatten(pieces) == a && o.left + "" == o.left;
    } else if o.result == ResultShort {
      assert a + Flatten(pieces) == (a + pieces[0]) + Flatten(pieces[1..]);
      HeaderPieceCalls(o.st, a + pieces[0], pieces[1..], seen');
    }
  }

  /** One call that accepts the line, wherever in the method it begins. */
  lemma LineInCall(s: string, t: string, n: nat, k: Marks)
    requires IsRequestLine(s, k) && k.end <= |t| <= |s| && t == s[..|t|] && n < k.verbEnd
    ensures var st := FRESH_STATE.(header := Header(n, map[], 0));
            n <= |t| && LineCall(st, t) == LineCall(FRESH_STATE, s) && LineCall(st, t).0 == ResultComplete
            && LineCall(st, t).1.header.pos == k.end
  {
    hide Run, IsRequestLine, MethodOf, Recorded, ComplexUrl.Feed;
    LineEnds(s, k);
    AcceptsExactly(s);
    assert Run(INITIAL, s, 0) == Ok(Recorded(s, k), k.end) && OffsetsDelimit(s, k, Recorded(s, k));
    RunShort(INITIAL, s, 0, |t|);
    StartedInMethod(t, n, k.verbEnd);
    var a := Recorded(s, k);
    assert Restarted(INITIAL) == INITIAL;
    assert t[a.urlStart..a.urlEnd] == s[a.urlStart..a.urlEnd];
  }

  lemma {:induction false} LinePieceCalls(s: string, pieces: seq<string>, k: Marks, all: string)
    requires all == s + Flatten(pieces) && IsRequestLine(all, k) && |s| < k.verbEnd && CutsFit(|s|, pieces, k)
    requires Harmless(all[k.end..], 0, {})
    ensures var st := FRESH_STATE.(header := Header(|s|, map[], 0));
            k.end <= |all| && EndAsOne(Calls(Answer(ResultShort, st, s), pieces), Call(FRESH_STATE, all))
    decreases |pieces|
  {
    hide Run, IsRequestLine, MethodOf, ComplexUrl.Feed, Harmless, HeaderCall, LineCall;
    LineEnds(all, k);
    var st := FRESH_STATE.(header := Header(|s|, map[], 0));
    assert pieces == [] ==> all == s;
    var t := s + pieces[0];
    assert all == t + Flatten(pieces[1..]) && all[..|t|] == t;
    if |t| < k.verbEnd {
      MethodMore(s, t, k.verbEnd);
      LinePieceCalls(t, pieces[1..], k, all);
    } else {
      LineInCall(all, t, |s|, k);
      LineCallBounds(FRESH_STATE, all);
      var (r, u) := LineCall(FRESH_STATE, all);
      BehindLine(st, t, k, u, Flatten(pieces[1..]), all);
      var v := u.(phase := InHeader, header := u.header.(pos := 0));
      HeadersFresh(all, k);
      assert all[k.end..] == t[k.end..] + Flatten(pieces[1..]);
      HeaderPieceCalls(v, t[k.end..], pieces[1..], {});
    }
  }

  lemma HeadersFresh(s: string, k: Marks)
    requires LineCall(FRESH_STATE, s).0 == ResultComplete
    ensures LineCall(FRESH_STATE, s).1.header.headers == map[]
  {
    hide Run, ComplexUrl.Feed;
  }

  /** A call that completes the line goes on with the headers in what is behind it. */
  lemma BehindLine(st: State, t: string, k: Marks, u: State, more: string, all: string)
    requires st.phase == InRequestLine && st.header.pos <= |t| && k.end <= |t| && all == t + more
    requires LineCall(st, t) == (ResultComplete, u) && u.header.pos == k.end && u.phase == InRequestLine
    requires LineCall(FRESH_STATE, all) == (ResultComplete, u)
    ensures var v := u.(phase := InHeader, header := u.header.(pos := 0));
            Call(st, t) == Call(v, t[k.end..]) && Call(FRESH_STATE, all) == Call(v, all[k.end..])
  {
    hide LineCall, HeaderPhase;
  }

  lemma MethodMore(s: string, t: string, verbEnd: nat)
    requires |s| <= |t| < verbEnd && forall i :: 0 <= i < |t| ==> IsUpper(t[i])
    ensures Call(FRESH_STATE.(header := Header(|s|, map[], 0)), t) == Answer(ResultShort, FRESH_STATE.(header := Header(|t|, map[], 0)), t)
  {
    hide Run, MethodOf;
    StartedInMethod(t, |s|, verbEnd);
    assert Restarted(INITIAL) == INITIAL;
  }

  /** Bytes that begin with a request line, delivered in any number of reads: if every read that does
      not complete the line ends inside the method, and the header lines are harmless, the calls end as
      one call on everything. */
  lemma PiecesEndAsOne(pieces: seq<string>, k: Marks)
    requires pieces != [] && IsRequestLine(Flatten(pieces), k) && CutsFit(0, pieces, k)
    requires k.end <= |Flatten(pieces)| && Harmless(Flatten(pieces)[k.end..], 0, {})
    ensures Call(FRESH_STATE, pieces[0]).st.header.pos <= |Call(FRESH_STATE, pieces[0]).left|
    ensures EndAsOne(Calls(Call(FRESH_STATE, pieces[0]), pieces[1..]), Call(FRESH_STATE, Flatten(pieces)))
  {
    hide Call, IsRequestLine, CutsFit, Harmless, Flatten;
    var all := Flatten(pieces);
    assert "" + all == all && "" + pieces[0] == pieces[0];
    LineEnds(all, k);
    LinePieceCalls("", pieces, k, all);
    AnswerInRange(FRESH_STATE, pieces[0]);
    assert FRESH_STATE.(header := Header(0, map[], 0)) == FRESH_STATE;
  }

  /** A message with a plain URL, whatever is behind its head: read in pieces of which none ends
      behind the method and before the end of the request line, it is read as in one piece. */
  lemma MessageInReads(m: Message, rest: string, pieces: seq<string>)
    requires m.verb != NotSupport && m.version != NoVersion && PlainUrl(m.url)
    requires (forall k :: 0 <= k < |m.fields| ==> ValidField(m.fields[k])) && pieces != [] && Flatten(pieces) == HeadText(m) + rest
    requires CutsFit(0, pieces, LineMarks(m))
    ensures Call(FRESH_STATE, pieces[0]).st.header.pos <= |Call(FRESH_STATE, pieces[0]).left|
    ensures var o := Calls(Call(FRESH_STATE, pieces[0]), pieces[1..]);
            && o.0.result == ResultComplete && o.0.left + o.1 == rest && o.0.st.url == m.url && o.0.st.auto.verb == m.verb
            && o.0.st.header.headers == EmplaceAll(map[], m.fields) && o.0.st.header.length == LengthAfter(0, m.fields)
  {
    hide ParseCall, ValidField, EmplaceAll, LengthAfter, IsRequestLine, CutsFit, Harmless, PlainChars, LineMarks;
    var block := FieldLines(m.fields) + CRLF + rest;
    var all := HeadText(m) + rest;
    assert all == FirstText(m, block);
    MarksFit(m, block);
    MarksEnd(m);
    FieldsValid(m.fields);
    FieldLinesHarmless("", m.fields, rest, {});
    assert "" + block == block && all[|FirstLine(m)| + 2..] == block;
    PiecesEndAsOne(pieces, LineMarks(m));
    OldParses(m, rest);
  }

  // ------------------------------------------------------------- rejections

  lemma {:induction false} BadStays(a: Auto, s: string, b: string, i: nat)
    requires i <= |s| && Run(a, s, i).Bad?
    ensures Run(a, s + b, i).Bad?
    decreases |s| - i
  {
    hide Next;
    RunStep(a, s, i);
    RunStep(a, s + b, i);
    assert (s + b)[..i + 1] == s[..i + 1];
    SameNext(a, s + b, i, i + 1);
    SameNext(a, s, i, i + 1);
    if Next(a, s, i).Go? {
      BadStays(Next(a, s, i).a, s, b, i + 1);
    }
  }

  /** What completes a line from a state behind the method. */
  function Completion(st: LineState): string
    requires st != Start && st != InMethod
  {
    match st
    case SpacesBeforeUrl => "/ HTT/1.1\n"
    case Scheme => ":/// HTT/1.1\n"
    case SchemeSlash => "/// HTT/1.1\n"
    case SchemeDoubleSlash => "// HTT/1.1\n"
    case Host => "/ HTT/1.1\n"
    case Port => "/ HTT/1.1\n"
    case AfterSlashInUrl => " HTT/1.1\n"
    case CheckUrl => " HTT/1.1\n"
    case Url => " HTT/1.1\n"
    case H => "HTT/1.1\n"
    case HT => "TT/1.1\n"
    case HTT => "T/1.1\n"
    case HTTP => "/1.1\n"
    case FirstMajorDigit => "1.1\n"
    case MajorDigit => ".1\n"
    case VersionDot => ".1\n"
    case FirstMinorDigit => "1\n"
    case MinorDigit => "\n"
    case CrLfAfterMinor => "\n"
    case AlmostDone => "\n"
    case Done => ""
  }

  lemma CompletionStep(a: Auto, s: string, i: nat)
    requires a.state != Start && a.state != InMethod && a.state != Done
    requires i < |s| && s[i..] == Completion(a.state)
    ensures Next(a, s, i).Go?
    ensures var b := Next(a, s, i).a; b.state != Start && b.state != InMethod && s[i + 1..] == Completion(b.state)
  {
    assert s[i] == Completion(a.state)[0] && s[i + 1..] == Completion(a.state)[1..];
  }

  lemma {:induction false} Completes(a: Auto, s: string, i: nat)
    requires a.state != Start && a.state != InMethod && i <= |s| && s[i..] == Completion(a.state)
    ensures Run(a, s, i).Ok?
    decreases |s| - i
  {
    hide Next, Completion;
    if a.state == Done {
      RunDone(a, s, i);
    } else {
      NotDone(a.state);
      CompletionStep(a, s, i);
      RunStep(a, s, i);
      Completes(Next(a, s, i).a, s, i + 1);
    }
  }

  lemma NotDone(st: LineState)
    requires st != Start && st != InMethod && st != Done
    ensures Completion(st) != ""
  {
  }

  lemma {:induction false} RunGoesOn(a: Auto, s: string, b: string, i: nat)
    requires i <= |s| && Run(a, s, i).Again?
    ensures Run(a, s + b, i) == Run(Run(a, s, i).a, s + b, |s|)
    decreases |s| - i
  {
    hide Next;
    if a.state != Done && i < |s| {
      RunStep(a, s, i);
      RunStep(a, s + b, i);
      assert (s + b)[..i + 1] == s[..i + 1];
      SameNext(a, s + b, i, i + 1);
      SameNext(a, s, i, i + 1);
      RunGoesOn(Next(a, s, i).a, s, b, i + 1);
    }
  }

  /** The states behind the method are never left for it again. */
  lemma {:induction false} StaysBehind(a: Auto, s: string, i: nat)
    requires i <= |s| && a.state != Start && a.state != InMethod && Run(a, s, i).Again?
    ensures Run(a, s, i).a.state !in {Start, InMethod, Done}
    decreases |s| - i
  {
    hide Next;
    if a.state != Done && i < |s| {
      RunStep(a, s, i);
      NextBehind(a, s, i);
      StaysBehind(Next(a, s, i).a, s, i + 1);
    }
  }

  lemma NextBehind(a: Auto, s: string, i: nat)
    requires i < |s| && a.state !in {Start, InMethod, Done} && Next(a, s, i).Go?
    ensures Next(a, s, i).a.state !in {Start, InMethod}
  {
  }

  lemma AllJoins(s: string)
    requires s != "" && IsUpper(s[0]) && All(IsUpper, s, 1, |s|)
    ensures All(IsUpper, s, 0, |s|)
  {
  }

  lemma CapitalsAre(s: string)
    ensures Spelled(CAPITALS, s) <==> All(IsUpper, s, 0, |s|)
  {
    hide IsUpper;
    forall k | 0 <= k < |s|
      ensures s[k] in CAPITALS <==> IsUpper(s[k])
    {
      Alphabets(s[k]);
    }
  }

  /** Nothing but capitals so far, which may become a method's name, or with more bytes some request
      line can still come of it. */
  ghost predicate CanGoOn(s: string)
  {
    Spelled(CAPITALS, s) || exists b, k :: IsRequestLine(s + b, k)
  }

  /** Unfinished bytes can go on. */
  lemma UnfinishedGoesOn(s: string)
    requires Run(INITIAL, s, 0).Again?
    ensures CanGoOn(s)
  {
    hide Run, Next, MethodOf, IsRequestLine, Spelled;
    CapitalsAre(s);
    if !All(IsUpper, s, 0, |s|) {
      StartStage(INITIAL, s, 0);
      var a := INITIAL.(state := InMethod);
      var j := Skip(IsUpper, s, 1);
      MethodStage(a, s, 1, j);
      if j == |s| {
        AllJoins(s);
      }
      var c := a.(verb := MethodOf(s[..j]), isStatic := a.isStatic && MethodOf(s[..j]) != Post, state := SpacesBeforeUrl);
      StaysBehind(c, s, j + 1);
      var b := Completion(Run(INITIAL, s, 0).a.state);
      RunGoesOn(INITIAL, s, b, 0);
      assert (s + b)[|s|..] == b;
      Completes(Run(INITIAL, s, 0).a, s + b, |s|);
      var k := AcceptedInGrammar(s + b);
    }
  }

  /** Bytes are rejected for their request line if and only if they are not all capitals and nothing
      that could still come would make them begin with a line of the grammar. */
  lemma LineRejected(s: string)
    ensures Run(INITIAL, s, 0).Bad? <==> !CanGoOn(s)
  {
    hide Run, MethodOf, IsRequestLine, Spelled;
    CapitalsAre(s);
    var o := Run(INITIAL, s, 0);
    if o.Ok? {
      var k := AcceptedInGrammar(s);
      assert s + "" == s;
    } else if o.Again? {
      UnfinishedGoesOn(s);
    }
    if o.Bad? {
      forall b, k | IsRequestLine(s + b, k)
        ensures false
      {
        BadStays(INITIAL, s, b, 0);
        AcceptsGrammar(s + b, k);
      }
      if All(IsUpper, s, 0, |s|) {
        CapitalsGoOn(s);
      }
    }
  }

  lemma CapitalsGoOn(s: string)
    requires All(IsUpper, s, 0, |s|)
    ensures Run(INITIAL, s, 0).Again?
  {
    hide Run, Next, MethodOf;
    if s == "" {
      RunEnd(INITIAL, s);
    } else {
      StartStage(INITIAL, s, 0);
      MethodStage(INITIAL.(state := InMethod), s, 1, |s|);
    }
  }

  /** Once a call has said that the request is complete, so does every later one, whatever has arrived by
      then, and none changes the parser or takes a byte; a call that begins behind the headers only says so. */
  lemma OnceComplete(st: State, s: string, more: string)
    requires st.header.pos <= |s|
    ensures var o := Call(st, s);
            o.result == ResultComplete && st.header.pos <= |more| ==>
              o.st.phase == Complete && o.st.header.pos <= |more| && Call(o.st, more) == Answer(ResultComplete, o.st, more)
    ensures st.phase == InBody ==> Call(st, s) == Answer(ResultComplete, st.(phase := Complete), s)
  {
    hide HeaderCall, Run;
  }

  /** Where a line of the header block begins. */
  predicate LineStart(s: string, pos: int, p: int)
  {
    p == pos || (pos + 2 <= p && CrLfAt(s, p - 2))
  }

  predicate BlankAt(s: string, q: int)
  {
    CrLfAt(s, q)
  }

  /** A complete line begins at `p` behind which no colon comes, and no blank line does before. */
  predicate NoColonFrom(s: string, pos: int, p: int)
  {
    && 0 <= pos <= p <= |s| && LineStart(s, pos, p) && ':' !in s[p..]
    && (exists e :: p < e < |s| && CrLfAt(s, e))
    && forall q :: pos <= q <= p && LineStart(s, pos, q) ==> !BlankAt(s, q)
  }

  predicate SomeNoColon(s: string, pos: int)
  {
    exists p :: pos <= p <= |s| && NoColonFrom(s, pos, p)
  }

  /** A header line is rejected if and only if there is such a line. */
  lemma {:induction false} HeaderRejected(h: Header, s: string)
    requires h.pos <= |s|
    ensures HeaderCall(h, s).result == HeadersBad <==> SomeNoColon(s, h.pos)
    decreases |s| - h.pos
  {
    hide HeaderCall, FindCrLf, Find, StepHeader, SomeNoColon;
    var pos, rest := h.pos, s[h.pos..];
    HeaderCallStep(h, s);
    PartStep(h, rest);
    BlockStep(s, pos);
    var step := StepHeader(h, rest);
    if step.TakeLine? {
      HeaderRejected(step.h, s);
      NextLineSame(s, pos, FindCrLf(rest));
    }
  }

  /** At the first line. */
  lemma BlockStep(s: string, pos: nat)
    requires pos <= |s|
    ensures var rest := s[pos..];
            var eol, colon := FindCrLf(rest), Find(rest, ':');
            && (BlankLine(rest) || eol == |rest| || colon + 1 == |rest| ==> !SomeNoColon(s, pos))
            && (!BlankLine(rest) && eol < |rest| && colon == |rest| ==> SomeNoColon(s, pos))
  {
    hide FindCrLf, Find;
    var rest := s[pos..];
    var eol, colon := FindCrLf(rest), Find(rest, ':');
    assert forall j :: 0 <= j < |rest| ==> rest[j] == s[pos + j];
    assert BlankLine(rest) <==> BlankAt(s, pos);
    if eol < |rest| {
      assert CrLfAt(s, pos + eol);
    }
    if !BlankLine(rest) && eol < |rest| && colon == |rest| {
      assert ':' !in rest;
      assert LineStart(s, pos, pos) && NoColonFrom(s, pos, pos);
    }
    if eol == |rest| {
      forall e | pos <= e < |s|
        ensures !CrLfAt(s, e)
      {
        assert !CrLfAt(rest, e - pos);
      }
    }
    if colon + 1 == |rest| {
      assert s[|s| - 1] == ':';
      forall p | pos <= p < |s|
        ensures ':' in s[p..]
      {
        assert s[p..][|s| - 1 - p] == ':';
      }
    }
  }

  /** Past a line that has a colon behind its beginning nothing changes. */
  lemma NextLineSame(s: string, pos: nat, eol: nat)
    requires pos <= |s| && eol == FindCrLf(s[pos..]) && pos + eol + 2 <= |s| && CrLfAt(s, pos + eol) && !BlankLine(s[pos..])
    requires Find(s[pos..], ':') < |s[pos..]|
    ensures SomeNoColon(s, pos) <==> SomeNoColon(s, pos + eol + 2)
  {
    hide FindCrLf, Find;
    var next := pos + eol + 2;
    forall e | pos <= e < pos + eol
      ensures !CrLfAt(s, e)
    {
      assert !CrLfAt(s[pos..], e - pos);
    }
    assert !BlankAt(s, pos);
    assert forall q :: LineStart(s, pos, q) && q != pos ==> q >= next;
    assert forall q :: q >= next ==> (LineStart(s, pos, q) <==> LineStart(s, next, q));
    if p :| pos <= p <= |s| && NoColonFrom(s, pos, p) {
      assert p != pos;
      assert NoColonFrom(s, next, p);
    }
    if p :| next <= p <= |s| && NoColonFrom(s, next, p) {
      assert NoColonFrom(s, pos, p);
    }
  }

  /** A call on a new parser rejects the bytes if and only if their request line is hopeless, or behind
      a request line there is a complete header line behind which no colon comes. */
  lemma RejectsExactly(s: string)
    ensures ParseCall(FRESH_STATE, s).0 == ResultBad
       <==> !CanGoOn(s) || exists k :: IsRequestLine(s, k) && k.end <= |s| && SomeNoColon(s[k.end..], 0)
  {
    hide Run, MethodOf, IsRequestLine, HeaderCall, SomeNoColon, ComplexUrl.Feed, Recorded, CanGoOn;
    LineRejected(s);
    AcceptsExactly(s);
    if k :| IsRequestLine(s, k) {
      BehindAccepted(s, k);
    } else {
      NotAccepted(s);
    }
  }

  lemma NotAccepted(s: string)
    requires !Run(INITIAL, s, 0).Ok?
    ensures ParseCall(FRESH_STATE, s).0 == ResultBad <==> Run(INITIAL, s, 0).Bad?
  {
    hide Run, HeaderCall;
    assert Restarted(INITIAL) == INITIAL;
  }

  lemma BehindAccepted(s: string, k: Marks)
    requires IsRequestLine(s, k)
    ensures k.end <= |s|
    ensures ParseCall(FRESH_STATE, s).0 == ResultBad <==> SomeNoColon(s[k.end..], 0)
    ensures forall j :: IsRequestLine(s, j) ==> j.end == k.end
  {
    hide Run, MethodOf, IsRequestLine, HeaderCall, SomeNoColon, ComplexUrl.Feed, Recorded, LineCall;
    LineEnds(s, k);
    AcceptsGrammar(s, k);
    assert s[..|s|] == s;
    LineInCall(s, s, 0, k);
    forall j | IsRequestLine(s, j)
      ensures j.end == k.end
    {
      AcceptsGrammar(s, j);
    }
    LineCallBounds(FRESH_STATE, s);
    HeadersFresh(s, k);
    HeaderRejected(LineCall(FRESH_STATE, s).1.header.(pos := 0), s[k.end..]);
    assert FRESH_STATE.(header := Header(0, map[], 0)) == FRESH_STATE;
  }
}
