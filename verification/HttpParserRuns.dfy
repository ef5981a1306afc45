/** Properties of whole runs of HttpParser. */
module HttpParserRuns {
  // When a call returns, that delivery in pieces makes no difference, and that an error stays.

  import opened Text
  import opened HttpMessage
  import opened HttpParser
  import ComplexUrl

  // ------------------------------------------------- leaving the loop

  /** The first n iterations of the loop exactly as coded. */
  function Unroll(n: nat, st: State, buf: string): Iteration
    requires st.phase != Finished
    decreases n
  {
    if n == 0 then Continues(st, buf) else
    match Iterate(st, buf)
    case Leaves(run) => Leaves(run)
    case Continues(st', rest) => Unroll(n - 1, st', rest)
  }

  lemma MetadataIdempotent(st: State)
    ensures WithMetadata(WithMetadata(st)) == WithMetadata(st)
  {
  }

  lemma {:induction false} StuckForever(n: nat, st: State, buf: string)
    requires BodyMissing(st, buf)
    ensures Unroll(n, st, buf).Continues?
  {
    if n > 0 {
      MetadataIdempotent(st);
      StuckForever(n - 1, WithMetadata(st), buf);
    }
  }

  lemma {:induction false} SpinNeverLeaves(n: nat, st: State, buf: string)
    requires st.phase != Finished && Loop(st, buf).result == Spin
    ensures Unroll(n, st, buf).Continues?
    decreases n
  {
    hide ParseLine, ParseField, WithMetadata;
    if BodyMissing(st, buf) {
      StuckForever(n, st, buf);
    } else if n > 0 {
      var it := Iterate(st, buf);
      if it.Leaves? {
        LineCodes(st, buf);
      }
      SpinNeverLeaves(n - 1, it.st, it.rest);
    }
  }

  lemma {:induction false} OthersLeave(st: State, buf: string)
    requires st.phase != Finished && Loop(st, buf).result != Spin
    ensures Unroll(PhasesLeft(st.phase) + |buf|, st, buf) == Leaves(Loop(st, buf))
    decreases PhasesLeft(st.phase), |buf|
  {
    hide ParseLine, ParseField, WithMetadata;
    var n := PhasesLeft(st.phase) + |buf|;
    match Iterate(st, buf)
    case Leaves(_) =>
    case Continues(st', rest) =>
      OthersLeave(st', rest);
      UnrollMore(PhasesLeft(st'.phase) + |rest|, n - 1, st', rest);
  }

  lemma {:induction false} UnrollMore(n: nat, k: nat, st: State, buf: string)
    requires st.phase != Finished && n <= k && Unroll(n, st, buf).Leaves?
    ensures Unroll(k, st, buf) == Unroll(n, st, buf)
    decreases n
  {
    hide ParseLine, ParseField, WithMetadata;
    match Iterate(st, buf)
    case Leaves(_) =>
    case Continues(st', rest) => UnrollMore(n - 1, k - 1, st', rest);
  }

  /** The while loop as coded leaves, within one iteration per remaining phase and byte and with
      the modelled run, except exactly when that run is Spin: a body was announced and has not
      all arrived. */
  lemma LoopLeavesUnlessSpin(st: State, buf: string)
    requires st.phase != Finished
    ensures Loop(st, buf).result != Spin ==>
              Unroll(PhasesLeft(st.phase) + |buf|, st, buf) == Leaves(Loop(st, buf))
    ensures Loop(st, buf).result == Spin <==> forall n: nat :: Unroll(n, st, buf).Continues?
  {
    if Loop(st, buf).result == Spin {
      forall n: nat
        ensures Unroll(n, st, buf).Continues?
      {
        SpinNeverLeaves(n, st, buf);
      }
    } else {
      OthersLeave(st, buf);
    }
  }

  /** What the state says when a call wants more bytes. */
  lemma {:induction false} WhyMore(st: State, buf: string)
    requires st.phase != Finished
    ensures var r := Loop(st, buf);
            && (r.result == Spin ==> BodyMissing(r.st, r.rest) && r.st.length != NO_LENGTH && |r.rest| < r.st.length)
            && (r.result == Short ==> r.st.phase in {HeaderLine, HeaderFields} && FindCrLf(r.rest) == |r.rest|)
    decreases PhasesLeft(st.phase), |buf|
  {
    hide ParseLine, ParseField, WithMetadata;
    if BodyMissing(st, buf) {
      MetadataIdempotent(st);
    } else {
      match Iterate(st, buf)
      case Leaves(_) => LineCodes(st, buf);
      case Continues(st', rest) => WhyMore(st', rest);
    }
  }

  // ----------------------------------------------- when the loop never leaves

  function JoinLines(lines: seq<string>): string
    decreases |lines|
  {
    if lines == [] then "" else lines[0] + CRLF + JoinLines(lines[1..])
  }

  /** A line the phase accepts: a good request line, or a blank line, or a field with a colon and
      at least one byte behind it. */
  predicate TakesLine(st: State, line: string)
  {
    OneLine(line) &&
    if st.phase == HeaderLine then ParseLine(line, st.req, st.error).code == Good
    else line == "" || Find(line, ':') + 2 <= |line|
  }

  function NextState(st: State, line: string): (t: State)
    requires st.phase in {HeaderLine, HeaderFields} && TakesLine(st, line)
    ensures t.phase in {HeaderFields, Body}
  {
    if st.phase == HeaderLine then
      var o := ParseLine(line, st.req, st.error);
      st.(phase := HeaderFields, error := o.error, req := o.req)
    else if line == "" then st.(phase := Body)
    else
      var c := Find(line, ':');
      st.(req := st.req.(headers := Emplace(st.req.headers, line[..c], line[c + 2..])))
  }

  /** The lines take the parser from where it is to the body. */
  predicate CompletesHead(st: State, lines: seq<string>)
    requires st.phase != Finished
    decreases |lines|
  {
    if st.phase == Body then lines == []
    else lines != [] && TakesLine(st, lines[0]) && CompletesHead(NextState(st, lines[0]), lines[1..])
  }

  function BehindHead(st: State, lines: seq<string>): (b: State)
    requires st.phase != Finished && CompletesHead(st, lines)
    ensures b.phase == Body
    decreases |lines|
  {
    if st.phase == Body then st else BehindHead(NextState(st, lines[0]), lines[1..])
  }

  /** Accepted lines up to the blank one, and behind them fewer bytes than announced. */
  predicate Stalls(st: State, buf: string, lines: seq<string>, part: string)
    requires st.phase != Finished
  {
    && CompletesHead(st, lines) && buf == JoinLines(lines) + part
    && var b := BehindHead(st, lines);
       LengthOf(b.req, b.length) != NO_LENGTH && |part| < LengthOf(b.req, b.length)
  }

  lemma TakenLine(st: State, line: string, rest: string)
    requires st.phase in {HeaderLine, HeaderFields} && TakesLine(st, line)
    ensures Iterate(st, line + CRLF + rest) == Continues(NextState(st, line), rest)
  {
    hide ParseLine;
    var buf := line + CRLF + rest;
    FindCrLfLine(line, rest);
    assert buf[..|line|] == line && buf[|line| + 2..] == rest;
  }

  /** Only accepted lines are gone past. */
  lemma GonePast(st: State, buf: string)
    requires st.phase in {HeaderLine, HeaderFields} && Iterate(st, buf).Continues?
    ensures var line := buf[..FindCrLf(buf)];
            && TakesLine(st, line) && buf == line + CRLF + Iterate(st, buf).rest && Iterate(st, buf).st == NextState(st, line)
  {
    hide ParseLine, FindCrLf, Emplace, OneLine, Find;
    NoEarlierLineEnd(buf);
    AtLineEnd(buf);
  }

  lemma AtLineEnd(buf: string)
    ensures var i := FindCrLf(buf); i < |buf| ==> i + 2 <= |buf| && buf == buf[..i] + CRLF + buf[i + 2..]
  {
    hide FindCrLf;
  }

  lemma NoEarlierLineEnd(buf: string)
    ensures OneLine(buf[..FindCrLf(buf)])
  {
    var i := FindCrLf(buf);
    var line := buf[..i];
    forall j | 0 <= j < |line|
      ensures !CrLfAt(line, j)
    {
      assert CrLfAt(line, j) ==> CrLfAt(buf, j);
    }
  }

  lemma {:induction false} StallSpins(st: State, lines: seq<string>, part: string)
    requires st.phase != Finished && Stalls(st, JoinLines(lines) + part, lines, part)
    ensures Loop(st, JoinLines(lines) + part).result == Spin
    decreases |lines|
  {
    hide TakesLine, NextState, Iterate, KeepAlive;
    if st.phase == Body {
      assert JoinLines(lines) + part == part;
    } else {
      var rest := JoinLines(lines[1..]) + part;
      assert JoinLines(lines) + part == lines[0] + CRLF + rest;
      TakenLine(st, lines[0], rest);
      StallSpins(NextState(st, lines[0]), lines[1..], part);
    }
  }

  lemma {:induction false} SpinStalls(st: State, buf: string) returns (lines: seq<string>, part: string)
    requires st.phase != Finished && Loop(st, buf).result == Spin
    ensures Stalls(st, buf, lines, part)
    decreases PhasesLeft(st.phase), |buf|
  {
    hide TakesLine, NextState, KeepAlive, ParseLine, ParseField;
    if st.phase == Body {
      lines, part := [], buf;
      assert "" + buf == buf;
    } else {
      LeavesNoSpin(st, buf);
      GonePast(st, buf);
      var line, it := buf[..FindCrLf(buf)], Iterate(st, buf);
      var more, p := SpinStalls(it.st, it.rest);
      lines, part := [line] + more, p;
      assert lines[1..] == more;
      assert line + CRLF + (JoinLines(more) + part) == line + CRLF + JoinLines(more) + part;
    }
  }

  lemma LeavesNoSpin(st: State, buf: string)
    requires st.phase in {HeaderLine, HeaderFields} && Loop(st, buf).result == Spin
    ensures Iterate(st, buf).Continues? && Loop(Iterate(st, buf).st, Iterate(st, buf).rest).result == Spin
  {
    hide ParseLine, ParseField;
    if Iterate(st, buf).Leaves? {
      LineCodes(st, buf);
    }
  }

  /** The loop as coded never leaves if and only if the buffer consists of accepted lines up to a
      blank line and of fewer bytes behind them than announced. */
  lemma NeverLeaves(st: State, buf: string)
    requires st.phase != Finished
    ensures (forall n: nat :: Unroll(n, st, buf).Continues?) <==> exists lines, part :: Stalls(st, buf, lines, part)
  {
    hide Loop, Unroll, Stalls;
    LoopLeavesUnlessSpin(st, buf);
    if Loop(st, buf).result == Spin {
      var lines, part := SpinStalls(st, buf);
    }
    if lines, part :| Stalls(st, buf, lines, part) {
      StallIs(st, buf, lines, part);
      StallSpins(st, lines, part);
    }
  }

  lemma StallIs(st: State, buf: string, lines: seq<string>, part: string)
    requires st.phase != Finished && Stalls(st, buf, lines, part)
    ensures buf == JoinLines(lines) + part
  {
  }

  lemma LineCodes(st: State, buf: string)
    requires st.phase != Finished && Iterate(st, buf).Leaves?
    ensures var r := Iterate(st, buf).run;
            && r.result != Spin
            && (r.result == Short ==> r.st == st && r.rest == buf && FindCrLf(buf) == |buf| && st.phase != Body)
  {
    hide ParseLine, ParseField, WithMetadata;
  }

  // ------------------------------------------------- errors are stable

  lemma ClassifyAgain(req: Request, path: string, version: Version)
    ensures var c := Classify(req, path).(version := version);
            Classify(c, path) == c && c.(url := req.url) == c
  {
  }

  lemma VersionErrorAgain(v: string, req: Request, error: ErrorKind)
    requires ParseVersion(v, req, error).code == Error
    ensures var o := ParseVersion(v, req, error);
            o.req == req.(version := o.req.version) && ParseVersion(v, o.req, o.error) == o
  {
    hide ResolveUrl, VersionCode;
  }

  lemma UrlErrorAgain(rest: string, req: Request, error: ErrorKind)
    requires ParseUrl(rest, req, error).code == Error
    ensures var o := ParseUrl(rest, req, error);
            && o.req.verb == req.verb && (!req.isStatic ==> !o.req.isStatic)
            && ParseUrl(rest, o.req, o.error) == o
  {
    hide ParseVersion, Classify;
    var q := Find(rest, ' ');
    if 0 < q < |rest| && rest[0] == '/' {
      var r := req.(url := rest[..q]);
      var c := Classify(r, rest[1..q]);
      VersionErrorAgain(rest[q + 1..], c, error);
      var o := ParseVersion(rest[q + 1..], c, error);
      ClassifyAgain(r, rest[1..q], o.req.version);
    }
  }

  /** A request line that fails, fails the same way on the request it has half filled. */
  lemma LineErrorAgain(line: string, req: Request, error: ErrorKind)
    requires ParseLine(line, req, error).code == Error
    ensures ParseLine(line, ParseLine(line, req, error).req, ParseLine(line, req, error).error) == ParseLine(line, req, error)
  {
    hide ParseUrl, MethodOf;
    var p := Find(line, ' ');
    var verb := MethodOf(line[..p]);
    if p < |line| && verb != NotSupport {
      var r := req.(verb := verb, isStatic := req.isStatic && verb != Post);
      UrlErrorAgain(line[p + 1..], r, error);
      var o := ParseUrl(line[p + 1..], r, error);
      assert o.req.(verb := verb, isStatic := o.req.isStatic && verb != Post) == o.req;
    }
  }

  lemma IterateErrorAgain(st: State, buf: string)
    requires st.phase != Finished && Iterate(st, buf).Leaves? && Iterate(st, buf).run.result == Error
    ensures var r := Iterate(st, buf).run;
            r.st.phase == st.phase && r.rest == buf && Iterate(r.st, buf) == Leaves(r)
  {
    var line := buf[..FindCrLf(buf)];
    if st.phase == HeaderLine {
      LineErrorAgain(line, st.req, st.error);
    }
  }

  // ------------------------------------------- delivery in pieces

  /** An iteration that does something does the same thing with more bytes behind. */
  lemma IterateExtends(st: State, a: string, b: string)
    requires st.phase != Finished && !BodyMissing(st, a)
    ensures match Iterate(st, a)
            case Continues(st', rest) => Iterate(st, a + b) == Continues(st', rest + b) && !BodyMissing(st, a + b)
            case Leaves(r) => r.result != Short ==> Iterate(st, a + b) == Leaves(Run(r.result, r.st, r.rest + b)) && !BodyMissing(st, a + b)
  {
    hide ParseLine, ParseField, WithMetadata, FindCrLf;
    if st.phase == Body {
      var n := WithMetadata(st).length;
      if n != NO_LENGTH {
        assert (a + b)[..n] == a[..n] && (a + b)[n..] == a[n..] + b;
      }
    } else {
      var i := FindCrLf(a);
      if i < |a| {
        FindCrLfStable(a, b);
        assert (a + b)[..i] == a[..i] && (a + b)[i + 2..] == a[i + 2..] + b;
      }
    }
  }

  /** What appending `b` to the buffer and calling again makes of a finished call. */
  function Resume(r: Run, b: string): Run
  {
    if r.result == Good || r.result == Fault then Run(r.result, r.st, r.rest + b) else Parsed(r.st, r.rest + b)
  }

  lemma {:induction false} LoopExtends(st: State, a: string, b: string)
    requires st.phase != Finished
    ensures Loop(st, a + b) == Resume(Loop(st, a), b)
    decreases PhasesLeft(st.phase), |a|
  {
    hide ParseLine, ParseField, WithMetadata;
    if BodyMissing(st, a) {
      MetadataIdempotent(st);
    } else {
      IterateExtends(st, a, b);
      match Iterate(st, a)
      case Continues(st', rest) => LoopExtends(st', rest, b);
      case Leaves(r) =>
        LineCodes(st, a);
        if r.result == Error {
          IterateErrorAgain(st, a + b);
        }
    }
  }

  /** Append each piece and call Parse after it; once a request is complete nobody calls again. */
  function FeedPieces(r: Run, pieces: seq<string>): Run
    decreases |pieces|
  {
    if pieces == [] then r else FeedPieces(Resume(r, pieces[0]), pieces[1..])
  }

  lemma {:induction false} FeedPiecesFrom(st: State, a: string, pieces: seq<string>)
    ensures FeedPieces(Parsed(st, a), pieces) == Parsed(st, a + Flatten(pieces))
    decreases |pieces|
  {
    hide ParseLine, ParseField, WithMetadata, Loop;
    if pieces == [] {
      assert a + Flatten(pieces) == a;
    } else {
      LoopExtends(Begin(st), a, pieces[0]);
      FeedPiecesFrom(st, a + pieces[0], pieces[1..]);
      assert a + pieces[0] + Flatten(pieces[1..]) == a + Flatten(pieces);
    }
  }

  /** Any way of cutting a byte stream into pieces gives the same result, request, error,
      parser state and unread bytes as one call on the whole stream. (Spin stands for the kShort
      that the missing exit should return.) */
  lemma FragmentationIndependence(st: State, pieces: seq<string>)
    requires pieces != []
    ensures FeedPieces(Parsed(st, pieces[0]), pieces[1..]) == Parsed(st, Flatten(pieces))
  {
    FeedPiecesFrom(st, pieces[0], pieces[1..]);
  }

  /** In the delivery as coded some call never returns. */
  predicate SomeCallSpins(r: Run, pieces: seq<string>)
    decreases |pieces|
  {
    r.result == Spin || (pieces != [] && SomeCallSpins(Resume(r, pieces[0]), pieces[1..]))
  }

  lemma {:induction false} CallsSpinFrom(st: State, a: string, pieces: seq<string>)
    ensures SomeCallSpins(Parsed(st, a), pieces)
       <==> exists k :: 0 <= k <= |pieces| && Parsed(st, a + Flatten(pieces[..k])).result == Spin
    decreases |pieces|
  {
    hide Parsed, Resume;
    assert pieces[..0] == [] && a + "" == a;
    assert Parsed(st, a + Flatten(pieces[..0])) == Parsed(st, a);
    if pieces != [] {
      var b := a + pieces[0];
      FeedPiecesFrom(st, a, [pieces[0]]);
      OnePiece(st, a, pieces[0]);
      CallsSpinFrom(st, b, pieces[1..]);
      forall k | 1 <= k <= |pieces|
        ensures a + Flatten(pieces[..k]) == b + Flatten(pieces[1..][..k - 1])
      {
        assert pieces[..k][1..] == pieces[1..][..k - 1];
        assert a + (pieces[0] + Flatten(pieces[1..][..k - 1])) == b + Flatten(pieces[1..][..k - 1]);
      }
      if j :| 0 <= j <= |pieces[1..]| && Parsed(st, b + Flatten(pieces[1..][..j])).result == Spin {
        assert Parsed(st, a + Flatten(pieces[..j + 1])).result == Spin;
      }
    }
  }

  lemma OnePiece(st: State, a: string, b: string)
    ensures Resume(Parsed(st, a), b) == Parsed(st, a + b)
  {
    hide ParseLine, ParseField, WithMetadata, Loop;
    LoopExtends(Begin(st), a, b);
  }

  /** Some call spins exactly if the bytes up to the end of some piece are such a stall. Where none
      does, FragmentationIndependence is what the code does. */
  lemma CallsSpin(st: State, pieces: seq<string>)
    requires pieces != []
    ensures SomeCallSpins(Parsed(st, pieces[0]), pieces[1..])
       <==> exists k :: 1 <= k <= |pieces| && Parsed(st, Flatten(pieces[..k])).result == Spin
    ensures forall k :: 1 <= k <= |pieces| ==>
              (Parsed(st, Flatten(pieces[..k])).result == Spin <==> exists lines, part :: Stalls(Begin(st), Flatten(pieces[..k]), lines, part))
  {
    hide Parsed, Stalls, SomeCallSpins;
    CallsSpinFrom(st, pieces[0], pieces[1..]);
    forall k | 1 <= k <= |pieces|
      ensures pieces[0] + Flatten(pieces[1..][..k - 1]) == Flatten(pieces[..k])
    {
      assert pieces[..k][1..] == pieces[1..][..k - 1];
    }
    if j :| 0 <= j <= |pieces[1..]| && Parsed(st, pieces[0] + Flatten(pieces[1..][..j])).result == Spin {
      assert Parsed(st, Flatten(pieces[..j + 1])).result == Spin;
    }
    forall k | 1 <= k <= |pieces|
      ensures Parsed(st, Flatten(pieces[..k])).result == Spin <==> exists lines, part :: Stalls(Begin(st), Flatten(pieces[..k]), lines, part)
    {
      SpinIsStall(st, Flatten(pieces[..k]));
    }
  }

  lemma SpinIsStall(st: State, buf: string)
    ensures Begin(st).phase != Finished
    ensures Parsed(st, buf).result == Spin <==> exists lines, part :: Stalls(Begin(st), buf, lines, part)
  {
    hide Loop, Stalls, Unroll;
    LoopLeavesUnlessSpin(Begin(st), buf);
    NeverLeaves(Begin(st), buf);
  }

  lemma {:induction false} LoopErrorAgain(st: State, buf: string)
    requires st.phase != Finished && Loop(st, buf).result == Error
    ensures var r := Loop(st, buf);
            && r.st.phase in {HeaderLine, HeaderFields} && FindCrLf(r.rest) < |r.rest|
            && Iterate(r.st, r.rest) == Leaves(r)
    decreases PhasesLeft(st.phase), |buf|
  {
    hide ParseLine, ParseField, WithMetadata;
    match Iterate(st, buf)
    case Continues(st', rest) => LoopErrorAgain(st', rest);
    case Leaves(r) => IterateErrorAgain(st, buf);
  }

  /** After kError the offending line is still in front of the buffer, and every later call, on
      whatever the buffer has grown to, reports kError again and changes nothing. */
  lemma ErrorIsForever(st: State, buf: string, more: string)
    requires Parsed(st, buf).result == Error
    ensures var r := Parsed(st, buf);
            && FindCrLf(r.rest) < |r.rest|
            && Parsed(r.st, r.rest + more) == Run(Error, r.st, r.rest + more)
  {
    hide ParseLine, ParseField, WithMetadata;
    LoopErrorAgain(Begin(st), buf);
    var r := Parsed(st, buf);
    IterateExtends(r.st, r.rest, more);
  }
}
