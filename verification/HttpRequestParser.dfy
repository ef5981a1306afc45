/** HttpRequestParser, the older parser: its request-line loop around the automaton, its
    resumable header loop, and the phases that call them. */
module HttpRequestParser {
  import opened Text
  import opened HttpMessage
  import opened RequestLine
  import ComplexUrl
  import HttpParser

  // ------------------------------------------------------ the header loop

  datatype HeaderResult = HeadersComplete | HeadersShort | HeadersBad | HeadersFault

  /** `pos` is parsed_pos_ from the beginning of the readable bytes. */
  datatype Header = Header(pos: nat, headers: HeaderMap, length: nat)

  datatype HeaderOutcome = HeaderOutcome(result: HeaderResult, h: Header)

  const LLONG_MAX: nat := 0x7FFF_FFFF_FFFF_FFFF

  /** atoll as glibc has it (strtoll), converted to size_t. */
  function Atoll(s: string): nat
  {
    var t := SkipSpaces(s);
    var negative := t != "" && t[0] == '-';
    var v := DigitsValue(if negative || (t != "" && t[0] == '+') then t[1..] else t, 0);
    if negative then (if v > LLONG_MAX then LLONG_MAX + 1 else (ULLONG_MAX + 1 - v) % (ULLONG_MAX + 1))
    else if v > LLONG_MAX then LLONG_MAX else v
  }

  /** A printed number reads back, up to the bound of long long. */
  lemma AtollOfDec(n: nat)
    ensures Atoll(Dec(n)) == if n <= LLONG_MAX then n else LLONG_MAX
  {
    var d := Dec(n);
    assert IsDigit(d[0]) && SkipSpaces(d) == d;
    DecValue(n);
  }

  /** And so does one with blanks, a sign and something else around it; below zero it is converted
      to size_t. */
  lemma AtollReads(blanks: string, sign: string, n: nat, behind: string)
    requires NumberText(blanks, sign, behind)
    ensures Atoll(blanks + (sign + (Dec(n) + behind))) ==
            if sign != "-" then (if n > LLONG_MAX then LLONG_MAX else n)
            else if n == 0 then 0 else ULLONG_MAX + 1 - (if n > LLONG_MAX then LLONG_MAX + 1 else n)
  {
    hide Dec, SkipSpaces, DigitsValue;
    NumberSeen(blanks, sign, n, behind);
  }

  predicate BlankLine(rest: string)
  {
    |rest| >= 2 && rest[0] == '\r' && rest[1] == '\n'
  }

  /** substr(spliter + 2, pos - spliter - 2): the count wraps when the line is too short. */
  function FieldValue(rest: string, colon: nat, eol: nat): string
    requires colon + 2 <= |rest| && eol <= |rest|
  {
    if colon + 2 <= eol then rest[colon + 2..eol] else rest[colon + 2..]
  }

  datatype HeaderStep = Stop(result: HeaderResult) | TakeLine(h: Header)

  /** One pass of the loop over what remains, `rest`. The colon is looked for in all of it, not
      only in the line. */
  function StepHeader(h: Header, rest: string): (r: HeaderStep)
    ensures r == Stop(HeadersComplete) ==> |rest| >= 2
    ensures r.TakeLine? ==> h.pos < r.h.pos <= h.pos + |rest|
  {
    if BlankLine(rest) then Stop(HeadersComplete) else
    var eol := FindCrLf(rest);
    if eol == |rest| then Stop(HeadersShort) else
    var colon := Find(rest, ':');
    if colon == |rest| then Stop(HeadersBad)
    else if colon + 2 > |rest| then Stop(HeadersFault)
    else
      var field, value := rest[..colon], FieldValue(rest, colon, eol);
      TakeLine(Header(h.pos + eol + 2, Emplace(h.headers, field, value),
                      if field == "Content-Length" then Atoll(value) else h.length))
  }

  /** One call of ProcessRequestHeader. */
  function HeaderCall(h: Header, s: string): (o: HeaderOutcome)
    requires h.pos <= |s|
    ensures h.pos <= o.h.pos <= |s|
    decreases |s| - h.pos
  {
    match StepHeader(h, s[h.pos..])
    case Stop(r) => HeaderOutcome(r, if r == HeadersComplete then h.(pos := h.pos + 2) else h)
    case TakeLine(next) => HeaderCall(next, s)
  }

  lemma HeaderCallStep(h: Header, s: string)
    requires h.pos <= |s|
    ensures var step := StepHeader(h, s[h.pos..]);
            HeaderCall(h, s) ==
            if step.TakeLine? then HeaderCall(step.h, s)
            else HeaderOutcome(step.result, if step.result == HeadersComplete then h.(pos := h.pos + 2) else h)
  {
  }

  lemma SliceAgain(s: string, i: nat, n: nat)
    requires i + n <= |s|
    ensures s[i..][n..] == s[i + n..]
  {
  }

  // ------------------------------------------------------------ the phases

  datatype Phase = InRequestLine | InHeader | InBody | Complete

  datatype Result = ResultComplete | ResultShort | ResultBad | ResultFault

  datatype State = State(phase: Phase, auto: Auto, url: string, header: Header)

  const FRESH_STATE := State(InRequestLine, INITIAL, "", Header(0, map[], 0))

  /** The URL and the static flag once a request line is accepted; a bad escape is not reported
      and leaves what was transduced before it. */
  function WithUrl(st: State, token: string): State
  {
    if !st.auto.isComplex then st.(url := token) else
    var c := ComplexUrl.Feed(ComplexUrl.START, token).c;
    st.(url := c.out, auto := st.auto.(isStatic := st.auto.isStatic && !c.query))
  }

  predicate UrlInBounds(a: Auto, s: string)
  {
    0 <= a.urlStart <= a.urlEnd <= |s|
  }

  /** One call of ProcessRequestLine on the readable bytes. */
  function LineCall(st: State, s: string): (Result, State)
    requires st.header.pos <= |s|
  {
    match Run(Restarted(st.auto), s, st.header.pos)
    case Again(a) => (ResultShort, st.(auto := Restarted(a), header := st.header.(pos := |s|)))
    case Bad(_, a, n) => (ResultBad, st.(auto := Restarted(a), header := st.header.(pos := n)))
    case Ok(a, n) =>
      var st' := st.(auto := Restarted(a), header := st.header.(pos := n));
      if UrlInBounds(a, s) then (ResultComplete, WithUrl(st', s[a.urlStart..a.urlEnd])) else (ResultFault, st')
  }

  class HttpRequestParser {
    var phase: Phase
    var auto: Auto
    var url: string
    var parsedPos: nat
    var headers: HeaderMap
    var length: nat

    constructor ()
      ensures View() == FRESH_STATE
    {
      phase := InRequestLine;
      auto := INITIAL;
      url := "";
      parsedPos := 0;
      headers := map[];
      length := 0;
    }

    function View(): State
      reads this
    {
      State(phase, auto, url, Header(parsedPos, headers, length))
    }

    /** for (; parsed_pos_ != line.end() && state < kDone; ++parsed_pos_) ... */
    method ParseRequestLine(line: string) returns (o: Outcome)
      requires parsedPos <= |line|
      modifies this`auto, this`parsedPos
      ensures o == Run(Restarted(old(auto)), line, old(parsedPos))
      ensures auto == Restarted(o.a) && parsedPos == (match o case Ok(_, n) => n case Again(_) => |line| case Bad(_, _, n) => n)
    {
      var a := Restarted(auto); // state_ is 0 whenever a call begins
      while parsedPos != |line| && a.state != Done
        invariant parsedPos <= |line|
        invariant Run(a, line, parsedPos) == Run(Restarted(old(auto)), line, old(parsedPos))
        decreases |line| - parsedPos
      {
        match Next(a, line, parsedPos)
        case Reject(why, b) =>
          auto := Restarted(b);
          return Bad(why, b, parsedPos);
        case Go(b) =>
          a := b;
          parsedPos := parsedPos + 1;
      }
      auto := Restarted(a);
      o := if a.state == Done then Ok(a, parsedPos) else Again(a);
    }

    method ProcessRequestLine(line: string) returns (r: Result)
      requires parsedPos <= |line|
      modifies this`auto, this`parsedPos, this`url
      ensures (r, View()) == LineCall(old(View()), line)
    {
      hide Run;
      var o := ParseRequestLine(line);
      match o
      case Again(_) => r := ResultShort;
      case Bad(_, _, _) => r := ResultBad;
      case Ok(a, _) =>
        if !UrlInBounds(a, line) {
          return ResultFault;
        }
        var token := line[a.urlStart..a.urlEnd];
        if auto.isComplex {
          var ok, out, query, _ := ComplexUrl.Transduce(token);
          url := out;
          if query {
            auto := auto.(isStatic := false);
          }
        } else {
          url := token;
        }
        r := ResultComplete;
    }

    /** The field of one line, and past the line. */
    method TakeField(rest: string, colon: nat, eol: nat)
      requires !BlankLine(rest) && eol == FindCrLf(rest) < |rest| && colon == Find(rest, ':') && colon + 2 <= |rest|
      modifies this`parsedPos, this`headers, this`length
      ensures StepHeader(old(View()).header, rest) == TakeLine(Header(parsedPos, headers, length))
      ensures parsedPos == old(parsedPos) + eol + 2
    {
      hide Emplace, Atoll, BlankLine, Find, FindCrLf, FieldValue;
      var field := rest[..colon];
      var value := FieldValue(rest, colon, eol);
      if field == "Content-Length" {
        length := Atoll(value);
      }
      headers := Emplace(headers, field, value);
      parsedPos := parsedPos + eol + 2;
    }

    method ProcessRequestHeader(text: string) returns (r: HeaderResult)
      requires parsedPos <= |text|
      modifies this`parsedPos, this`headers, this`length
      ensures HeaderOutcome(r, Header(parsedPos, headers, length)) == HeaderCall(old(View()).header, text)
    {
      hide HeaderCall, Emplace, Atoll, BlankLine, Find, FindCrLf, FieldValue;
      var rest := text[parsedPos..];
      HeaderCallStep(Header(parsedPos, headers, length), text);
      if BlankLine(rest) {
        parsedPos := parsedPos + 2;
        return HeadersComplete;
      }
      var eol := FindCrLf(rest);
      while eol < |rest|
        invariant parsedPos <= |text| && rest == text[parsedPos..] && eol == FindCrLf(rest) && !BlankLine(rest)
        invariant HeaderCall(old(View()).header, text) == HeaderCall(Header(parsedPos, headers, length), text)
        decreases |rest|
      {
        HeaderCallStep(Header(parsedPos, headers, length), text);
        var colon := Find(rest, ':');
        if colon == |rest| {
          return HeadersBad;
        }
        if colon + 2 > |rest| {
          return HeadersFault;
        }
        SliceAgain(text, parsedPos, eol + 2);
        TakeField(rest, colon, eol);
        rest := rest[eol + 2..];
        if BlankLine(rest) {
          HeaderCallStep(Header(parsedPos, headers, length), text);
          parsedPos := parsedPos + 2;
          return HeadersComplete;
        }
        eol := FindCrLf(rest);
      }
      HeaderCallStep(Header(parsedPos, headers, length), text);
      r := HeadersShort;
    }

    /** The phase loop of Parse, from the request line to the end of the headers. */
    method Parse(buffer: HttpParser.Buffer) returns (r: Result)
      requires buffer.data != "" && parsedPos <= |buffer.data|
      modifies this, buffer
      ensures (r, View(), buffer.data) == ParseCall(old(View()), old(buffer.data))
    {
      hide LineCall, HeaderCall;
      if phase == InRequestLine {
        r := ProcessRequestLine(buffer.data);
        if r != ResultComplete {
          return;
        }
        phase := InHeader;
        LineCallBounds(old(View()), buffer.data);
        buffer.AdvanceRead(parsedPos);
        parsedPos := 0;
      }
      if phase == InHeader {
        var h := ProcessRequestHeader(buffer.data);
        if h != HeadersComplete {
          return HeaderVerdict(h);
        }
        phase := InBody;
        buffer.AdvanceRead(parsedPos);
        parsedPos := 0;
      }
      phase := Complete;
      r := ResultComplete;
    }
  }

  function HeaderVerdict(h: HeaderResult): Result
  {
    match h
    case HeadersComplete => ResultComplete
    case HeadersShort => ResultShort
    case HeadersBad => ResultBad
    case HeadersFault => ResultFault
  }

  lemma {:induction false} RunBounds(a: Auto, s: string, i: nat)
    requires i <= |s|
    ensures Run(a, s, i).Ok? ==> i <= Run(a, s, i).pos <= |s|
  {
    hide Run, Next;
    if Run(a, s, i).Ok? {
      OkBounds(a, s, i);
    }
  }

  lemma LineCallBounds(st: State, s: string)
    requires st.header.pos <= |s|
    ensures var (r, t) := LineCall(st, s); t.phase == st.phase && (r == ResultComplete ==> t.header.pos <= |s|)
  {
    hide Run, ComplexUrl.Feed;
    RunBounds(Restarted(st.auto), s, st.header.pos);
  }

  function HeaderPhase(st: State, s: string): (Result, State, string)
    requires st.header.pos <= |s|
  {
    var o := HeaderCall(st.header, s);
    if o.result == HeadersComplete then
      (ResultComplete, st.(phase := Complete, header := o.h.(pos := 0)), s[o.h.pos..])
    else (HeaderVerdict(o.result), st.(header := o.h), s)
  }

  /** One call of Parse: the verdict, the parser and the unread bytes. */
  function ParseCall(st: State, s: string): (Result, State, string)
    requires st.header.pos <= |s|
  {
    match st.phase
    case InRequestLine =>
      LineCallBounds(st, s);
      var (r, t) := LineCall(st, s);
      if r != ResultComplete then (r, t, s)
      else HeaderPhase(t.(phase := InHeader, header := t.header.(pos := 0)), s[t.header.pos..])
    case InHeader => HeaderPhase(st, s)
    case InBody => (ResultComplete, st.(phase := Complete), s)
    case Complete => (ResultComplete, st, s)
  }

  // ------------------------------------------------ no fault in a request line

  /** What holds between calls while the request line is read: nothing but the method's letters has
      been read, or a space has, or the character that is next begins nothing. */
  ghost predicate LineReady(st: State, s: string)
  {
    st.phase == InRequestLine ==>
      && st.header.pos <= |s| && Restarted(st.auto) == st.auto
      && ((st.auto == INITIAL && All(IsUpper, s, 0, st.header.pos)) || ' ' in s[..st.header.pos]
          || (st.header.pos < |s| && !IsUpper(s[st.header.pos])))
  }

  lemma AcceptedInBounds(s: string)
    requires Run(INITIAL, s, 0).Ok?
    ensures UrlInBounds(Run(INITIAL, s, 0).a, s)
  {
    hide Run, MethodOf, Recorded, IsRequestLine;
    var k := AcceptedInGrammar(s);
    AcceptsExactly(s);
  }

  lemma NextCallReady(st: State, s: string, b: string)
    requires st.phase == InRequestLine && LineReady(st, s)
    ensures st.header.pos <= |s + b|
    ensures var (r, t) := LineCall(st, s + b); r != ResultFault && (r != ResultComplete ==> LineReady(t, s + b))
  {
    hide Run, ComplexUrl.Feed, MethodOf;
    var u, n := s + b, st.header.pos;
    var o := Run(Restarted(st.auto), u, n);
    Positions(st.auto, u, n);
    assert u[..n] == s[..n];
    if v :| 0 <= v < n && s[v] == ' ' {
      assert s[..n][v] == ' ' && u[v] == ' ';
      StartedLate(st.auto, u, n, v);
      assert o.Bad? ==> u[..o.pos][v] == ' ';
    } else if n < |s| && !IsUpper(s[n]) {
      StartStage(st.auto, u, n);
    } else {
      RestartInMethod(u, n);
      if o.Ok? {
        AcceptedInBounds(u);
      }
    }
  }

  lemma HeaderPhaseReady(st: State, s: string)
    requires st.header.pos <= |s| && st.phase == InHeader
    ensures var (r, t, u) := HeaderPhase(st, s);
            t.phase != InRequestLine && t.header.pos <= |u| && (r == ResultFault ==> t.phase == InHeader)
  {
    hide HeaderCall;
  }

  /** Over any calls of Parse, with more bytes in the buffer each time, reading the request line never
      cuts beyond them: a fault can only come from the headers. */
  lemma FaultsInHeadersOnly(st: State, s: string, b: string)
    requires LineReady(st, s) && st.header.pos <= |s|
    ensures st.header.pos <= |s + b|
    ensures var (r, t, u) := ParseCall(st, s + b);
            LineReady(t, u) && t.header.pos <= |u| && (r == ResultFault ==> t.phase == InHeader)
    ensures LineReady(FRESH_STATE, "")
  {
    hide Run, LineCall, HeaderPhase;
    var u := s + b;
    if st.phase == InRequestLine {
      NextCallReady(st, s, b);
      LineCallBounds(st, u);
      var (r, t) := LineCall(st, u);
      if r == ResultComplete {
        HeaderPhaseReady(t.(phase := InHeader, header := t.header.(pos := 0)), u[t.header.pos..]);
      }
    } else if st.phase == InHeader {
      HeaderPhaseReady(st, u);
    }
  }
}
