/** HttpParser: the phase machine over a growing buffer. The functions say what one line, one
    loop iteration and one call compute; the class is the code, proved to compute just that. */
module HttpParser {
  import opened Text
  import opened HttpMessage
  import ComplexUrl

  datatype Phase = HeaderLine | HeaderFields | Body | Finished

  /** kGood, kShort, kError, and two ways a call of the code does not return a result: Spin,
      the loop that a short body never leaves, and Fault, an assertion, a signed overflow or a
      substr past the end of the line. */
  datatype Result = Good | Short | Error | Spin | Fault

  datatype ErrorKind =
    | NoError | MethodMissing | MethodUnsupported | UrlMissing | UrlEmpty | UrlNotPath
    | HttpMissing | DotMissing | VersionUnsupported | EscapeInvalid(atFirst: bool) | ColonMissing

  const NO_LENGTH: nat := ULLONG_MAX // static_cast<uint64_t>(-1)

  // ------------------------------------------------------------ one line

  datatype LineOutcome = LineOutcome(code: Result, error: ErrorKind, req: Request)

  predicate InInt(n: int)
  {
    -0x8000_0000 <= n < 0x8000_0000
  }

  function SignedChar(c: char): int
  {
    if c as int < 128 then c as int else c as int - 256
  }

  /** `v = v * 10 + c - '0'` over the characters, whatever they are; None on signed overflow. */
  function ReadInt(s: string, v: int): Option<int>
    decreases |s|
  {
    if s == "" then Some(v) else
    var ten := v * 10;
    var sum := ten + SignedChar(s[0]);
    var next := sum - '0' as int;
    if InInt(ten) && InInt(sum) && InInt(next) then ReadInt(s[1..], next) else None
  }

  /** major * 100 + minor of the text around the first dot. */
  function VersionCode(w: string): Option<int>
  {
    var d := Find(w, '.');
    var major, minor := ReadInt(w[..d], 0), ReadInt(if d < |w| then w[d + 1..] else "", 0);
    if major.None? || minor.None? || !InInt(major.value * 100) || !InInt(major.value * 100 + minor.value) then None
    else Some(major.value * 100 + minor.value)
  }

  /** A directory segment that makes the URL complex. */
  predicate OddDirectory(seg: string)
  {
    ComplexUrl.Odd(seg) || '%' in seg
  }

  function Classify(req: Request, path: string): (r: Request)
    ensures r.verb == req.verb && r.url == req.url && (!req.isStatic ==> !r.isStatic)
  {
    var segs := ComplexUrl.Split(path);
    var odd := exists k :: 0 <= k < |segs| - 1 && OddDirectory(segs[k]);
    var query := '?' in segs[|segs| - 1];
    req.(isComplex := req.isComplex || odd || query, isStatic := req.isStatic && !query)
  }

  /** The end of ParseHeaderLine: a complex URL is transduced; a bad escape only sets error_;
      a dynamic URL without '?' trips the assertion. */
  function ResolveUrl(req: Request, error: ErrorKind): (o: LineOutcome)
    ensures o.code in {Good, Fault}
    ensures o.req == req.(url := o.req.url, query := o.req.query)
  {
    if !req.isComplex then LineOutcome(Good, error, req) else
    match ComplexUrl.Feed(ComplexUrl.START, req.url)
    case BadEscape(first, _) => LineOutcome(Good, EscapeInvalid(first), req)
    case Running(c) =>
      if req.isStatic then LineOutcome(Good, error, req.(url := c.out)) else
      var q := Find(c.out, '?');
      if q == |c.out| then LineOutcome(Fault, error, req)
      else LineOutcome(Good, error, req.(url := c.out[..q], query := c.out[q + 1..]))
  }

  function ParseVersion(v: string, req: Request, error: ErrorKind): (o: LineOutcome)
    ensures o.code in {Good, Error, Fault}
  {
    if |v| < 5 || v[..5] != "HTTP/" then LineOutcome(Error, HttpMissing, req)
    else if Find(v[5..], '.') == |v[5..]| then LineOutcome(Error, DotMissing, req)
    else match VersionCode(v[5..])
    case None => LineOutcome(Fault, error, req)
    case Some(code) =>
      var req' := req.(version := VersionOf(code));
      if req'.version == NoVersion then LineOutcome(Error, VersionUnsupported, req')
      else ResolveUrl(req', error)
  }

  function ParseUrl(rest: string, req: Request, error: ErrorKind): (o: LineOutcome)
    ensures o.code in {Good, Error, Fault}
  {
    var q := Find(rest, ' ');
    if q == |rest| then LineOutcome(Error, UrlMissing, req)
    else if q == 0 then LineOutcome(Error, UrlEmpty, req)
    else if rest[0] != '/' then LineOutcome(Error, UrlNotPath, req.(url := rest[..q]))
    else ParseVersion(rest[q + 1..], Classify(req.(url := rest[..q]), rest[1..q]), error)
  }

  function ParseLine(line: string, req: Request, error: ErrorKind): (o: LineOutcome)
    ensures o.code in {Good, Error, Fault}
  {
    var p := Find(line, ' ');
    if p == |line| then LineOutcome(Error, MethodMissing, req) else
    var verb := MethodOf(line[..p]);
    if verb == NotSupport then LineOutcome(Error, MethodUnsupported, req.(verb := verb))
    else ParseUrl(line[p + 1..], req.(verb := verb, isStatic := req.isStatic && verb != Post), error)
  }

  /** kGood for the blank line, kShort for a field. */
  function ParseField(line: string, req: Request, error: ErrorKind): (o: LineOutcome)
    ensures o.code in {Good, Short, Error, Fault}
  {
    if line == "" then LineOutcome(Good, error, req) else
    var c := Find(line, ':');
    if c == |line| then LineOutcome(Error, ColonMissing, req)
    else if c + 2 > |line| then LineOutcome(Fault, error, req)
    else LineOutcome(Short, error, req.(headers := Emplace(req.headers, line[..c], line[c + 2..])))
  }

  function KeepAlive(req: Request): bool
  {
    match req.version
    case Http10 => "Connection" in req.headers && MatchesNoCase(req.headers["Connection"], "keep-alive")
    case Http11 => !("Connection" in req.headers && MatchesNoCase(req.headers["Connection"], "close"))
    case NoVersion => false
  }

  function LengthOf(req: Request, length: nat): nat
  {
    if "Content-Length" in req.headers then StrToULL(req.headers["Content-Length"]) else length
  }

  // ------------------------------------------------------- one iteration

  datatype State = State(phase: Phase, length: nat, error: ErrorKind, req: Request)

  datatype Run = Run(result: Result, st: State, rest: string)

  datatype Iteration = Leaves(run: Run) | Continues(st: State, rest: string)

  function WithMetadata(st: State): (m: State)
    ensures m.phase == st.phase && m.error == st.error
  {
    st.(req := st.req.(isKeepAlive := KeepAlive(st.req)), length := LengthOf(st.req, st.length))
  }

  /** One pass through the body of the while loop, as coded. */
  function Iterate(st: State, buf: string): Iteration
    requires st.phase != Finished
  {
    if st.phase == Body then
      var m := WithMetadata(st);
      if m.length == NO_LENGTH then Leaves(Run(Good, m.(phase := Finished), buf))
      else if |buf| < m.length then Continues(m, buf)
      else Leaves(Run(Good, m.(phase := Finished, req := m.req.(body := buf[..m.length])), buf[m.length..]))
    else
      var i := FindCrLf(buf);
      if i == |buf| then Leaves(Run(Short, st, buf)) else
      var line, rest := buf[..i], buf[i + 2..];
      if st.phase == HeaderLine then
        var o := ParseLine(line, st.req, st.error);
        var st' := st.(error := o.error, req := o.req);
        if o.code == Good then Continues(st'.(phase := HeaderFields), rest) else Leaves(Run(o.code, st', buf))
      else
        var o := ParseField(line, st.req, st.error);
        var st' := st.(error := o.error, req := o.req);
        if o.code == Good then Continues(st'.(phase := Body), rest)
        else if o.code == Short then Continues(st', rest)
        else Leaves(Run(o.code, st', buf))
  }

  /** The body is announced but has not all arrived. */
  predicate BodyMissing(st: State, buf: string)
  {
    st.phase == Body && WithMetadata(st).length != NO_LENGTH && |buf| < WithMetadata(st).length
  }

  function PhasesLeft(p: Phase): nat
  {
    match p case HeaderLine => 3 case HeaderFields => 2 case Body => 1 case Finished => 0
  }

  function Loop(st: State, buf: string): (r: Run)
    requires st.phase != Finished
    ensures r.st.phase == Finished <==> r.result == Good
    decreases PhasesLeft(st.phase), |buf|
  {
    if BodyMissing(st, buf) then Run(Spin, WithMetadata(st), buf) else
    match Iterate(st, buf)
    case Leaves(run) => run
    case Continues(st', rest) => Loop(st', rest)
  }

  function Reset(st: State): State
  {
    st.(phase := HeaderLine, length := NO_LENGTH)
  }

  function Begin(st: State): State
  {
    if st.phase == Finished then Reset(st) else st
  }

  /** One call of Parse. */
  function Parsed(st: State, buf: string): Run
  {
    Loop(Begin(st), buf)
  }

  // -------------------------------------------------------------- the code

  class Buffer {
    var data: string

    constructor ()
      ensures data == ""
    {
      data := "";
    }

    method AdvanceRead(n: nat)
      requires n <= |data|
      modifies this
      ensures data == old(data[n..])
    {
      data := data[n..];
    }

    method RetrieveAsString(n: nat) returns (s: string)
      requires n <= |data|
      modifies this
      ensures s == old(data[..n]) && data == old(data[n..])
    {
      s := data[..n];
      data := data[n..];
    }
  }

  /** The request the parser fills through a pointer. */
  class HttpRequest {
    var value: Request

    constructor ()
      ensures value == FRESH
    {
      value := FRESH;
    }
  }

  class HttpParser {
    var phase: Phase
    var length: nat
    var error: ErrorKind

    constructor ()
      ensures phase == HeaderLine && length == NO_LENGTH && error == NoError
    {
      phase := HeaderLine;
      length := NO_LENGTH;
      error := NoError;
    }

    function View(request: HttpRequest): State
      reads this, request
    {
      State(phase, length, error, request.value)
    }

    /** while (url.find('/') != npos) ... then the '?' test on the last segment. */
    method ClassifyUrl(path: string, request: HttpRequest)
      modifies request
      ensures request.value == Classify(old(request.value), path)
    {
      var url := path;
      ghost var segs := ComplexUrl.Split(path);
      ghost var done := 0;
      var slash := Find(url, '/');
      while slash < |url|
        invariant slash == Find(url, '/')
        invariant 0 <= done < |segs| && segs[done..] == ComplexUrl.Split(url)
        invariant request.value ==
                  old(request.value).(isComplex := old(request.value.isComplex) || exists k :: 0 <= k < done && OddDirectory(segs[k]))
        decreases |url|
      {
        var directory := url[..slash];
        assert segs[done] == directory;
        if OddDirectory(directory) {
          request.value := request.value.(isComplex := true);
        }
        url := url[slash + 1..];
        assert segs[done + 1..] == segs[done..][1..];
        done := done + 1;
        slash := Find(url, '/');
      }
      assert segs[done..] == [url];
      assert done == |segs| - 1 && segs[done] == url;
      if '?' in url {
        request.value := request.value.(isComplex := true, isStatic := false);
      }
    }

    /** The two digit loops; None stands for a signed overflow. */
    method DigitLoop(text: string, first: nat, last: nat) returns (v: Option<int>)
      requires first <= last <= |text|
      ensures v == ReadInt(text[first..last], 0)
    {
      var digit := 0;
      var i := first;
      while i < last
        invariant first <= i <= last
        invariant ReadInt(text[first..last], 0) == ReadInt(text[i..last], digit)
      {
        assert text[i..last][0] == text[i] && text[i..last][1..] == text[i + 1..last];
        var ten := digit * 10;
        var sum := ten + SignedChar(text[i]);
        if !InInt(ten) || !InInt(sum) || !InInt(sum - '0' as int) {
          return None;
        }
        digit := sum - '0' as int;
        i := i + 1;
      }
      assert text[last..last] == "";
      v := Some(digit);
    }

    method ParseComplexUrl(request: HttpRequest) returns (code: Result)
      requires request.value.isComplex
      modifies this`error, request
      ensures var o := ResolveUrl(old(request.value), old(error));
              request.value == o.req && error == o.error && (code == Fault <==> o.code == Fault)
    {
      var ok, transfer, _, first := ComplexUrl.Transduce(request.value.url);
      if !ok {
        error := EscapeInvalid(first);
        return Error;
      }
      if request.value.isStatic {
        request.value := request.value.(url := transfer);
      } else {
        var q := Find(transfer, '?');
        if q == |transfer| {
          return Fault;
        }
        request.value := request.value.(url := transfer[..q], query := transfer[q + 1..]);
      }
      code := Good;
    }

    method ParseHeaderLine(line: string, request: HttpRequest) returns (code: Result)
      modifies this`error, request
      ensures LineOutcome(code, error, request.value) == ParseLine(line, old(request.value), old(error))
    {
      hide ParseVersion, Classify, MethodOf;
      var space := Find(line, ' ');
      if space == |line| {
        error := MethodMissing;
        return Error;
      }
      request.value := request.value.(verb := MethodOf(line[..space]));
      if request.value.verb == NotSupport {
        error := MethodUnsupported;
        return Error;
      }
      if request.value.verb == Post {
        request.value := request.value.(isStatic := false);
      }
      var rest := line[space + 1..];
      space := Find(rest, ' ');
      if space == |rest| {
        error := UrlMissing;
        return Error;
      }
      var url := rest[..space];
      if |url| == 0 {
        error := UrlEmpty;
        return Error;
      }
      request.value := request.value.(url := url);
      if url[0] != '/' {
        error := UrlNotPath;
        return Error;
      }
      assert url[1..] == rest[1..space];
      ClassifyUrl(url[1..], request);
      code := ParseHttpVersion(rest[space + 1..], request);
    }

    /** The rest of ParseHeaderLine, from the text after the URL. */
    method ParseHttpVersion(text: string, request: HttpRequest) returns (code: Result)
      modifies this`error, request
      ensures LineOutcome(code, error, request.value) == ParseVersion(text, old(request.value), old(error))
    {
      var version := text;
      if |version| < 5 || version[..5] != "HTTP/" {
        error := HttpMissing;
        return Error;
      }
      version := version[5..];
      var dot := Find(version, '.');
      if dot == |version| {
        error := DotMissing;
        return Error;
      }
      assert version[0..dot] == version[..dot] && version[dot + 1..|version|] == version[dot + 1..];
      var major := DigitLoop(version, 0, dot);
      if major.None? || !InInt(major.value * 100) {
        return Fault;
      }
      var minor := DigitLoop(version, dot + 1, |version|);
      if minor.None? || !InInt(major.value * 100 + minor.value) {
        return Fault;
      }
      request.value := request.value.(version := VersionOf(major.value * 100 + minor.value));
      if request.value.version == NoVersion {
        error := VersionUnsupported;
        return Error;
      }
      if request.value.isComplex {
        var ignored := ParseComplexUrl(request);
        if ignored == Fault {
          return Fault;
        }
      }
      code := Good;
    }

    method ParseHeaderField(header: string, request: HttpRequest) returns (code: Result)
      modifies this`error, request
      ensures LineOutcome(code, error, request.value) == ParseField(header, old(request.value), old(error))
    {
      if header == "" {
        return Good;
      }
      var colon := Find(header, ':');
      if colon == |header| {
        error := ColonMissing;
        return Error;
      }
      if colon + 2 > |header| {
        return Fault;
      }
      request.value := request.value.(headers := Emplace(request.value.headers, header[..colon], header[colon + 2..]));
      code := Short;
    }

    method SetHeaderMetadata(request: HttpRequest)
      modifies this`length, request
      ensures View(request) == WithMetadata(old(View(request)))
    {
      var r := request.value;
      var found := "Connection" in r.headers;
      match r.version {
        case Http10 =>
          r := r.(isKeepAlive := found && MatchesNoCase(r.headers["Connection"], "keep-alive"));
        case Http11 =>
          r := r.(isKeepAlive := !(found && MatchesNoCase(r.headers["Connection"], "close")));
        case NoVersion =>
          r := r.(isKeepAlive := false);
      }
      request.value := r;
      if "Content-Length" in r.headers {
        length := StrToULL(r.headers["Content-Length"]);
      }
    }

    method ExtractBody(buffer: Buffer, request: HttpRequest) returns (code: Result)
      modifies buffer, request
      ensures code == if old(|buffer.data|) >= length then Good else Short
      ensures code == Good ==> request.value == old(request.value).(body := old(buffer.data)[..length])
                               && buffer.data == old(buffer.data)[length..]
      ensures code == Short ==> request.value == old(request.value) && buffer.data == old(buffer.data)
    {
      if |buffer.data| >= length {
        var body := buffer.RetrieveAsString(length);
        request.value := request.value.(body := body);
        return Good;
      }
      code := Short;
    }

    /** The branch of the loop body for the request line; `again` is false where the code leaves the loop. */
    method HeaderLineStep(line: string, buffer: Buffer, request: HttpRequest) returns (ret: Result, again: bool)
      requires phase == HeaderLine && FindCrLf(buffer.data) < |buffer.data|
      requires line == buffer.data[..FindCrLf(buffer.data)]
      modifies this, buffer, request
      ensures Iterate(old(View(request)), old(buffer.data)) ==
              if again then Continues(View(request), buffer.data) else Leaves(Run(ret, View(request), buffer.data))
      ensures again ==> phase == HeaderFields
    {
      ret := ParseHeaderLine(line, request);
      if ret == Good {
        buffer.AdvanceRead(|line| + 2);
        phase := HeaderFields;
      }
      again := ret == Good;
    }

    /** The branch for the header fields. */
    method HeaderFieldStep(line: string, buffer: Buffer, request: HttpRequest) returns (ret: Result, again: bool)
      requires phase == HeaderFields && FindCrLf(buffer.data) < |buffer.data|
      requires line == buffer.data[..FindCrLf(buffer.data)]
      modifies this, buffer, request
      ensures Iterate(old(View(request)), old(buffer.data)) ==
              if again then Continues(View(request), buffer.data) else Leaves(Run(ret, View(request), buffer.data))
      ensures again ==> phase == Body || phase == HeaderFields
    {
      ret := ParseHeaderField(line, request);
      if ret == Good {
        phase := Body;
      }
      again := ret != Error && ret != Fault;
      if again {
        buffer.AdvanceRead(|line| + 2);
      }
    }

    /** The loop body in phase kBody; Spin where the code goes round again with nothing changed. */
    method BodyStep(buffer: Buffer, request: HttpRequest) returns (ret: Result)
      requires phase == Body
      modifies this, buffer, request
      ensures Run(ret, View(request), buffer.data) == Loop(old(View(request)), old(buffer.data))
    {
      SetHeaderMetadata(request);
      if length == NO_LENGTH {
        phase := Finished;
        return Good;
      }
      ret := ExtractBody(buffer, request);
      if ret == Good {
        phase := Finished;
      } else {
        ret := Spin;
      }
    }

    method Parse(buffer: Buffer, request: HttpRequest) returns (result: Result)
      modifies this, buffer, request
      ensures Run(result, View(request), buffer.data) == Parsed(old(View(request)), old(buffer.data))
    {
      if phase == Finished {
        phase := HeaderLine;
        length := NO_LENGTH;
      }
      while phase != Body
        invariant phase != Finished
        invariant Parsed(old(View(request)), old(buffer.data)) == Loop(View(request), buffer.data)
        decreases PhasesLeft(phase), |buffer.data|
      {
        var i := FindCrLf(buffer.data);
        if i == |buffer.data| {
          return Short;
        }
        var ret, again;
        if phase == HeaderLine {
          ret, again := HeaderLineStep(buffer.data[..i], buffer, request);
        } else {
          ret, again := HeaderFieldStep(buffer.data[..i], buffer, request);
        }
        if !again {
          return ret;
        }
      }
      result := BodyStep(buffer, request);
    }
  }
}
