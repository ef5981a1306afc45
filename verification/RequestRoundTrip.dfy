/** Printing requests and reading them back, one at a time and pipelined. */
module RequestRoundTrip {
  import opened Text
  import opened HttpMessage
  import opened HttpParser
  import opened HttpParserRuns
  import opened PathAndQuery
  import opened StoredUrl
  import SpelledUrl
  import ComplexUrl

  datatype Message = Message(verb: Method, url: string, version: Version, fields: seq<Field>, body: string)

  // ------------------------------------------------------------- printing

  function FirstLine(m: Message): string
    requires m.verb != NotSupport && m.version != NoVersion
  {
    MethodName(m.verb) + " " + m.url + " " + VersionText(m.version)
  }

  function HeadText(m: Message): string
    requires m.verb != NotSupport && m.version != NoVersion
  {
    FirstLine(m) + CRLF + FieldLines(m.fields) + CRLF
  }

  function Print(m: Message): string
    requires m.verb != NotSupport && m.version != NoVersion
  {
    HeadText(m) + m.body
  }

  // --------------------------------------------------- what is well formed

  ghost predicate ValidField(f: Field)
  {
    ':' !in f.0 && OneLine(FieldLine(f))
  }

  /** The request after its line, before the URL is resolved. */
  function Classified(m: Message): Request
    requires m.url != ""
  {
    LookedAt(m.verb, m.url, m.version)
  }

  /** The announced length: the first Content-Length field, or none. */
  function Announced(m: Message): nat
  {
    var h := EmplaceAll(map[], m.fields);
    if "Content-Length" in h then StrToULL(h["Content-Length"]) else NO_LENGTH
  }

  ghost predicate WellFormed(m: Message)
  {
    && m.verb != NotSupport && m.version != NoVersion
    && m.url != "" && m.url[0] == '/' && ' ' !in m.url && OneLine(FirstLine(m))
    && (forall k :: 0 <= k < |m.fields| ==> ValidField(m.fields[k]))
    && (if Announced(m) == NO_LENGTH then m.body == "" else Announced(m) == |m.body|)
    && (m.verb == Post && Classified(m).isComplex && SpelledUrl.EscapesAccepted(m.url) ==> '?' in SpelledUrl.Output(m.url))
  }

  /** Such a message trips no assertion. */
  lemma WellFormedResolves(m: Message, error: ErrorKind)
    requires WellFormed(m)
    ensures ResolveUrl(Classified(m), error).code == Good
  {
    hide SpelledUrl.EscapesAccepted, SpelledUrl.Output, ResolveUrl, Classify;
    Verdict(m.verb, m.url, m.version, error);
    ResolveCode(Classified(m), error);
  }

  /** The request a server should see. */
  function Expected(m: Message): Request
    requires m.url != ""
  {
    var r := ResolveUrl(Classified(m), NoError).req.(headers := EmplaceAll(map[], m.fields), body := m.body);
    r.(isKeepAlive := KeepAlive(r))
  }

  /** The request is the one that was sent: method, version, headers, body, the path in its normal
      form, the query untouched, and the static flag for neither a POST nor a query. */
  ghost predicate AsSent(m: Message, r: Request)
    requires m.url != "" && PathOf(m.url) != ""
  {
    && r.verb == m.verb && r.version == m.version && r.body == m.body && r.headers == EmplaceAll(map[], m.fields)
    && r.url == ComplexUrl.Normalize(PathOf(m.url)) && r.query == QueryOf(m.url)
    && (r.isStatic <==> m.verb != Post && '?' !in m.url)
  }

  /** What the expected request says: the URL as sent if it is not complex or its escapes are
      refused, otherwise what its segments render to, cut at the first '?' if it is dynamic. Without
      '%' it is the request that was sent if and only if the query is left alone and, where the URL is
      looked at, its path is safe. */
  lemma ExpectedUrl(m: Message)
    requires WellFormed(m)
    ensures var r := Expected(m);
            var whole := if Classified(m).isStatic then r.url else r.url + "?" + r.query;
            && r.verb == m.verb && r.version == m.version && r.body == m.body && r.headers == EmplaceAll(map[], m.fields)
            && (if Classified(m).isComplex && SpelledUrl.EscapesAccepted(m.url) then whole == SpelledUrl.Output(m.url)
                else r.url == m.url && r.query == "")
    ensures var p := PathOf(m.url);
            p != "" && ('%' !in m.url ==>
              (AsSent(m, Expected(m)) <==>
                 PartsComeThrough(m.verb, m.url) && ('?' in m.url || OddInside(p) ==> ComplexUrl.DotSafe(p))))
  {
    hide SpelledUrl.EscapesAccepted, SpelledUrl.Output, ComplexUrl.Normalize, ComplexUrl.DotSafe, EmplaceAll, KeepAlive, PartsComeThrough, OddInside, PathOf, QueryOf, MeaningOf, Classify, ComplexUrl.Split;
    WellFormedResolves(m, NoError);
    Stored(m.verb, m.url, m.version, NoError);
    PathAndQueryOf(m.url);
    Looks(m.verb, m.url, m.version);
    if '%' !in m.url {
      PlainRight(m.verb, m.url, m.version, NoError);
      PlainSpelled(m.url);
    }
  }

  lemma {:induction false} EmplaceFirst(h: HeaderMap, fields: seq<Field>, key: string)
    ensures key in EmplaceAll(h, fields) <==> key in h || exists k :: 0 <= k < |fields| && fields[k].0 == key
    ensures key in h ==> key in EmplaceAll(h, fields) && EmplaceAll(h, fields)[key] == h[key]
    ensures forall k :: (0 <= k < |fields| && fields[k].0 == key && key !in h && (forall j :: 0 <= j < k ==> fields[j].0 != key))
                        ==> EmplaceAll(h, fields)[key] == fields[k].1
    decreases |fields|
  {
    if fields != [] {
      EmplaceFirst(Emplace(h, fields[0].0, fields[0].1), fields[1..], key);
      assert forall k :: 0 < k < |fields| ==> fields[k] == fields[1..][k - 1];
    }
  }

  /** A Content-Length that prints the size of the body announces it. */
  lemma AnnouncedCanonical(m: Message, k: nat)
    requires |m.body| < NO_LENGTH && k < |m.fields| && m.fields[k] == ("Content-Length", Dec(|m.body|))
    requires forall j :: 0 <= j < k ==> m.fields[j].0 != "Content-Length"
    ensures Announced(m) == |m.body|
  {
    EmplaceFirst(map[], m.fields, "Content-Length");
    StrToULLOfDec(|m.body|);
  }

  // ---------------------------------------------------------- reading back

  lemma VersionReads(v: Version, req: Request, error: ErrorKind)
    requires v != NoVersion
    ensures ParseVersion(VersionText(v), req, error) == ResolveUrl(req.(version := v), error)
  {
    hide ResolveUrl;
    var t := VersionText(v);
    var minor := if v == Http11 then "1" else "0";
    assert t == "HTTP/" + ("1" + "." + minor);
    var w := t[5..];
    assert w == "1" + ['.'] + minor;
    FindIn("1", '.', minor);
    assert w[..1] == "1" && w[2..] == minor;
    assert ReadInt("1", 0) == Some(1) && ReadInt(minor, 0) == Some(if v == Http11 then 1 else 0);
  }

  lemma LineReads(m: Message, error: ErrorKind)
    requires m.verb != NotSupport && m.version != NoVersion
    requires m.url != "" && m.url[0] == '/' && ' ' !in m.url
    ensures ParseLine(FirstLine(m), FRESH, error) == ResolveUrl(Classified(m), error)
  {
    hide ParseVersion, Classify, ResolveUrl;
    var name, v := MethodName(m.verb), VersionText(m.version);
    var rest := m.url + [' '] + v;
    assert FirstLine(m) == name + [' '] + rest;
    FindIn(name, ' ', rest);
    assert FirstLine(m)[..|name|] == name && FirstLine(m)[|name| + 1..] == rest;
    FindIn(m.url, ' ', v);
    assert rest[..|m.url|] == m.url && rest[1..|m.url|] == m.url[1..] && rest[|m.url| + 1..] == v;
    var req := FRESH.(verb := m.verb, isStatic := m.verb != Post, url := m.url);
    VersionReads(m.version, Classify(req, m.url[1..]), error);
  }

  lemma FieldReads(f: Field, req: Request, error: ErrorKind)
    requires ':' !in f.0
    ensures ParseField(FieldLine(f), req, error) == LineOutcome(Short, error, req.(headers := Emplace(req.headers, f.0, f.1)))
  {
    hide Emplace;
    var line := FieldLine(f);
    assert line == f.0 + [':'] + (" " + f.1);
    FindIn(f.0, ':', " " + f.1);
    assert line[..|f.0|] == f.0 && line[|f.0| + 2..] == f.1;
  }

  // ---------------------------------------------------- the value of a field

  /** The blanks around a field's value (section 3.2.4 of RFC 7230). */
  predicate IsOuter(c: char)
  {
    c == ' ' || c == '\t'
  }

  function TrimFront(s: string): string
  {
    if s != "" && IsOuter(s[0]) then TrimFront(s[1..]) else s
  }

  function TrimBack(s: string): (t: string)
    ensures |t| <= |s| && t == s[..|t|]
    ensures t != "" ==> !IsOuter(t[|t| - 1])
    ensures |t| < |s| ==> IsOuter(s[|t|])
  {
    if s != "" && IsOuter(s[|s| - 1]) then TrimBack(s[..|s| - 1]) else s
  }

  function Trim(s: string): string
  {
    TrimBack(TrimFront(s))
  }

  lemma {:induction false} FrontLength(s: string)
    ensures |TrimFront(s)| <= |s|
    ensures TrimFront(s) == s <==> s == "" || !IsOuter(s[0])
    ensures s != "" && IsOuter(s[0]) ==> |TrimFront(s)| < |s|
    decreases |s|
  {
    if s != "" && IsOuter(s[0]) {
      FrontLength(s[1..]);
    }
  }

  lemma TrimsTo(b: string)
    requires b != ""
    ensures Trim(b) == b[1..] <==> IsOuter(b[0]) && (b[1..] == "" || (!IsOuter(b[1]) && !IsOuter(b[|b| - 1])))
  {
    FrontLength(b);
    FrontLength(b[1..]);
    if IsOuter(b[0]) {
      assert TrimFront(b) == TrimFront(b[1..]);
      var rest := b[1..];
      assert rest != "" ==> rest[0] == b[1] && rest[|rest| - 1] == b[|b| - 1];
    } else {
      var t := TrimBack(b);
      assert |t| == |b| - 1 ==> IsOuter(b[|t|]) && (t != "" ==> !IsOuter(t[|t| - 1]) && b[1..][|t| - 1] == b[|t|]);
    }
  }

  /** A field is stored with whatever is behind the character after its colon. That is the value
      without the blanks around it if and only if there is one blank in front of the value and none
      behind it. */
  lemma StoredValue(line: string, req: Request, error: ErrorKind)
    requires ':' in line
    ensures var c := Find(line, ':');
            c < |line| && (ParseField(line, req, error).code == Short <==> line[c + 1..] != "")
    ensures var c := Find(line, ':');
            var behind := line[c + 1..];
            behind != "" && line[..c] !in req.headers ==>
              var h := ParseField(line, req, error).req.headers;
              && line[..c] in h
              && (h[line[..c]] == Trim(behind)
                  <==> IsOuter(behind[0]) && (|behind| == 1 || (!IsOuter(behind[1]) && !IsOuter(behind[|behind| - 1]))))
  {
    hide Trim;
    var c := Find(line, ':');
    if line[c + 1..] != "" {
      TrimsTo(line[c + 1..]);
      assert line[c + 1..][1..] == line[c + 2..];
    }
  }

  /** "a:b" stores nothing for "a". */
  lemma NoBlankLosesValue(req: Request, error: ErrorKind)
    requires "a" !in req.headers
    ensures ParseField("a:b", req, error).req.headers == req.headers["a" := ""]
  {
    var line := "a:b";
    assert line == "a" + [':'] + "b";
    FindIn("a", ':', "b");
    assert line[..1] == "a" && line[3..] == "";
  }

  /** One line of the header block. */
  lemma LoopLine(st: State, line: string, tail: string)
    requires st.phase in {HeaderLine, HeaderFields} && OneLine(line)
    ensures var o := if st.phase == HeaderLine then ParseLine(line, st.req, st.error) else ParseField(line, st.req, st.error);
            var st' := st.(error := o.error, req := o.req);
            Loop(st, line + CRLF + tail) ==
            if o.code == Good then Loop(st'.(phase := if st.phase == HeaderLine then HeaderFields else Body), tail)
            else if o.code == Short then Loop(st', tail)
            else Run(o.code, st', line + CRLF + tail)
  {
    hide ParseLine, ParseField, WithMetadata;
    var buf := line + CRLF + tail;
    FindCrLfLine(line, tail);
    assert buf[..|line|] == line && buf[|line| + 2..] == tail;
  }

  lemma {:induction false} LoopFields(st: State, fields: seq<Field>, tail: string)
    requires st.phase == HeaderFields && forall k :: 0 <= k < |fields| ==> ValidField(fields[k])
    ensures Loop(st, FieldLines(fields) + CRLF + tail) ==
            Loop(st.(phase := Body, req := st.req.(headers := EmplaceAll(st.req.headers, fields))), tail)
    decreases |fields|
  {
    hide Loop, ParseField, Emplace;
    if fields == [] {
      assert FieldLines(fields) + CRLF + tail == "" + CRLF + tail;
      LoopLine(st, "", tail);
      assert ParseField("", st.req, st.error) == LineOutcome(Good, st.error, st.req) by {
        BlankLineReads(st.req, st.error);
      }
    } else {
      var rest := FieldLines(fields[1..]) + CRLF + tail;
      assert FieldLines(fields) + CRLF + tail == FieldLine(fields[0]) + CRLF + rest;
      assert ValidField(fields[0]);
      LoopLine(st, FieldLine(fields[0]), rest);
      FieldReads(fields[0], st.req, st.error);
      LoopFields(st.(req := st.req.(headers := Emplace(st.req.headers, fields[0].0, fields[0].1))), fields[1..], tail);
    }
  }

  lemma BlankLineReads(req: Request, error: ErrorKind)
    ensures ParseField("", req, error) == LineOutcome(Good, error, req)
  {
  }

  ghost predicate AtStart(st: State)
  {
    && st.req == FRESH
    && (st.phase == Finished || (st.phase == HeaderLine && st.length == NO_LENGTH))
  }

  /** The state in which the body is awaited. */
  function BodyState(st: State, m: Message): State
    requires m.url != ""
  {
    var o := ResolveUrl(Classified(m), st.error);
    State(Body, NO_LENGTH, o.error, o.req.(headers := EmplaceAll(map[], m.fields)))
  }

  /** Resolving touches the URL fields only, and the pending error only passes through. */
  lemma ResolveKeeps(req: Request, e: ErrorKind, f: ErrorKind)
    ensures ResolveUrl(req, e).code == ResolveUrl(req, f).code && ResolveUrl(req, e).req == ResolveUrl(req, f).req
    ensures var r := ResolveUrl(req, e).req; r == req.(url := r.url, query := r.query)
  {
    if req.isComplex {
      match ComplexUrl.Feed(ComplexUrl.START, req.url)
      case BadEscape(_, _) =>
      case Running(_) =>
    }
  }

  lemma HeadReads(st: State, m: Message, tail: string)
    requires AtStart(st) && WellFormed(m)
    ensures Parsed(st, HeadText(m) + tail) == Loop(BodyState(st, m), tail)
  {
    hide Loop, ParseLine, ResolveUrl, Classify, ParseField;
    var b := Begin(st);
    var rest := FieldLines(m.fields) + CRLF + tail;
    assert HeadText(m) + tail == FirstLine(m) + CRLF + rest;
    LoopLine(b, FirstLine(m), rest);
    LineReads(m, st.error);
    WellFormedResolves(m, NoError);
    ResolveKeeps(Classified(m), st.error, NoError);
    var o := ResolveUrl(Classified(m), st.error);
    LoopFields(State(HeaderFields, NO_LENGTH, o.error, o.req), m.fields, tail);
    ClassifiedHeaders(m);
  }

  lemma ClassifiedHeaders(m: Message)
    requires m.url != ""
    ensures Classified(m).headers == map[] && Classified(m).body == ""
  {
  }

  lemma BodyReads(b: State, n: nat, body: string, tail: string)
    requires b.phase == Body && LengthOf(b.req, b.length) == n
    requires if n == NO_LENGTH then body == "" == b.req.body else n == |body|
    ensures Loop(b, body + tail) ==
            Run(Good, State(Finished, n, b.error, b.req.(isKeepAlive := KeepAlive(b.req), body := body)), tail)
  {
    hide KeepAlive, LengthOf;
    var text := body + tail;
    assert text[..|body|] == body && text[|body|..] == tail;
  }

  /** A well-formed message followed by anything, read by a parser between messages into a fresh
      request, is returned whole and the bytes behind it are left alone. */
  lemma RoundTrip(st: State, m: Message, tail: string)
    requires AtStart(st) && WellFormed(m)
    ensures var r := Parsed(st, Print(m) + tail);
            r.result == Good && r.st.req == Expected(m) && r.rest == tail && r.st.phase == Finished
  {
    hide ResolveUrl, Classified, EmplaceAll, KeepAlive, Loop;
    HeadReads(st, m, m.body + tail);
    assert Print(m) + tail == HeadText(m) + (m.body + tail);
    ResolveKeeps(Classified(m), st.error, NoError);
    ClassifiedHeaders(m);
    var b := BodyState(st, m);
    BodyReads(b, Announced(m), m.body, tail);
    KeepAliveReads(b.req, b.req.(body := m.body));
  }

  lemma KeepAliveReads(a: Request, b: Request)
    requires a.version == b.version && a.headers == b.headers
    ensures KeepAlive(a) == KeepAlive(b)
  {
  }

  /** A head with only part of the announced body behind it is where the code spins. */
  lemma PartialBodySpins(st: State, m: Message, n: nat)
    requires AtStart(st) && WellFormed(m) && n < |m.body|
    ensures Parsed(st, HeadText(m) + m.body[..n]).result == Spin
  {
    hide ResolveUrl, Classify, EmplaceAll, KeepAlive;
    HeadReads(st, m, m.body[..n]);
    ResolveKeeps(Classified(m), st.error, NoError);
    var b := BodyState(st, m);
    assert LengthOf(b.req, b.length) == Announced(m);
  }

  /** A body that is read to the very end of the bytes has them all for its length. */
  lemma BodyTakesAll(b: State, buf: string)
    requires b.phase == Body && WithMetadata(b).length != NO_LENGTH
    ensures Loop(b, buf).result == Good && Loop(b, buf).rest == "" ==> Loop(b, buf).st.req.body == buf
  {
    hide WithMetadata;
    var n := WithMetadata(b).length;
    if n <= |buf| && buf[n..] == "" {
      assert buf[..n] == buf;
    }
  }

  /** A well-formed message that has arrived in part: without all of its head the call asks for more,
      with the head and not all of the body it spins. */
  lemma PartialMessage(st: State, m: Message, n: nat)
    requires AtStart(st) && WellFormed(m) && n < |Print(m)|
    ensures Parsed(st, Print(m)[..n]).result == if n < |HeadText(m)| then Short else Spin
  {
    hide WithMetadata, Expected, HeadText, Loop;
    if n < |HeadText(m)| {
      var a, b := Print(m)[..n], Print(m)[n..];
      var r := Parsed(st, a);
      assert Print(m) + "" == a + b;
      RoundTrip(st, m, "");
      ExpectedBody(m);
      LoopExtends(Begin(st), a, b);
      WhyMore(Begin(st), a);
      if r.result == Error {
        ErrorIsForever(st, a, b);
      } else if r.result == Spin {
        BodyTakesAll(r.st, r.rest + b);
      }
    } else {
      assert Print(m)[..n] == HeadText(m) + m.body[..n - |HeadText(m)|];
      PartialBodySpins(st, m, n - |HeadText(m)|);
    }
  }

  lemma ExpectedBody(m: Message)
    requires m.url != ""
    ensures Expected(m).body == m.body
  {
    hide ResolveUrl, KeepAlive, EmplaceAll;
  }

  lemma {:induction false} FlattenPrefix(pieces: seq<string>, k: nat)
    requires k <= |pieces|
    ensures Flatten(pieces) == Flatten(pieces[..k]) + Flatten(pieces[k..])
    decreases k
  {
    if k == 0 {
      assert pieces[..0] == [] && pieces[0..] == pieces && "" + Flatten(pieces) == Flatten(pieces);
    } else {
      FlattenPrefix(pieces[1..], k - 1);
      assert pieces[..k][1..] == pieces[1..][..k - 1] && pieces[1..][k - 1..] == pieces[k..];
      assert pieces[0] + (Flatten(pieces[1..][..k - 1]) + Flatten(pieces[k..])) == pieces[0] + Flatten(pieces[1..][..k - 1]) + Flatten(pieces[k..]);
    }
  }

  /** Delivery of a message in pieces, as coded: no call spins if and only if no piece ends at or
      behind the end of the head and before the end of the message. */
  lemma MessageInPieces(st: State, m: Message, tail: string, pieces: seq<string>)
    requires AtStart(st) && WellFormed(m) && pieces != [] && Flatten(pieces) == Print(m) + tail
    ensures SomeCallSpins(Parsed(st, pieces[0]), pieces[1..])
       <==> exists k :: 1 <= k <= |pieces| && |HeadText(m)| <= |Flatten(pieces[..k])| < |Print(m)|
  {
    hide Parsed, HeadText, Print, AtStart, SomeCallSpins;
    CallsSpin(st, pieces);
    forall k | 1 <= k <= |pieces|
      ensures Parsed(st, Flatten(pieces[..k])).result == Spin <==> |HeadText(m)| <= |Flatten(pieces[..k])| < |Print(m)|
    {
      var s := Flatten(pieces[..k]);
      FlattenPrefix(pieces, k);
      assert s == (Print(m) + tail)[..|s|];
      if |s| < |Print(m)| {
        assert s == Print(m)[..|s|];
        PartialMessage(st, m, |s|);
      } else {
        assert s == Print(m) + tail[..|s| - |Print(m)|];
        RoundTrip(st, m, tail[..|s| - |Print(m)|]);
      }
    }
  }

  // ------------------------------------------------------------ pipelining

  ghost predicate AllWellFormed(ms: seq<Message>)
  {
    forall k {:trigger ms[k]} :: 0 <= k < |ms| ==> WellFormed(ms[k])
  }

  function PrintAll(ms: seq<Message>): string
    requires AllWellFormed(ms)
    decreases |ms|
  {
    if ms == [] then "" else Print(ms[0]) + PrintAll(ms[1..])
  }

  function ExpectedAll(ms: seq<Message>): seq<Request>
    requires AllWellFormed(ms)
    decreases |ms|
  {
    if ms == [] then [] else [Expected(ms[0])] + ExpectedAll(ms[1..])
  }

  /** Parse `n` messages in a row with the same parser, a fresh request each. */
  function ParseMany(n: nat, st: State, buf: string): Option<(seq<Request>, string)>
    decreases n
  {
    if n == 0 then Some(([], buf)) else
    var r := Parsed(st.(req := FRESH), buf);
    if r.result != Good then None else
    match ParseMany(n - 1, r.st, r.rest)
    case None => None
    case Some(more) => Some(([r.st.req] + more.0, more.1))
  }

  /** Any concatenation of well-formed messages is read back message by message. */
  lemma {:induction false} Pipelining(st: State, ms: seq<Message>, tail: string)
    requires AtStart(st.(req := FRESH)) && AllWellFormed(ms)
    ensures ParseMany(|ms|, st, PrintAll(ms) + tail) == Some((ExpectedAll(ms), tail))
    decreases |ms|
  {
    hide Parsed, Expected, Print;
    if ms == [] {
      assert PrintAll(ms) + tail == tail;
    } else {
      var behind := PrintAll(ms[1..]) + tail;
      assert PrintAll(ms) + tail == Print(ms[0]) + behind;
      RoundTrip(st.(req := FRESH), ms[0], behind);
      Pipelining(Parsed(st.(req := FRESH), PrintAll(ms) + tail).st, ms[1..], tail);
    }
  }
}
