/** What a rejected request is told. */
module LineErrors {
  // Which error each request line and header line gets from HttpParser, by the words in it.

  import opened Text
  import opened HttpMessage
  import opened HttpParser
  import opened StoredUrl
  import opened VersionNumbers
  import SpelledUrl
  import ComplexUrl

  /** The status the error page is sent with. */
  function StatusOf(e: ErrorKind): nat
    requires e != NoError
  {
    if e == MethodUnsupported then 405 else 400
  }

  predicate IsMethodName(s: string)
  {
    s == "GET" || s == "POST" || s == "PUT" || s == "HEAD"
  }

  /** Only the four names are supported, and each stands for its method. */
  lemma MethodNames(s: string)
    ensures MethodOf(s) != NotSupport <==> IsMethodName(s)
    ensures MethodOf("GET") == Get && MethodOf("POST") == Post && MethodOf("PUT") == Put && MethodOf("HEAD") == Head
  {
  }

  predicate Fails(o: LineOutcome, e: ErrorKind)
  {
    o.code == Error && o.error == e
  }

  /** And this is what the request holds then. */
  predicate FailsWith(o: LineOutcome, e: ErrorKind, req: Request)
  {
    Fails(o, e) && o.req == req
  }

  /** The first word. */
  lemma VerbErrors(verb: string, rest: string, error: ErrorKind)
    requires ' ' !in verb
    ensures FailsWith(ParseLine(verb, FRESH, error), MethodMissing, FRESH)
    ensures !IsMethodName(verb) ==> FailsWith(ParseLine(verb + " " + rest, FRESH, error), MethodUnsupported, FRESH.(verb := NotSupport))
    ensures IsMethodName(verb) ==>
              var m := MethodOf(verb);
              ParseLine(verb + " " + rest, FRESH, error) == ParseUrl(rest, FRESH.(verb := m, isStatic := m != Post), error)
  {
    hide ParseUrl, MethodOf;
    MethodNames(verb);
    FindNone(verb, ' ');
    var line := verb + " " + rest;
    assert line == verb + [' '] + rest;
    FindIn(verb, ' ', rest);
    assert line[..|verb|] == verb && line[|verb| + 1..] == rest;
  }

  /** The second. */
  lemma UrlErrors(url: string, rest: string, req: Request, error: ErrorKind)
    requires ' ' !in url
    ensures FailsWith(ParseUrl(url, req, error), UrlMissing, req)
    ensures url == "" ==> FailsWith(ParseUrl(url + " " + rest, req, error), UrlEmpty, req)
    ensures url != "" && url[0] != '/' ==> FailsWith(ParseUrl(url + " " + rest, req, error), UrlNotPath, req.(url := url))
    ensures url != "" && url[0] == '/' ==>
              ParseUrl(url + " " + rest, req, error) == ParseVersion(rest, Classify(req.(url := url), url[1..]), error)
  {
    hide ParseVersion, Classify;
    FindNone(url, ' ');
    var s := url + " " + rest;
    assert s == url + [' '] + rest;
    FindIn(url, ' ', rest);
    assert s[..|url|] == url && s[|url| + 1..] == rest;
    assert url != "" ==> s[1..|url|] == url[1..] && s[0] == url[0];
  }

  /** The third: the protocol name, the dot, and the numbers. */
  lemma VersionErrors(v: string, req: Request, error: ErrorKind)
    ensures !("HTTP/" <= v) ==> FailsWith(ParseVersion(v, req, error), HttpMissing, req)
    ensures "HTTP/" <= v && '.' !in v[5..] ==> FailsWith(ParseVersion(v, req, error), DotMissing, req)
    ensures HasNumbers(v) ==>
              var fits := Computable(Major(v)) && Computable(Minor(v)) && InInt(Weighted(Major(v)) * 100)
                          && InInt(Weighted(Major(v)) * 100 + Weighted(Minor(v)));
              && (!fits ==> ParseVersion(v, req, error) == LineOutcome(Fault, error, req))
              && (fits && !GoodVersion(v) ==> FailsWith(ParseVersion(v, req, error), VersionUnsupported, req.(version := NoVersion)))
              && (GoodVersion(v) ==> ParseVersion(v, req, error) == ResolveUrl(req.(version := NumberedVersion(v)), error))
  {
    hide ResolveUrl, ReadInt, Computable, Weighted, Find;
    if "HTTP/" <= v {
      var w := v[5..];
      assert v[..5] == "HTTP/";
      DotFound(w);
      if HasNumbers(v) {
        ReadsWeighted(Major(v));
        ReadsWeighted(Minor(v));
      }
    }
  }

  lemma DotFound(w: string)
    ensures '.' in w <==> Find(w, '.') < |w|
  {
    hide Find;
  }

  /** Why a request line is refused, word by word. Behind a good version nothing is refused. */
  lemma RejectedLine(verb: string, url: string, v: string, error: ErrorKind)
    requires ' ' !in verb && ' ' !in url
    ensures Fails(ParseLine(verb, FRESH, error), MethodMissing)
    ensures !IsMethodName(verb) ==> Fails(ParseLine(verb + " " + url, FRESH, error), MethodUnsupported)
    ensures IsMethodName(verb) ==>
              var two, three := verb + " " + url, verb + " " + (url + " " + v);
              && Fails(ParseLine(two, FRESH, error), UrlMissing)
              && (url == "" ==> Fails(ParseLine(three, FRESH, error), UrlEmpty))
              && (url != "" && url[0] != '/' ==> Fails(ParseLine(three, FRESH, error), UrlNotPath))
              && (url != "" && url[0] == '/' ==>
                    var o := ParseLine(three, FRESH, error);
                    && (!("HTTP/" <= v) ==> Fails(o, HttpMissing))
                    && ("HTTP/" <= v && '.' !in v[5..] ==> Fails(o, DotMissing))
                    && (HasNumbers(v) && !GoodVersion(v) ==> o.code == Fault || Fails(o, VersionUnsupported))
                    && (GoodVersion(v) ==> o.code in {Good, Fault}))
  {
    hide ParseLine, ParseUrl, ParseVersion, Classify, GoodVersion, HasNumbers, Computable, Weighted, Fails, Major, Minor;
    VerbErrors(verb, url, error);
    VerbErrors(verb, url + " " + v, error);
    if IsMethodName(verb) {
      var m := MethodOf(verb);
      var req := FRESH.(verb := m, isStatic := m != Post);
      UrlErrors(url, v, req, error);
      if url != "" && url[0] == '/' {
        VersionErrors(v, Classify(req.(url := url), url[1..]), error);
        HasParts(v);
        if GoodVersion(v) {
          ResolveCode(Classify(req.(url := url), url[1..]).(version := NumberedVersion(v)), error);
        }
      }
    }
  }

  lemma HasParts(v: string)
    ensures GoodVersion(v) ==> HasNumbers(v)
  {
  }

  /** 405 is for a first word that is none of the four names, and for nothing else. */
  lemma NotAllowedExactly(line: string, error: ErrorKind)
    ensures var p := Find(line, ' ');
            && (p < |line| && !IsMethodName(line[..p]) <==> Fails(ParseLine(line, FRESH, error), MethodUnsupported))
    ensures ParseLine(line, FRESH, error).code == Error ==>
              var o := ParseLine(line, FRESH, error);
              o.error != NoError && StatusOf(o.error) == if o.error == MethodUnsupported then 405 else 400
  {
    hide ParseUrl, MethodOf, Find;
    var p := Find(line, ' ');
    if p < |line| {
      MethodNames(line[..p]);
      LaterErrors(line[p + 1..], FRESH.(verb := MethodOf(line[..p]), isStatic := MethodOf(line[..p]) != Post), error);
    }
  }

  lemma LaterErrors(rest: string, req: Request, error: ErrorKind)
    ensures ParseUrl(rest, req, error).code == Error ==> ParseUrl(rest, req, error).error !in {NoError, MethodMissing, MethodUnsupported}
  {
    hide Classify, ResolveUrl, VersionCode, Find;
  }

  /** A bad escape is refused in words only: the request goes on, and the error says which of the two
      digits of the first bad escape it was. */
  lemma EscapeComplaint(verb: Method, url: string, version: Version, error: ErrorKind)
    requires url != "" && url[0] == '/' && LookedAt(verb, url, version).isComplex && !SpelledUrl.EscapesAccepted(url)
    ensures var o := ResolveUrl(LookedAt(verb, url, version), error);
            var cut := SpelledUrl.ReadPath(url[1..]).cut;
            o.code == Good && |cut| > 1 && o.error == EscapeInvalid(ComplexUrl.EscapeDigit(cut[1]).None?)
  {
    hide ComplexUrl.Feed, SpelledUrl.EscapesAccepted, SpelledUrl.Output, SpelledUrl.ReadPath, Classify;
    SpelledUrl.UrlOutput(url);
    ClassifyKeepsUrl(verb, url, version);
  }

  /** A header line: complete at the blank line, refused exactly without a colon. */
  lemma RejectedField(line: string, req: Request, error: ErrorKind)
    ensures ParseField(line, req, error).code == Good <==> line == ""
    ensures ParseField(line, req, error).code == Error <==> line != "" && ':' !in line
    ensures line != "" && ':' !in line ==> Fails(ParseField(line, req, error), ColonMissing)
  {
    hide Find;
    ColonFound(line);
  }

  lemma ColonFound(line: string)
    ensures ':' in line <==> Find(line, ':') < |line|
  {
    hide Find;
  }

  /** One call on a rejected first line, with anything behind it, reports that error and takes nothing. */
  lemma CallRejects(st: State, line: string, rest: string, e: ErrorKind)
    requires st.phase == HeaderLine && st.req == FRESH && OneLine(line) && Fails(ParseLine(line, FRESH, st.error), e)
    ensures var r := Parsed(st, line + CRLF + rest); r.result == Error && r.st.error == e && r.rest == line + CRLF + rest
  {
    hide ParseLine;
    FindCrLfLine(line, rest);
    assert (line + CRLF + rest)[..|line|] == line;
  }
}
