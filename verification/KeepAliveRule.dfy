/** Which requests keep the connection. */
module KeepAliveRule {
  // Said of the fields of a printed message and the characters in them.

  import opened Text
  import opened HttpMessage
  import opened HttpParser
  import opened RequestRoundTrip
  import opened StoredUrl
  import SpelledUrl

  predicate SameLetter(a: char, b: char)
  {
    || a == b
    || ('A' <= a <= 'Z' && b as int == a as int + 32)
    || ('A' <= b <= 'Z' && a as int == b as int + 32)
  }

  /** `value` is the beginning of `word`, in any case. */
  predicate Begins(value: string, word: string)
  {
    |value| <= |word| && forall i :: 0 <= i < |value| ==> SameLetter(value[i], word[i])
  }

  /** What a comparison bounded by the value's length takes for the word: any beginning of it, and the
      whole word with a NUL and anything behind. */
  predicate Means(value: string, word: string)
  {
    Begins(value, word) || (|value| > |word| && value[|word|] == '\0' && Begins(value[..|word|], word))
  }

  lemma LowerSame(a: char, b: char)
    ensures ToLower(a) == ToLower(b) <==> SameLetter(a, b)
  {
  }

  lemma BeginsStep(value: string, word: string)
    requires value != "" && word != ""
    ensures Begins(value, word) <==> SameLetter(value[0], word[0]) && Begins(value[1..], word[1..])
  {
    hide SameLetter;
    var v, w := value[1..], word[1..];
    if SameLetter(value[0], word[0]) && Begins(v, w) {
      forall i | 0 <= i < |value|
        ensures SameLetter(value[i], word[i])
      {
        assert i > 0 ==> v[i - 1] == value[i] && w[i - 1] == word[i];
      }
    }
    if Begins(value, word) {
      assert forall i :: 0 <= i < |v| ==> v[i] == value[i + 1] && w[i] == word[i + 1];
    }
  }

  lemma {:induction false} MatchesExactly(value: string, word: string)
    requires '\0' !in word
    ensures MatchesNoCase(value, word) <==> Means(value, word)
    decreases |word|
  {
    hide ToLower, SameLetter, Begins;
    if value == "" || word == "" {
      NothingBegins(value, word);
    } else {
      LowerSame(value[0], word[0]);
      BeginsStep(value, word);
      assert word == [word[0]] + word[1..];
      MatchesExactly(value[1..], word[1..]);
      if |value| > |word| {
        BeginsStep(value[..|word|], word);
        assert value[..|word|][1..] == value[1..][..|word| - 1];
      }
    }
  }

  lemma NothingBegins(value: string, word: string)
    ensures value == "" ==> Begins(value, word)
    ensures word == "" ==> (Begins(value, word) <==> value == "") && Begins(value[..0], word)
  {
  }

  /** The k-th field is the first that is called "Connection". */
  predicate FirstConnection(fields: seq<Field>, k: int)
  {
    0 <= k < |fields| && fields[k].0 == "Connection" && forall j :: 0 <= j < k ==> fields[j].0 != "Connection"
  }

  lemma SomeFirst(fields: seq<Field>) returns (k: nat)
    ensures k <= |fields| && (forall j :: 0 <= j < k ==> fields[j].0 != "Connection")
    ensures k < |fields| ==> FirstConnection(fields, k)
  {
    k := 0;
    while k < |fields| && fields[k].0 != "Connection"
      invariant k <= |fields| && forall j :: 0 <= j < k ==> fields[j].0 != "Connection"
    {
      k := k + 1;
    }
  }

  /** Some first Connection field stands for the word. */
  predicate Says(fields: seq<Field>, word: string)
  {
    exists k :: 0 <= k < |fields| && FirstConnection(fields, k) && Means(fields[k].1, word)
  }

  lemma SaysInMap(fields: seq<Field>, word: string)
    requires '\0' !in word
    ensures var h := EmplaceAll(map[], fields);
            Says(fields, word) <==> "Connection" in h && MatchesNoCase(h["Connection"], word)
  {
    hide MatchesNoCase, Means, EmplaceAll;
    var h := EmplaceAll(map[], fields);
    EmplaceFirst(map[], fields, "Connection");
    var k := SomeFirst(fields);
    if k < |fields| {
      MatchesExactly(fields[k].1, word);
      assert forall j :: FirstConnection(fields, j) ==> j == k;
    }
  }

  /** A well-formed HTTP/1.1 message keeps the connection unless its first Connection field says
      "close"; an HTTP/1.0 message keeps it only if that field says "keep-alive". */
  lemma KeptAlive(st: State, m: Message, tail: string)
    requires AtStart(st) && WellFormed(m)
    ensures var r := Parsed(st, Print(m) + tail);
            && r.result == Good
            && (m.version == Http11 ==> (r.st.req.isKeepAlive <==> !Says(m.fields, "close")))
            && (m.version == Http10 ==> (r.st.req.isKeepAlive <==> Says(m.fields, "keep-alive")))
  {
    hide Parsed, Says, EmplaceAll, ResolveUrl, Classified, Print, MatchesNoCase;
    RoundTrip(st, m, tail);
    SaysInMap(m.fields, "close");
    SaysInMap(m.fields, "keep-alive");
    ResolveKeeps(Classified(m), NoError, NoError);
    VersionStays(m);
  }

  lemma VersionStays(m: Message)
    requires m.url != ""
    ensures Classified(m).version == m.version
  {
  }

  /** Behind its request line a request has a supported method and version, and one that is complete
      keeps the connection only as its version says. */
  ghost predicate Supported(st: State)
  {
    && (st.phase != HeaderLine ==> st.req.verb != NotSupport && st.req.version != NoVersion)
    && (st.phase == Finished && st.req.isKeepAlive ==>
          if st.req.version == Http11 then "Connection" !in st.req.headers || !Means(st.req.headers["Connection"], "close")
          else "Connection" in st.req.headers && Means(st.req.headers["Connection"], "keep-alive"))
  }

  lemma VersionSupported(v: string, req: Request, error: ErrorKind)
    ensures var o := ParseVersion(v, req, error); o.code == Good ==> o.req.verb == req.verb && o.req.version != NoVersion
  {
    hide Find, VersionCode, VersionOf, ResolveUrl;
  }

  lemma UrlSupported(rest: string, req: Request, error: ErrorKind)
    ensures var o := ParseUrl(rest, req, error); o.code == Good ==> o.req.verb == req.verb && o.req.version != NoVersion
  {
    hide Find, Classify, ParseVersion;
    var q := Find(rest, ' ');
    if 0 < q < |rest| {
      VersionSupported(rest[q + 1..], Classify(req.(url := rest[..q]), rest[1..q]), error);
    }
  }

  lemma LineSupported(line: string, req: Request, error: ErrorKind)
    ensures var o := ParseLine(line, req, error); o.code == Good ==> o.req.verb != NotSupport && o.req.version != NoVersion
  {
    hide Find, MethodOf, ParseUrl;
    var p := Find(line, ' ');
    if p < |line| {
      var verb := MethodOf(line[..p]);
      UrlSupported(line[p + 1..], req.(verb := verb, isStatic := req.isStatic && verb != Post), error);
    }
  }

  lemma IterateSupported(st: State, buf: string)
    requires st.phase != Finished && Supported(st)
    ensures match Iterate(st, buf) case Leaves(r) => Supported(r.st) case Continues(t, _) => Supported(t)
  {
    hide FindCrLf, ParseLine, ParseField, Means, LengthOf;
    if st.phase == HeaderLine {
      LineSupported(buf[..FindCrLf(buf)], st.req, st.error);
    } else if st.phase == HeaderFields {
      FieldKeeps(buf[..FindCrLf(buf)], st.req, st.error);
    } else {
      KeepSupported(st.req);
    }
  }

  lemma FieldKeeps(line: string, req: Request, error: ErrorKind)
    ensures var o := ParseField(line, req, error); o.req.verb == req.verb && o.req.version == req.version
  {
    hide Find, Emplace;
  }

  lemma KeepSupported(req: Request)
    ensures KeepAlive(req) ==> req.version != NoVersion
    ensures KeepAlive(req) ==>
              if req.version == Http11 then "Connection" !in req.headers || !Means(req.headers["Connection"], "close")
              else "Connection" in req.headers && Means(req.headers["Connection"], "keep-alive")
  {
    hide MatchesNoCase, Means;
    if "Connection" in req.headers {
      MatchesExactly(req.headers["Connection"], "close");
      MatchesExactly(req.headers["Connection"], "keep-alive");
    }
  }

  lemma {:induction false} LoopSupported(st: State, buf: string)
    requires Supported(st) && st.phase != Finished
    ensures Supported(Loop(st, buf).st)
    decreases PhasesLeft(st.phase), |buf|
  {
    hide ParseLine, ParseField, FindCrLf, KeepAlive, LengthOf, Means;
    IterateSupported(st, buf);
    if !BodyMissing(st, buf) && Iterate(st, buf).Continues? {
      LoopSupported(Iterate(st, buf).st, Iterate(st, buf).rest);
    }
  }

  /** Over any calls on any bytes: this holds of a new parser, and every call keeps it. */
  lemma AlwaysSupported(st: State, buf: string)
    ensures Supported(State(HeaderLine, NO_LENGTH, NoError, FRESH))
    ensures Supported(st) ==> Supported(Parsed(st, buf).st)
  {
    hide Loop;
    if Supported(st) {
      LoopSupported(Begin(st), buf);
    }
  }

  /** Without any field 1.1 keeps the connection and 1.0 does not. */
  lemma KeepAliveDefaults()
    ensures var st := State(HeaderLine, NO_LENGTH, NoError, FRESH);
            && Parsed(st, "GET / HTTP/1.1" + CRLF + CRLF).st.req.isKeepAlive
            && !Parsed(st, "GET / HTTP/1.0" + CRLF + CRLF).st.req.isKeepAlive
  {
    hide Parsed, WellFormed;
    var st := State(HeaderLine, NO_LENGTH, NoError, FRESH);
    var m1, m0 := Message(Get, "/", Http11, [], ""), Message(Get, "/", Http10, [], "");
    BareMessage(Http11);
    BareMessage(Http10);
    KeptAlive(st, m1, "");
    KeptAlive(st, m0, "");
  }

  lemma BareLine(v: Version)
    requires v != NoVersion
    ensures FirstLine(Message(Get, "/", v, [], "")) == if v == Http11 then "GET / HTTP/1.1" else "GET / HTTP/1.0"
  {
  }

  lemma BareMessage(v: Version)
    requires v != NoVersion
    ensures WellFormed(Message(Get, "/", v, [], ""))
    ensures Print(Message(Get, "/", v, [], "")) + "" == (if v == Http11 then "GET / HTTP/1.1" else "GET / HTTP/1.0") + CRLF + CRLF
  {
    hide Classified, SpelledUrl.EscapesAccepted, SpelledUrl.Output, FirstLine, OneLine;
    var m := Message(Get, "/", v, [], "");
    var line := if v == Http11 then "GET / HTTP/1.1" else "GET / HTTP/1.0";
    BareLine(v);
    NoLineEnd(line);
    BarePrint(line);
  }

  lemma BarePrint(line: string)
    ensures line + CRLF + FieldLines([]) + CRLF + "" + "" == line + CRLF + CRLF
  {
  }

  lemma NoLineEnd(s: string)
    requires '\r' !in s
    ensures OneLine(s)
  {
  }
}
