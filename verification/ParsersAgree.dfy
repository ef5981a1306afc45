/** The two request parsers, the character automaton and the find-based one, read the same
    message from the same bytes. Compared are method, version, static flag, headers, cached
    length and the URL with its query, on messages with a plain URL. */
module ParsersAgree {
  import opened Text
  import opened HttpMessage
  import opened RequestLine
  import opened HttpRequestParser
  import opened RequestRoundTrip
  import New = HttpParser
  import ComplexUrl

  // ------------------------------------------------------------ plain URLs

  /** No blank, no '%', no '/' after a '?', and no empty or dot-initial segment before the last
      (nor a dot at the beginning of the last). */
  ghost predicate PlainChars(w: string)
  {
    && ' ' !in w && '%' !in w
    && (forall i :: 0 <= i < |w| - 1 && w[i] == '/' ==> w[i + 1] != '/' && w[i + 1] != '.')
    && (forall i, j :: 0 <= i < j < |w| && w[i] == '?' ==> w[j] != '/')
  }

  ghost predicate PlainUrl(url: string)
  {
    url != "" && url[0] == '/' && PlainChars(url)
  }

  lemma PlainTail(w: string)
    requires PlainChars(w) && w != ""
    ensures PlainChars(w[1..])
    ensures w[0] == '/' && |w| > 1 ==> w[1] != '/' && w[1] != '.'
    ensures w[0] == '?' ==> '/' !in w[1..]
    ensures w[0] != '%' && w[0] != ' ' && ('?' in w <==> w[0] == '?' || '?' in w[1..])
  {
    var t := w[1..];
    assert forall i :: 0 <= i < |t| ==> t[i] == w[i + 1];
    assert w == [w[0]] + t;
  }

  /** The automaton's flags after a plain path. */
  lemma {:induction false} PathFlags(a: Auto, w: string)
    requires a.state in {AfterSlashInUrl, CheckUrl, Url} && PlainChars(w)
    requires a.state == AfterSlashInUrl && w != "" ==> w[0] != '/' && w[0] != '.'
    ensures a.state == Url ==> PathFold(a, w).isComplex == a.isComplex && PathFold(a, w).isStatic == a.isStatic
    ensures a.state != Url ==> PathFold(a, w).isComplex == (a.isComplex || '?' in w)
    ensures a.state != Url ==> PathFold(a, w).isStatic == (a.isStatic && '?' !in w)
    decreases |w|
  {
    if w != "" {
      PlainTail(w);
      PathFlags(PathStep(a, w[0]), w[1..]);
    }
  }

  /** The transducer copies a plain path. */
  lemma {:induction false} TransducerCopies(c: ComplexUrl.Config, w: string)
    requires c.state in {ComplexUrl.Usual, ComplexUrl.Slash} && PlainChars(w)
    requires c.state == ComplexUrl.Slash && w != "" ==> w[0] != '/' && w[0] != '.'
    ensures ComplexUrl.Feed(c, w).Running? && ComplexUrl.Feed(c, w).c.out == c.out + w
    decreases |w|
  {
    if w == "" {
      assert c.out + w == c.out;
    } else {
      PlainTail(w);
      var d := ComplexUrl.Step(c, w[0]).c;
      assert d.out == c.out + [w[0]];
      TransducerCopies(d, w[1..]);
      assert c.out + [w[0]] + w[1..] == c.out + w;
    }
  }

  /** A plain path up to its first slash, and behind it. */
  lemma HeadPlain(w: string, i: nat)
    requires PlainChars(w) && w != "" && w[0] != '/' && w[0] != '.' && i == Find(w, '/') < |w|
    ensures var t := w[i + 1..];
            PlainChars(t) && (t != "" ==> t[0] != '/' && t[0] != '.') && ('?' in w <==> '?' in t)
    ensures !New.OddDirectory(w[..i])
  {
    hide Find;
    var head, t := w[..i], w[i + 1..];
    assert w == head + ['/'] + t;
    assert forall j :: 0 <= j < |t| ==> t[j] == w[j + i + 1];
    assert head != "" && head[0] == w[0];
    assert forall j :: 0 <= j < i ==> head[j] == w[j] && w[j] != '?';
  }

  /** The find-based test sees no odd directory in a plain path, and its '?' only at the end. */
  lemma {:induction false} SplitPlain(w: string)
    requires PlainChars(w) && (w != "" ==> w[0] != '/' && w[0] != '.')
    ensures var segs := ComplexUrl.Split(w);
            && (forall k :: 0 <= k < |segs| - 1 ==> !New.OddDirectory(segs[k]))
            && ('?' in segs[|segs| - 1] <==> '?' in w)
    decreases |w|
  {
    hide Find, ComplexUrl.Split, PlainChars, New.OddDirectory;
    var i := Find(w, '/');
    ComplexUrl.SplitAt(w);
    if i < |w| {
      HeadPlain(w, i);
      SplitPlain(w[i + 1..]);
    }
  }

  lemma PlainClassified(m: Message)
    requires PlainUrl(m.url)
    ensures var query := '?' in m.url;
            Classified(m) == FRESH.(verb := m.verb, version := m.version, url := m.url,
                                    isStatic := m.verb != Post && !query, isComplex := query)
  {
    hide ComplexUrl.Split, Find;
    PlainTail(m.url);
    SplitPlain(m.url[1..]);
  }

  lemma ResolvePlain(req: Request, url: string)
    requires PlainUrl(url) && req.url == url && req.isComplex == ('?' in url) && (req.isComplex ==> !req.isStatic)
    ensures var o := New.ResolveUrl(req, New.NoError);
            && o.code == New.Good && o.req == req.(url := o.req.url, query := o.req.query)
            && (if '?' in url then url == o.req.url + "?" + o.req.query && '?' !in o.req.url else o.req == req)
  {
    hide ComplexUrl.Feed;
    if '?' in url {
      TransducerCopies(ComplexUrl.START, url);
      assert ComplexUrl.START.out + url == url;
      var q := Find(url, '?');
      assert url == url[..q] + "?" + url[q + 1..];
    }
  }

  /** What the find-based parser makes of a message with a plain URL. */
  lemma PlainExpected(m: Message)
    requires PlainUrl(m.url) && m.verb != NotSupport
    ensures var r := Expected(m);
            && r.verb == m.verb && r.version == m.version && r.headers == EmplaceAll(map[], m.fields) && r.body == m.body
            && r.isStatic == (m.verb != Post && '?' !in m.url)
            && (if '?' in m.url then m.url == r.url + "?" + r.query && '?' !in r.url else m.url == r.url && r.query == "")
    ensures New.ResolveUrl(Classified(m), New.NoError).code == New.Good
  {
    hide New.ResolveUrl, Classified, EmplaceAll, PlainChars;
    PlainClassified(m);
    ResolvePlain(Classified(m), m.url);
  }

  // ----------------------------------------------------- the older parser

  function LineMarks(m: Message): Marks
    requires m.verb != NotSupport
  {
    var token := |MethodName(m.verb)| + 1;
    var v := token + |m.url| + 1;
    Marks(token - 1, token, 0, 0, token, v - 1, v, v + 4, v + 6, v + 8, v + 10)
  }

  function FirstText(m: Message, rest: string): string
    requires m.verb != NotSupport && m.version != NoVersion
  {
    FirstLine(m) + CRLF + rest
  }

  /** The characters of the line, part by part. */
  lemma LineChars(m: Message, rest: string)
    requires m.verb != NotSupport && m.version != NoVersion
    ensures var s, k := FirstText(m, rest), LineMarks(m);
            && k.end <= |s|
            && s[..k.verbEnd] == MethodName(m.verb) && s[k.verbEnd] == ' '
            && s[k.path..k.pathEnd] == m.url && s[k.pathEnd] == ' '
            && (forall i :: 0 <= i < 8 ==> s[k.version + i] == VersionText(m.version)[i])
            && s[k.minorEnd] == '\r' && s[k.minorEnd + 1] == '\n'
  {
    hide MethodName, VersionText;
    var name, v, k := MethodName(m.verb), VersionText(m.version), LineMarks(m);
    var s := FirstText(m, rest);
    VersionTextLength(m.version);
    assert s == name + (" " + m.url + " " + v + CRLF + rest);
    assert s == (name + " ") + m.url + (" " + v + CRLF + rest);
    assert s == (name + " " + m.url + " ") + v + (CRLF + rest);
  }

  lemma VersionTextLength(v: Version)
    requires v != NoVersion
    ensures |VersionText(v)| == 8
  {
  }

  lemma MarksFit(m: Message, rest: string)
    requires m.verb != NotSupport && m.version != NoVersion && PlainUrl(m.url)
    ensures IsRequestLine(FirstText(m, rest), LineMarks(m))
  {
    hide MethodName, FirstText;
    var s, k := FirstText(m, rest), LineMarks(m);
    LineChars(m, rest);
    assert IsMethod(s, k);
    assert IsUrlToken(s, k) by {
      forall i | k.path <= i < k.pathEnd
        ensures NotBlank(s[i])
      {
        assert s[k.path..k.pathEnd][i - k.path] in m.url;
      }
      assert s[k.path..k.pathEnd][0] == m.url[0];
    }
    VersionFits(m, s, k);
  }

  lemma VersionFits(m: Message, s: string, k: Marks)
    requires m.verb != NotSupport && m.version != NoVersion && k == LineMarks(m) && k.end <= |s|
    requires s[k.pathEnd] == ' ' && s[k.minorEnd] == '\r' && s[k.minorEnd + 1] == '\n'
    requires forall i :: 0 <= i < 8 ==> s[k.version + i] == VersionText(m.version)[i]
    ensures IsVersion(s, k)
    ensures Number(s, k.slash + 1, k.dot) == 1 && Number(s, k.dot + 1, k.minorEnd) == if m.version == Http11 then 1 else 0
  {
    hide MethodName;
    var v := VersionText(m.version);
    assert s[k.version] == v[0] && s[k.version + 1] == v[1] && s[k.version + 2] == v[2] && s[k.version + 3] == v[3];
    assert s[k.version + 4] == v[4] && s[k.version + 5] == v[5] && s[k.version + 6] == v[6] && s[k.version + 7] == v[7];
  }

  lemma OldLine(m: Message, rest: string)
    requires m.verb != NotSupport && m.version != NoVersion && PlainUrl(m.url)
    ensures var (r, t) := LineCall(FRESH_STATE, FirstText(m, rest));
            && r == ResultComplete && t.phase == InRequestLine
            && t.header == Header(|FirstLine(m)| + 2, map[], 0)
            && t.url == m.url
            && t.auto.verb == m.verb && VersionOf(t.auto.major * 100 + t.auto.minor) == m.version
            && t.auto.isStatic == (m.verb != Post && '?' !in m.url)
  {
    hide Run, Number, IsRequestLine, Recorded, FirstText, ComplexUrl.Feed, PlainChars;
    var s, k := FirstText(m, rest), LineMarks(m);
    MarksFit(m, rest);
    AcceptsGrammar(s, k);
    RecordedPlain(m, rest);
    TransducerCopies(ComplexUrl.START, m.url);
    assert ComplexUrl.START.out + m.url == m.url;
    MarksEnd(m);
  }

  lemma MarksEnd(m: Message)
    requires m.verb != NotSupport && m.version != NoVersion
    ensures LineMarks(m).end == |FirstLine(m)| + 2
  {
    hide MethodName;
  }

  lemma RecordedPlain(m: Message, rest: string)
    requires m.verb != NotSupport && m.version != NoVersion && PlainUrl(m.url)
    requires IsRequestLine(FirstText(m, rest), LineMarks(m))
    ensures var s := FirstText(m, rest);
            var a := Recorded(s, LineMarks(m));
            && a.verb == m.verb && a.major == 1 && a.minor == (if m.version == Http11 then 1 else 0)
            && a.isStatic == (m.verb != Post && '?' !in m.url) && a.isComplex == ('?' in m.url)
            && UrlInBounds(a, s) && s[a.urlStart..a.urlEnd] == m.url
  {
    hide PathFold, FirstText, Number, PlainChars, IsVersion, MethodName, MethodOf, IsUrlToken;
    var s, k := FirstText(m, rest), LineMarks(m);
    LineChars(m, rest);
    VersionFits(m, s, k);
    PlainTail(m.url);
    var w := s[k.path + 1..k.pathEnd];
    assert w == s[k.path..k.pathEnd][1..] == m.url[1..];
    PathFlags(INITIAL.(state := AfterSlashInUrl, isStatic := m.verb != Post), w);
  }

  function LengthAfter(length: nat, fields: seq<Field>): nat
    decreases |fields|
  {
    if fields == [] then length
    else LengthAfter(if fields[0].0 == "Content-Length" then Atoll(fields[0].1) else length, fields[1..])
  }

  /** The last Content-Length field counts, and a printed number counts as that number. */
  lemma {:induction false} LastLengthCounts(length: nat, fields: seq<Field>, k: nat, n: nat)
    requires k < |fields| && fields[k] == ("Content-Length", Dec(n)) && n <= LLONG_MAX
    requires forall j :: k < j < |fields| ==> fields[j].0 != "Content-Length"
    ensures LengthAfter(length, fields) == n
    decreases |fields|
  {
    hide Atoll, Dec;
    AtollOfDec(n);
    if k > 0 {
      LastLengthCounts(if fields[0].0 == "Content-Length" then Atoll(fields[0].1) else length, fields[1..], k - 1, n);
    } else {
      NoMoreLengths(n, fields[1..]);
    }
  }

  lemma {:induction false} NoMoreLengths(length: nat, fields: seq<Field>)
    requires forall j :: 0 <= j < |fields| ==> fields[j].0 != "Content-Length"
    ensures LengthAfter(length, fields) == length
    decreases |fields|
  {
    if fields != [] {
      NoMoreLengths(length, fields[1..]);
    }
  }

  lemma StepField(h: Header, f: Field, rest: string)
    requires ValidField(f)
    ensures StepHeader(h, FieldLine(f) + CRLF + rest) ==
            TakeLine(Header(h.pos + |FieldLine(f)| + 2, Emplace(h.headers, f.0, f.1),
                            if f.0 == "Content-Length" then Atoll(f.1) else h.length))
  {
    hide Find, FindCrLf, Emplace, Atoll;
    var line := FieldLine(f);
    var s := line + CRLF + rest;
    FindCrLfLine(line, rest);
    assert !BlankLine(s) by {
      assert !CrLfAt(s, 0);
    }
    assert s == f.0 + [':'] + (" " + f.1 + CRLF + rest);
    FindIn(f.0, ':', " " + f.1 + CRLF + rest);
    assert s[..|f.0|] == f.0;
    assert s[|f.0| + 2..|line|] == f.1;
  }

  /** The older parser reads a block of "name: value" lines: first value wins in the map, last
      Content-Length in the cached length, and it stops behind the blank line. */
  lemma {:induction false} OldHeaders(h: Header, done: string, fields: seq<Field>, rest: string)
    requires h.pos == |done| && forall k :: 0 <= k < |fields| ==> ValidField(fields[k])
    ensures var s := done + (FieldLines(fields) + CRLF + rest);
            HeaderCall(h, s) ==
            HeaderOutcome(HeadersComplete, Header(|done| + |FieldLines(fields)| + 2, EmplaceAll(h.headers, fields), LengthAfter(h.length, fields)))
    decreases |fields|
  {
    hide StepHeader, Emplace, Atoll, ValidField;
    var s := done + (FieldLines(fields) + CRLF + rest);
    assert s[h.pos..] == FieldLines(fields) + CRLF + rest;
    if fields == [] {
      assert s[h.pos..] == CRLF + rest;
      BlankStep(h, rest);
    } else {
      var line := FieldLine(fields[0]);
      var behind := FieldLines(fields[1..]) + CRLF + rest;
      assert s[h.pos..] == line + CRLF + behind;
      StepField(h, fields[0], behind);
      var next := Header(h.pos + |line| + 2, Emplace(h.headers, fields[0].0, fields[0].1),
                         if fields[0].0 == "Content-Length" then Atoll(fields[0].1) else h.length);
      assert s == done + line + CRLF + behind;
      OldHeaders(next, done + line + CRLF, fields[1..], rest);
    }
  }

  lemma BlankStep(h: Header, rest: string)
    ensures StepHeader(h, CRLF + rest) == Stop(HeadersComplete)
  {
  }

  lemma OldParses(m: Message, rest: string)
    requires m.verb != NotSupport && m.version != NoVersion && PlainUrl(m.url)
    requires forall k :: 0 <= k < |m.fields| ==> ValidField(m.fields[k])
    ensures var (r, t, left) := ParseCall(FRESH_STATE, HeadText(m) + rest);
            && r == ResultComplete && left == rest && t.url == m.url && t.auto.verb == m.verb
            && VersionOf(t.auto.major * 100 + t.auto.minor) == m.version
            && t.auto.isStatic == (m.verb != Post && '?' !in m.url)
            && t.header.headers == EmplaceAll(map[], m.fields) && t.header.length == LengthAfter(0, m.fields)
  {
    hide LineCall, HeaderCall, ValidField, EmplaceAll, LengthAfter;
    var behind := FieldLines(m.fields) + CRLF + rest;
    var s := HeadText(m) + rest;
    assert s == FirstText(m, behind);
    OldLine(m, behind);
    var (r, t) := LineCall(FRESH_STATE, s);
    assert s[t.header.pos..] == behind;
    assert "" + behind == behind;
    OldHeaders(Header(0, map[], 0), "", m.fields, rest);
    var (r1, t1, left) := ParseCall(FRESH_STATE, s);
    assert left == behind[|FieldLines(m.fields)| + 2..] == rest;
  }

  /** On every message with a plain URL and "name: value" fields the two parsers agree: method,
      version, static flag, header map, and the URL, which the older one keeps whole and the
      newer one cuts at the '?'. Behind the head the older parser leaves the body. */
  lemma ParsersAgree(m: Message, tail: string)
    requires WellFormed(m) && PlainUrl(m.url)
    ensures var found := New.Parsed(New.State(New.HeaderLine, New.NO_LENGTH, New.NoError, FRESH), Print(m) + tail);
            var (r, older, left) := ParseCall(FRESH_STATE, Print(m) + tail);
            && found.result == New.Good && r == ResultComplete
            && left == found.st.req.body + found.rest
            && older.auto.verb == found.st.req.verb
            && VersionOf(older.auto.major * 100 + older.auto.minor) == found.st.req.version
            && older.auto.isStatic == found.st.req.isStatic
            && older.header.headers == found.st.req.headers
            && older.url == found.st.req.url + (if '?' in m.url then "?" + found.st.req.query else "")
  {
    hide New.Parsed, ParseCall, EmplaceAll, WellFormed, PlainUrl, HeadText, Print, VersionOf;
    MessageParts(m);
    PrintJoins(m, tail);
    OldParses(m, m.body + tail);
    NewParses(m, tail);
  }

  lemma NewParses(m: Message, tail: string)
    requires WellFormed(m) && PlainUrl(m.url)
    ensures var found := New.Parsed(New.State(New.HeaderLine, New.NO_LENGTH, New.NoError, FRESH), Print(m) + tail);
            var r := found.st.req;
            && found.result == New.Good && found.rest == tail && r.verb == m.verb && r.version == m.version && r.body == m.body
            && r.headers == EmplaceAll(map[], m.fields) && r.isStatic == (m.verb != Post && '?' !in m.url)
            && m.url == r.url + (if '?' in m.url then "?" + r.query else "")
  {
    hide New.Parsed, Expected, EmplaceAll, PlainUrl, Print;
    RoundTrip(New.State(New.HeaderLine, New.NO_LENGTH, New.NoError, FRESH), m, tail);
    PlainExpected(m);
    assert m.url + "" == m.url;
  }

  lemma PrintJoins(m: Message, tail: string)
    requires m.verb != NotSupport && m.version != NoVersion
    ensures Print(m) + tail == HeadText(m) + (m.body + tail)
  {
  }

  lemma MessageParts(m: Message)
    requires WellFormed(m)
    ensures m.verb != NotSupport && m.version != NoVersion
    ensures forall k :: 0 <= k < |m.fields| ==> ValidField(m.fields[k])
  {
  }
}
