/** The URL HttpParser stores: when resolving it trips the assertion, and what it then says. */
module StoredUrl {
  import opened Text
  import opened HttpMessage
  import opened HttpParser
  import ComplexUrl
  import opened VersionNumbers
  import SpelledUrl

  /** A request after its method, URL and version have been looked at. */
  function LookedAt(verb: Method, url: string, version: Version): Request
    requires url != ""
  {
    Classify(FRESH.(verb := verb, isStatic := verb != Post, url := url), url[1..]).(version := version)
  }

  // ------------------------------------------------------------- the verdict

  lemma {:induction false} SplitLast(s: string) returns (front: string)
    ensures var segs := ComplexUrl.Split(s);
            s == front + segs[|segs| - 1] && '/' !in segs[|segs| - 1]
    decreases |s|
  {
    hide Find, ComplexUrl.Split;
    ComplexUrl.SplitAt(s);
    var i := Find(s, '/');
    if i == |s| {
      front := "";
      assert "" + s == s;
    } else {
      var more := SplitLast(s[i + 1..]);
      front := s[..i + 1] + more;
      assert s == s[..i + 1] + s[i + 1..];
    }
  }

  /** Without a '/' nothing is erased, and a '?' is nowhere a digit. */
  lemma {:induction false} QueryKept(c: ComplexUrl.Config, s: string)
    requires '/' !in s && ('?' in s || '?' in c.out) && ComplexUrl.Feed(c, s).Running?
    ensures '?' in ComplexUrl.Feed(c, s).c.out
    decreases |s|
  {
    if s != "" {
      assert s == [s[0]] + s[1..];
      assert ComplexUrl.EscapeDigit('?').None? by { assert ComplexUrl.OrBit5('?') == 63; }
      var d := ComplexUrl.Step(c, s[0]).c;
      assert s[0] == '?' ==> d.out == c.out + "?";
      assert d.out == c.out || (|d.out| > |c.out| && d.out[..|c.out|] == c.out);
      QueryKept(d, s[1..]);
    }
  }

  /** A '?' behind the last '/' of the URL as written survives the transducer. */
  lemma LastQuerySurvives(url: string)
    requires url != "" && url[0] == '/' && SpelledUrl.EscapesAccepted(url)
    requires '?' in ComplexUrl.LastSegment(url)
    ensures '?' in SpelledUrl.Output(url)
  {
    hide ComplexUrl.Feed, ComplexUrl.Split, SpelledUrl.EscapesAccepted, SpelledUrl.Output;
    SpelledUrl.UrlOutput(url);
    var front := SplitLast(url[1..]);
    var last := ComplexUrl.LastSegment(url);
    assert url == [url[0]] + url[1..] == ([url[0]] + front) + last;
    ComplexUrl.FeedAppend(ComplexUrl.START, [url[0]] + front, last);
    QueryKept(ComplexUrl.Feed(ComplexUrl.START, [url[0]] + front).c, last);
  }

  /** The assertion fails exactly for a POST to a complex URL whose escapes are all accepted and of
      whose text no '?' is left; for every other method resolving always succeeds. */
  lemma Verdict(verb: Method, url: string, version: Version, error: ErrorKind)
    requires url != "" && url[0] == '/'
    ensures var req := LookedAt(verb, url, version);
            && (ResolveUrl(req, error).code == Fault
                <==> verb == Post && req.isComplex && SpelledUrl.EscapesAccepted(url) && '?' !in SpelledUrl.Output(url))
  {
    hide ComplexUrl.Feed, ComplexUrl.Split, SpelledUrl.EscapesAccepted, SpelledUrl.Output, Find;
    SpelledUrl.UrlOutput(url);
    var req := LookedAt(verb, url, version);
    assert req.url == url;
    if verb != Post && !req.isStatic && SpelledUrl.EscapesAccepted(url) {
      LastQuerySurvives(url);
    }
    var out := SpelledUrl.Output(url);
    assert '?' in out <==> Find(out, '?') < |out|;
  }

  lemma {:induction false} DirectoryHolds(stack: seq<string>, c: char)
    requires c != '/'
    ensures c in ComplexUrl.Directory(stack) <==> exists k :: 0 <= k < |stack| && c in stack[k]
  {
    if stack != [] {
      DirectoryHolds(stack[..|stack| - 1], c);
      if c in stack[|stack| - 1] {
        assert c in stack[|stack| - 1];
      }
    }
  }

  lemma StripHolds(seg: string)
    requires !ComplexUrl.Odd(seg)
    ensures '?' in ComplexUrl.Strip(seg) <==> '?' in seg
  {
    assert seg == [seg[0]] + seg[1..];
    if seg[0] == '.' && seg[1] == '.' {
      assert seg == [seg[0], seg[1]] + seg[2..];
    }
  }

  /** Without '%': a '?' is left exactly if a remaining directory or the last segment has one. */
  lemma PlainQuery(url: string)
    requires url != "" && url[0] == '/' && '%' !in url
    ensures SpelledUrl.EscapesAccepted(url)
    ensures '?' in SpelledUrl.Output(url)
       <==> (exists k :: 0 <= k < |ComplexUrl.Parents(url)| && '?' in ComplexUrl.Parents(url)[k])
            || '?' in ComplexUrl.LastSegment(url)
  {
    hide ComplexUrl.Feed, ComplexUrl.Split, ComplexUrl.PushAll, ComplexUrl.Directory, ComplexUrl.Strip, SpelledUrl.Output, ComplexUrl.Odd;
    ComplexUrl.TransducerOutput(url);
    SpelledUrl.UrlOutput(url);
    var stack, last := ComplexUrl.Parents(url), ComplexUrl.LastSegment(url);
    var kept := ComplexUrl.Stripped(stack);
    DirectoryHolds(kept, '?');
    forall k | 0 <= k < |stack|
      ensures '?' in kept[k] <==> '?' in stack[k]
    {
      StripHolds(stack[k]);
    }
    OddHasNone(last);
    if !ComplexUrl.Odd(last) {
      StripHolds(last);
    }
  }

  lemma OddHasNone(last: string)
    ensures ComplexUrl.Odd(last) ==> '?' !in last
  {
  }

  // ---------------------------------------------------------- what is stored

  /** A URL that is not complex, or whose escapes are refused, is stored as it came; any other is
      stored as its rendered text, whole for a static request, cut at the first '?' otherwise. */
  lemma Stored(verb: Method, url: string, version: Version, error: ErrorKind)
    requires url != "" && url[0] == '/'
    ensures var req := LookedAt(verb, url, version);
            var o := ResolveUrl(req, error);
            && (if req.isComplex && !SpelledUrl.EscapesAccepted(url) then o.error.EscapeInvalid? else o.error == error)
            && (o.code == Good ==>
                  if !req.isComplex || !SpelledUrl.EscapesAccepted(url) then o.req == req
                  else if req.isStatic then o.req == req.(url := SpelledUrl.Output(url))
                  else SpelledUrl.Output(url) == o.req.url + "?" + o.req.query && '?' !in o.req.url)
  {
    hide ComplexUrl.Feed, Classify, SpelledUrl.EscapesAccepted, SpelledUrl.Output, Find;
    SpelledUrl.UrlOutput(url);
    ClassifyKeepsUrl(verb, url, version);
    CutAtQuery(SpelledUrl.Output(url));
  }

  lemma CutAtQuery(out: string)
    ensures var q := Find(out, '?'); q < |out| ==> out == out[..q] + "?" + out[q + 1..] && '?' !in out[..q]
  {
    var q := Find(out, '?');
    if q < |out| {
      CutAt(out, q);
    }
  }

  lemma CutAt(out: string, q: nat)
    requires q < |out| && out[q] == '?' && forall j :: 0 <= j < q ==> out[j] != '?'
    ensures out == out[..q] + "?" + out[q + 1..] && '?' !in out[..q]
  {
  }

  /** A URL without '%' and '?' that is looked at as static: only ".", ".." and "" between slashes make
      it complex. */
  lemma PlainComplex(verb: Method, url: string, version: Version)
    requires url != "" && url[0] == '/' && '%' !in url && '?' !in url && verb != Post
    ensures var segs := ComplexUrl.Split(url[1..]);
            var req := LookedAt(verb, url, version);
            req.isStatic && (req.isComplex <==> exists k :: 0 <= k < |segs| - 1 && ComplexUrl.Odd(segs[k]))
  {
    hide ComplexUrl.Odd, ComplexUrl.Split;
    var segs := ComplexUrl.Split(url[1..]);
    assert forall c :: c in url[1..] ==> c in url;
    ComplexUrl.JoinSplit(url[1..]);
    var front := SplitLast(url[1..]);
    assert '?' !in segs[|segs| - 1];
    assert forall k :: 0 <= k < |segs| ==> ComplexUrl.PlainSegment(segs[k]);
    assert forall k :: 0 <= k < |segs| ==> (OddDirectory(segs[k]) <==> ComplexUrl.Odd(segs[k]));
  }

  /** Dot segments in what is stored for a static request without '%' and '?'. If the URL is complex
      they come from three or four dots; if not, the last segment is never looked at, and a "." or
      ".." there is stored as it is. */
  lemma StoredDotSegments(verb: Method, url: string, version: Version, error: ErrorKind)
    requires url != "" && url[0] == '/' && '%' !in url && '?' !in url && verb != Post
    ensures var req := LookedAt(verb, url, version);
            var stack, last := ComplexUrl.Parents(url), ComplexUrl.LastSegment(url);
            var stored := ResolveUrl(req, error).req.url;
            stored != "" &&
            (ComplexUrl.HasDotSegment(stored) <==>
               if req.isComplex then (exists k :: 0 <= k < |stack| && ComplexUrl.LeavesDots(stack[k])) || ComplexUrl.LeavesDots(last)
               else ComplexUrl.DotSegment(last))
  {
    hide ComplexUrl.Feed, ComplexUrl.Split, SpelledUrl.EscapesAccepted, SpelledUrl.Output, ResolveUrl, Classify, ComplexUrl.Parents, ComplexUrl.LeavesDots;
    SpelledUrl.UrlOutput(url);
    PlainQuery(url);
    PlainComplex(verb, url, version);
    Verdict(verb, url, version, error);
    ResolveCode(LookedAt(verb, url, version), error);
    Stored(verb, url, version, error);
    ComplexUrl.OutputDotSegments(url);
    ClassifyKeepsUrl(verb, url, version);
    var segs := ComplexUrl.Split(url[1..]);
    assert ComplexUrl.LastSegment(url) == segs[|segs| - 1];
    if !LookedAt(verb, url, version).isComplex {
      assert forall k :: 0 <= k < |segs| - 1 ==> !ComplexUrl.Odd(segs[k]);
    }
  }

  lemma ResolveCode(req: Request, error: ErrorKind)
    ensures ResolveUrl(req, error).code in {Good, Fault}
  {
  }

  lemma ClassifyKeepsUrl(verb: Method, url: string, version: Version)
    requires url != ""
    ensures LookedAt(verb, url, version).url == url
  {
  }

  // ---------------------------------------------- which request lines are good

  predicate GoodParts(line: string, verb: string, url: string, v: string)
  {
    && line == verb + " " + url + " " + v
    && ' ' !in verb && MethodOf(verb) != NotSupport
    && url != "" && url[0] == '/' && ' ' !in url && GoodVersion(v)
    && !(MethodOf(verb) == Post && LookedAt(Post, url, NumberedVersion(v)).isComplex
         && SpelledUrl.EscapesAccepted(url) && '?' !in SpelledUrl.Output(url))
  }

  lemma VersionVerdict(v: string, req: Request, error: ErrorKind)
    ensures ParseVersion(v, req, error).code == Good
       <==> GoodVersion(v) && ResolveUrl(req.(version := NumberedVersion(v)), error).code == Good
  {
    hide ResolveUrl, VersionCode, GoodVersion, NumberedVersion;
    GoodCode(v);
    if |v| >= 5 {
      var w := v[5..];
      assert '.' in w <==> Find(w, '.') < |w|;
    }
  }

  lemma PartsVerdict(verb: string, url: string, v: string, error: ErrorKind)
    requires MethodOf(verb) != NotSupport && url != "" && ' ' !in url && ' ' !in verb
    ensures ParseLine(verb + " " + url + " " + v, FRESH, error).code == Good <==> GoodParts(verb + " " + url + " " + v, verb, url, v)
  {
    hide ParseVersion, MethodOf, Classify, ResolveUrl, SpelledUrl.EscapesAccepted, SpelledUrl.Output, GoodVersion, NumberedVersion;
    var line, rest := verb + " " + url + " " + v, url + [' '] + v;
    assert line == verb + [' '] + rest;
    FindIn(verb, ' ', rest);
    assert line[..|verb|] == verb && line[|verb| + 1..] == rest;
    FindIn(url, ' ', v);
    assert rest[..|url|] == url && rest[1..|url|] == url[1..] && rest[|url| + 1..] == v && rest[0] == url[0];
    var m := MethodOf(verb);
    var req := Classify(FRESH.(verb := m, isStatic := m != Post, url := url), url[1..]);
    VersionVerdict(v, req, error);
    if url[0] == '/' && GoodVersion(v) {
      Verdict(m, url, NumberedVersion(v), error);
      ResolveCode(LookedAt(m, url, NumberedVersion(v)), error);
    }
  }

  lemma LineParts(line: string, error: ErrorKind) returns (verb: string, url: string, v: string)
    requires ParseLine(line, FRESH, error).code == Good
    ensures line == verb + " " + url + " " + v && ' ' !in verb && ' ' !in url && url != "" && MethodOf(verb) != NotSupport
  {
    hide ParseVersion, MethodOf, Classify, Find;
    var p := Find(line, ' ');
    verb := line[..p];
    var rest := line[p + 1..];
    var q := Find(rest, ' ');
    url, v := rest[..q], rest[q + 1..];
    assert rest == url + [' '] + v;
    assert line == verb + [' '] + rest;
  }

  /** The request lines a fresh parser accepts: a supported method, one space, a path without spaces,
      one space, and "HTTP/" with texts around a dot whose weighted sums come to 100 or 101; of these
      only the POST lines that trip the assertion are lost. */
  lemma AcceptedLines(line: string, error: ErrorKind)
    ensures ParseLine(line, FRESH, error).code == Good <==> exists verb, url, v :: GoodParts(line, verb, url, v)
  {
    hide ParseLine, GoodParts, MethodOf;
    if ParseLine(line, FRESH, error).code == Good {
      var verb, url, v := LineParts(line, error);
      PartsVerdict(verb, url, v, error);
    }
    if verb, url, v :| GoodParts(line, verb, url, v) {
      PartsAre(line, verb, url, v);
      PartsVerdict(verb, url, v, error);
    }
  }

  lemma PartsAre(line: string, verb: string, url: string, v: string)
    requires GoodParts(line, verb, url, v)
    ensures line == verb + " " + url + " " + v && MethodOf(verb) != NotSupport && url != "" && ' ' !in url && ' ' !in verb
  {
    hide SpelledUrl.EscapesAccepted, SpelledUrl.Output, MethodOf;
  }
}
