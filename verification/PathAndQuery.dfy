/** What a request's URL asks for, its query taken apart from its path, and when HttpParser
    stores just that. */
module PathAndQuery {
  import opened Text
  import opened HttpMessage
  import opened HttpParser
  import opened ComplexUrl
  import opened SpelledUrl
  import opened StoredUrl

  // ------------------------------------------------------- the URL as sent

  /** Everything before the first '?'. */
  function PathOf(url: string): string
  {
    url[..Find(url, '?')]
  }

  /** Everything behind it. */
  function QueryOf(url: string): string
  {
    if '?' in url then url[Find(url, '?') + 1..] else ""
  }

  lemma PathAndQueryOf(url: string)
    requires url != "" && url[0] == '/'
    ensures var p := PathOf(url); p != "" && p[0] == '/' && '?' !in p
    ensures url == PathOf(url) + if '?' in url then "?" + QueryOf(url) else ""
  {
    assert url[..|url|] == url;
  }

  /** Every '%' of the path begins an escape with two accepted digits. */
  predicate WellSpelled(path: string)
    requires path != ""
  {
    ReadPath(path[1..]).cut == ""
  }

  /** What a path means: its segments without dot segments, each decoded once. */
  function MeaningOf(path: string): string
    requires path != ""
  {
    var p := ReadPath(path[1..]);
    ReadPathSpells(path[1..]);
    Intended(p.parents, p.last)
  }

  /** The request holds what was sent: the path as it is meant, the query untouched, and the static
      flag exactly for a request that is no POST and has no query. */
  predicate Right(verb: Method, url: string, o: LineOutcome)
    requires url != "" && url[0] == '/'
  {
    PathAndQueryOf(url);
    && o.code == Good && WellSpelled(PathOf(url))
    && o.req.url == MeaningOf(PathOf(url)) && o.req.query == QueryOf(url)
    && (o.req.isStatic <==> verb != Post && '?' !in url)
  }

  // ------------------------------------------- the transducer behind the path

  /** A '/' or '.' right behind a '/'. */
  predicate DroppedAt(q: string, i: int)
  {
    0 < i < |q| && q[i - 1] == '/' && (q[i] == '/' || q[i] == '.')
  }

  /** No escape, and no '/' with a '/' or '.' right behind it. */
  predicate CleanQuery(q: string)
  {
    '%' !in q && forall i :: 0 < i < |q| ==> !DroppedAt(q, i)
  }

  lemma CleanStep(c: char, q: string)
    ensures CleanQuery([c] + q) <==> c != '%' && CleanQuery(q) && (c == '/' && q != "" ==> q[0] != '/' && q[0] != '.')
  {
    var s := [c] + q;
    assert forall i :: 0 < i < |q| ==> (DroppedAt(s, i + 1) <==> DroppedAt(q, i));
    if CleanQuery(s) {
      assert forall x :: x in q ==> x in s;
      assert |q| > 0 ==> !DroppedAt(s, 1);
      forall i | 0 < i < |q|
        ensures !DroppedAt(q, i)
      {
        assert !DroppedAt(s, i + 1);
      }
    } else if '%' !in s {
      var i :| 0 < i < |s| && DroppedAt(s, i);
      assert i > 1 ==> DroppedAt(q, i - 1);
    }
  }

  lemma FeedStep(c: Config, s: string)
    requires s != ""
    ensures Feed(c, s) == if Step(c, s[0]).Running? then Feed(Step(c, s[0]).c, s[1..]) else Step(c, s[0])
    ensures [s[0]] + s[1..] == s
  {
    hide Step;
  }

  /** A step adds at most its own character, and otherwise leaves a prefix. */
  lemma StepAdds(c: Config, x: char)
    requires Step(c, x).Running?
    ensures var d := Step(c, x).c; |d.out| <= |c.out| + 1 && (d.out <= c.out || d.out[..|c.out|] == c.out)
    ensures c.state in {Usual, Slash} && |Step(c, x).c.out| == |c.out| + 1 ==>
              x != '%' && Step(c, x).c.out == c.out + [x] && Step(c, x).c.state == if x == '/' then Slash else Usual
    ensures c.state == Slash ==> (|Step(c, x).c.out| == |c.out| + 1 <==> x != '/' && x != '.' && x != '%')
    ensures c.state == Usual ==> (|Step(c, x).c.out| == |c.out| + 1 <==> x != '%')
  {
    hide EscapeDigit;
  }

  lemma {:induction false} FeedAdds(c: Config, s: string)
    ensures |Feed(c, s).c.out| <= |c.out| + |s|
    decreases |s|
  {
    hide Step;
    if s != "" {
      FeedStep(c, s);
      if Step(c, s[0]).Running? {
        StepAdds(c, s[0]);
        FeedAdds(Step(c, s[0]).c, s[1..]);
      } else {
        StepStops(c, s[0]);
      }
    }
  }

  lemma StepStops(c: Config, x: char)
    requires Step(c, x).BadEscape?
    ensures Step(c, x).c == c
  {
  }

  /** The '/' the state remembers. */
  function Behind(state: UrlState): string
  {
    if state == Slash then "/" else ""
  }

  /** Text is copied character by character exactly if it is clean. */
  lemma {:induction false} CopiesClean(c: Config, s: string)
    requires c.state in {Usual, Slash}
    ensures CleanQuery(Behind(c.state) + s) ==> Feed(c, s).Running? && Feed(c, s).c.out == c.out + s
    ensures |Feed(c, s).c.out| == |c.out| + |s| ==> CleanQuery(Behind(c.state) + s)
    decreases |s|
  {
    hide Step, CleanQuery, Feed;
    if s == "" {
      FeedNothing(c);
      assert c.out + s == c.out;
      NothingClean();
      assert "/" + s == "/" && "" + s == "";
    } else {
      FeedStep(c, s);
      CleanStep(s[0], s[1..]);
      CleanStep('/', s);
      CleanStep('/', s[1..]);
      assert "" + s == s && "" + s[1..] == s[1..];
      StepRuns(c, s[0]);
      var d := Step(c, s[0]).c;
      StepAdds(c, s[0]);
      FeedAdds(d, s[1..]);
      if |d.out| == |c.out| + 1 {
        CopiesClean(d, s[1..]);
        assert c.out + [s[0]] + s[1..] == c.out + s;
      }
    }
  }

  lemma NothingClean()
    ensures CleanQuery("") && CleanQuery("/")
  {
  }

  lemma StepRuns(c: Config, x: char)
    requires c.state in {Usual, Slash}
    ensures Step(c, x).Running?
  {
  }

  /** If the output's first '?' has all of the input's length behind it, it was there before. */
  lemma {:induction false} FirstQueryStays(c: Config, s: string)
    ensures var out := Feed(c, s).c.out;
            var f := Find(out, '?');
            f < |out| && |out| - f - 1 >= |s| ==> f < |c.out| && out[..f + 1] == c.out[..f + 1]
    decreases |s|
  {
    hide Step, Feed, Find;
    if s == "" {
      FeedNothing(c);
    } else {
      FeedStep(c, s);
      if Step(c, s[0]).BadEscape? {
        StepStops(c, s[0]);
        return;
      }
      var d := Step(c, s[0]).c;
      StepAdds(c, s[0]);
      FeedAdds(d, s[1..]);
      FirstQueryStays(d, s[1..]);
      var out := Feed(d, s[1..]).c.out;
      var f := Find(out, '?');
      if f < |out| && |out| - f - 1 >= |s| {
        assert d.out[..f + 1] == c.out[..f + 1];
      }
    }
  }

  /** Behind a path's text and the '?', the output is some text, '?' and the query as sent if and
      only if the text is the path's and the query is clean. */
  lemma QueryComesThrough(c: Config, path: string, q: string, x: string)
    requires c.state == Usual && c.out == path + "?" && '?' !in path && '?' !in x
    ensures Feed(c, q).c.out == x + "?" + q <==> x == path && CleanQuery(q)
    ensures CleanQuery(q) ==> Feed(c, q).Running?
  {
    hide Feed, CleanQuery;
    CopiesClean(c, q);
    assert "" + q == q;
    if Feed(c, q).c.out == x + "?" + q {
      var out := Feed(c, q).c.out;
      assert out == x + ['?'] + q;
      FindIn(x, '?', q);
      FirstQueryStays(c, q);
      assert path + ['?'] == path + "?";
      FirstMarkAgrees(path, x, out, q);
    }
  }

  lemma FirstMarkAgrees(path: string, x: string, out: string, q: string)
    requires '?' !in path && '?' !in x && out == x + "?" + q
    requires |x| < |path| + 1 && out[..|x| + 1] == (path + "?")[..|x| + 1]
    ensures x == path
  {
    assert out[..|x| + 1][|x|] == '?';
    assert (path + "?")[|x|] == '?';
    assert |x| == |path|;
    assert out[..|x| + 1][..|x|] == x && (path + "?")[..|x| + 1][..|x|] == path;
  }

  /** The transducer behind a well spelled path and its '?'. */
  lemma BehindPath(path: string, q: string) returns (d: Config)
    requires path != "" && path[0] == '/' && WellSpelled(path)
    ensures d.state == Usual && d.out == Output(path) + "?" && Feed(START, path + "?" + q) == Feed(d, q)
  {
    hide Feed, Step, SpellPath, Rendered, ReadPath;
    var p := ReadPath(path[1..]);
    ReadPathSpells(path[1..]);
    SpelledOutput(p.parents, p.last);
    assert path == "/" + SpellPath(p.parents, p.last);
    FeedAppend(START, path, "?" + q);
    var c := Feed(START, path).c;
    assert ("?" + q)[0] == '?' && ("?" + q)[1..] == q;
    FeedStep(c, "?" + q);
    d := Step(c, '?').c;
    AskStep(c);
    assert path + "?" + q == path + ("?" + q);
  }

  lemma AskStep(c: Config)
    requires c.state in {Usual, Slash, Dot, DoubleDot}
    ensures Step(c, '?').Running? && Step(c, '?').c.state == Usual && Step(c, '?').c.out == c.out + "?"
  {
  }

  // -------------------------------------------------- escapes that stand for '?'

  /** No escape of the path stands for `c`. */
  ghost predicate NeverSays(path: string, c: char)
    requires path != ""
  {
    var p := ReadPath(path[1..]);
    ReadPathSpells(path[1..]);
    c !in Decode(p.last) && forall k :: 0 <= k < |p.parents| ==> c !in Decode(p.parents[k])
  }

  lemma {:induction false} KeptOf(seg: Segment, dotRead: bool, c: char)
    requires Valid(seg) && c !in Decode(seg)
    ensures c !in Kept(seg, dotRead)
    decreases |seg|
  {
    if seg != [] {
      assert Decode(seg) == [Meaning(seg[0])] + Decode(seg[1..]);
      KeptOf(seg[1..], dotRead, c);
      KeptOf(seg[1..], true, c);
    }
  }

  lemma EraseOf(out: string, c: char)
    requires c !in out
    ensures c !in EraseLast(out)
  {
  }

  lemma {:induction false} WalkOf(out: string, parents: seq<Segment>, c: char)
    requires c != '/' && c !in out && AllValid(parents) && forall k :: 0 <= k < |parents| ==> c !in Decode(parents[k])
    ensures c !in Walk(out, parents)
    decreases |parents|
  {
    hide Kept, Decode, Bare, EraseLast;
    if parents != [] {
      KeptOf(parents[0], false, c);
      EraseOf(out + Kept(parents[0], false), c);
      WalkOf(Enter(out, parents[0]), parents[1..], c);
    }
  }

  /** Then neither the output nor the meaning says it. */
  lemma NeverSaid(path: string, c: char)
    requires path != "" && c != '/' && NeverSays(path, c)
    ensures c !in Output(path) && c !in MeaningOf(path)
  {
    hide ReadPath, Walk, Kept, Decode, DecodeAll, Directory, Remaining, Rest;
    var p := ReadPath(path[1..]);
    ReadPathSpells(path[1..]);
    WalkOf("/", p.parents, c);
    KeptOf(p.last, false, c);
    RemainingOf(p.parents, p.last, c);
    DirectoryChars(DecodeAll(Remaining(p.parents, p.last)), c);
  }

  lemma RemainingOf(parents: seq<Segment>, last: Segment, c: char)
    requires AllValid(parents) && Valid(last)
    requires c !in Decode(last) && forall k :: 0 <= k < |parents| ==> c !in Decode(parents[k])
    ensures AllValid(Remaining(parents, last)) && Valid(Rest(last)) && c !in Decode(Rest(last))
    ensures forall k :: 0 <= k < |DecodeAll(Remaining(parents, last))| ==> c !in DecodeAll(Remaining(parents, last))[k]
  {
    hide Decode;
    NoneDecoded();
    PushSegmentsSubset([], parents);
    var r := Remaining(parents, last);
    forall k | 0 <= k < |r|
      ensures Valid(r[k]) && c !in Decode(r[k])
    {
      assert r[k] in parents;
    }
  }

  /** With decimal digits an escape stands for no '?', no '/' and no '.', all of which need a letter. */
  lemma DecimalEscapes(hi: char, lo: char)
    requires IsDigit(hi) && IsDigit(lo)
    ensures Meaning(Escape(hi, lo)) !in {'?', '/', '.'}
  {
  }

  // --------------------------------------------------------- when it is looked at

  /** Something between the slashes of the path makes it complex. */
  predicate OddInside(path: string)
    requires path != ""
  {
    var segs := Split(path[1..]);
    exists k :: 0 <= k < |segs| - 1 && OddDirectory(segs[k])
  }

  lemma {:induction false} SplitGlue(a: string, b: string)
    ensures var x, y := Split(a), Split(b);
            Split(a + b) == x[..|x| - 1] + [x[|x| - 1] + y[0]] + y[1..]
    decreases |a|
  {
    hide Split;
    if a == "" {
      assert a + b == b;
      SplitWord("");
      assert [""][..0] == [] && "" + Split(b)[0] == Split(b)[0];
    } else {
      var x, y := Split(a[1..]), Split(b);
      SplitGlue(a[1..], b);
      assert (a + b)[1..] == a[1..] + b;
      SplitStep(a);
      SplitStep(a + b);
      GlueCons(x, y, a[0]);
    }
  }

  lemma GlueCons(x: seq<string>, y: seq<string>, c: char)
    requires x != [] && y != []
    ensures var more := x[..|x| - 1] + [x[|x| - 1] + y[0]] + y[1..];
            var u, v := [""] + x, [[c] + x[0]] + x[1..];
            && [""] + more == u[..|u| - 1] + [u[|u| - 1] + y[0]] + y[1..]
            && [[c] + more[0]] + more[1..] == v[..|v| - 1] + [v[|v| - 1] + y[0]] + y[1..]
  {
    var more := x[..|x| - 1] + [x[|x| - 1] + y[0]] + y[1..];
    if |x| == 1 {
      assert [c] + (x[0] + y[0]) == ([c] + x[0]) + y[0];
    }
  }

  /** Segments of a clean query that stand between slashes are nothing special. */
  lemma {:induction false} CleanDirectories(q: string)
    requires CleanQuery(q)
    ensures forall k :: 0 <= k < |Split(q)| ==> '%' !in Split(q)[k]
    ensures forall k :: 0 < k < |Split(q)| - 1 ==> !OddDirectory(Split(q)[k])
    ensures |Split(q)| > 1 && q != "" && q[0] != '/' && q[0] != '.' ==> !OddDirectory(Split(q)[0])
    decreases |q|
  {
    hide Split, CleanQuery;
    if q == "" {
      SplitWord("");
    } else {
      var c, rest := q[0], q[1..];
      assert q == [c] + rest;
      CleanStep(c, rest);
      SplitStep(q);
      CleanDirectories(rest);
      var more := Split(rest);
      if c == '/' {
        assert Split(q) == [""] + more;
        SplitEmpty(rest);
      } else {
        assert Split(q) == [[c] + more[0]] + more[1..];
        assert Split(q)[0][0] == c;
      }
    }
  }

  lemma SplitEmpty(s: string)
    ensures s == "" ==> |Split(s)| == 1
  {
  }

  /** What the classification of a URL looks at. */
  lemma Looks(verb: Method, url: string, version: Version)
    requires url != ""
    ensures var req := LookedAt(verb, url, version);
            && req.url == url && req.query == "" && (req.isComplex <==> OddInside(url) || '?' in LastSegment(url))
            && (req.isStatic <==> verb != Post && '?' !in LastSegment(url))
  {
    hide Split, OddDirectory;
  }

  /** With a clean query only the path can hold something odd, or the segment the '?' is in an escape. */
  lemma InsideWithQuery(url: string)
    requires url != "" && url[0] == '/' && '?' in url && CleanQuery(QueryOf(url))
    ensures PathOf(url) != ""
    ensures '?' in LastSegment(url) || (OddInside(url) <==> OddInside(PathOf(url)) || '%' in LastSegment(PathOf(url)))
  {
    hide Split, CleanQuery;
    PathAndQueryOf(url);
    var p, q := PathOf(url), QueryOf(url);
    var x, y, z := Split(p[1..]), Split(q), Split("?" + q);
    assert url[1..] == p[1..] + ("?" + q);
    SplitGlue(p[1..], "?" + q);
    assert ("?" + q)[0] == '?' && ("?" + q)[1..] == q;
    SplitStep("?" + q);
    CleanDirectories(q);
    assert z == ["?" + y[0]] + y[1..];
    var segs, n := Split(url[1..]), |x| - 1;
    assert segs == x[..n] + [x[n] + z[0]] + y[1..];
    QuerySegments(x, y, segs);
  }

  lemma QuerySegments(x: seq<string>, y: seq<string>, segs: seq<string>)
    requires x != [] && y != [] && segs == x[..|x| - 1] + [x[|x| - 1] + ("?" + y[0])] + y[1..]
    requires '%' !in y[0] && forall k :: 0 < k < |y| - 1 ==> !OddDirectory(y[k])
    ensures '?' in segs[|segs| - 1]
            || ((exists k :: 0 <= k < |segs| - 1 && OddDirectory(segs[k]))
                <==> (exists k :: 0 <= k < |x| - 1 && OddDirectory(x[k])) || '%' in x[|x| - 1])
  {
    hide OddDirectory;
    var n := |x| - 1;
    if |y| == 1 {
      assert segs[n] == x[n] + ("?" + y[0]);
      assert ("?" + y[0])[0] == '?';
      assert segs[n][|x[n]|] == '?';
    } else {
      MixedSegment(x[n], y[0]);
      assert OddDirectory(segs[n]) <==> '%' in x[n];
      forall k | n < k < |segs| - 1
        ensures !OddDirectory(segs[k])
      {
        assert segs[k] == y[k - n];
      }
      if k :| 0 <= k < n && OddDirectory(x[k]) {
        assert OddDirectory(segs[k]);
      }
    }
  }

  lemma MixedSegment(a: string, b: string)
    requires '%' !in b
    ensures OddDirectory(a + ("?" + b)) <==> '%' in a
  {
    var s := a + ("?" + b);
    assert ("?" + b)[0] == '?';
    assert s[|a|] == '?';
    assert forall i :: |a| < i < |s| ==> s[i] == b[i - |a| - 1] && s[i] in b;
    assert forall i :: 0 <= i < |a| ==> s[i] == a[i];
    if i :| 0 <= i < |a| && a[i] == '%' {
      assert s[i] == '%';
    }
  }

  // ------------------------------------------------------ the request is right

  /** What has to hold of path and query, besides the path's own text. */
  predicate PartsComeThrough(verb: Method, url: string)
    requires url != "" && url[0] == '/'
  {
    PathAndQueryOf(url);
    var p := PathOf(url);
    if '?' in url then
      CleanQuery(QueryOf(url)) && ('?' in LastSegment(url) || (verb == Post && (OddInside(p) || '%' in LastSegment(p))))
    else if OddInside(p) then verb != Post
    else '%' !in LastSegment(p) && !DotSegment(LastSegment(p))
  }

  /** With a query. */
  lemma RightWithQuery(verb: Method, url: string, version: Version, error: ErrorKind)
    requires url != "" && url[0] == '/' && '?' in url && PathOf(url) != "" && NeverSays(PathOf(url), '?')
    ensures Right(verb, url, ResolveUrl(LookedAt(verb, url, version), error))
       <==> WellSpelled(PathOf(url)) && Output(PathOf(url)) == MeaningOf(PathOf(url)) && PartsComeThrough(verb, url)
  {
    hide Feed, Split, CleanQuery, OddInside, Output, MeaningOf, WellSpelled, EscapesAccepted, NeverSays, ResolveUrl, Classify, QueryOf, PathOf;
    PathAndQueryOf(url);
    var p, q := PathOf(url), QueryOf(url);
    NeverSaid(p, '?');
    Looks(verb, url, version);
    Stored(verb, url, version, error);
    UrlOutput(url);
    if CleanQuery(q) {
      InsideWithQuery(url);
    }
    if WellSpelled(p) {
      assert url == p + "?" + q;
      var d := BehindPath(p, q);
      QueryComesThrough(d, Output(p), q, MeaningOf(p));
      var o := ResolveUrl(LookedAt(verb, url, version), error);
      Verdict(verb, url, version, error);
      ResolveCode(LookedAt(verb, url, version), error);
      if '?' !in o.req.url {
        CutOnce(o.req.url, o.req.query, MeaningOf(p), q);
      }
    }
  }

  lemma CutOnce(a: string, b: string, x: string, q: string)
    requires '?' !in a && '?' !in x
    ensures a + "?" + b == x + "?" + q <==> a == x && b == q
  {
    FindIn(a, '?', b);
    FindIn(x, '?', q);
    var s, t := a + "?" + b, x + "?" + q;
    assert s == a + ['?'] + b && t == x + ['?'] + q;
    if s == t {
      assert s[..|a|] == a && s[|a| + 1..] == b;
      assert t[..|x|] == x && t[|x| + 1..] == q;
    }
  }

  // ---------------------------------------------- a path that is stored as sent

  function Lengths(segs: seq<Segment>): nat
  {
    if segs == [] then 0 else |segs[0]| + 1 + Lengths(segs[1..])
  }

  lemma {:induction false} SpellLength(seg: Segment)
    requires Valid(seg)
    ensures |Spell(seg)| >= |seg| && ('%' in Spell(seg) ==> |Spell(seg)| > |seg|)
    decreases |seg|
  {
    if seg != [] {
      SpellLength(seg[1..]);
    }
  }

  lemma {:induction false} PathLength(parents: seq<Segment>, last: Segment)
    requires AllValid(parents) && Valid(last)
    ensures var s := SpellPath(parents, last);
            |s| >= Lengths(parents) + |last| && ('%' in s ==> |s| > Lengths(parents) + |last|)
    decreases |parents|
  {
    hide Spell, Valid;
    if parents == [] {
      SpellLength(last);
    } else {
      SpellLength(parents[0]);
      PathLength(parents[1..], last);
    }
  }

  lemma {:induction false} MeaningLength(stack: seq<Segment>, segs: seq<Segment>)
    requires AllValid(stack) && AllValid(segs)
    ensures AllValid(PushSegments(stack, segs))
    ensures |Directory(DecodeAll(PushSegments(stack, segs)))| <= |Directory(DecodeAll(stack))| + Lengths(segs)
    decreases |segs|
  {
    hide Decode, DecodeAll, Directory, PushSegment;
    if segs != [] {
      PushedLength(stack, segs[0]);
      MeaningLength(PushSegment(stack, segs[0]), segs[1..]);
    }
  }

  lemma PoppedLength(stack: seq<Segment>)
    requires AllValid(stack) && stack != []
    ensures |Directory(DecodeAll(stack[..|stack| - 1]))| <= |Directory(DecodeAll(stack))|
  {
    hide Decode, DecodeAll, Directory;
    var below := stack[..|stack| - 1];
    DecodeAllSnoc(below, stack[|stack| - 1]);
    assert below + [stack[|stack| - 1]] == stack;
  }

  lemma PushedLength(stack: seq<Segment>, seg: Segment)
    requires AllValid(stack) && Valid(seg)
    ensures AllValid(PushSegment(stack, seg))
    ensures |Directory(DecodeAll(PushSegment(stack, seg)))| <= |Directory(DecodeAll(stack))| + |seg| + 1
  {
    hide Decode, DecodeAll, Directory, Valid;
    if IsDotDot(seg) {
      if stack != [] {
        PoppedLength(stack);
      }
    } else if seg != [] && !IsDot(seg) {
      DecodeAllSnoc(stack, seg);
    }
  }

  /** A path with an escape in it is not what it means. */
  lemma EscapedIsShorter(path: string)
    requires path != "" && path[0] == '/' && WellSpelled(path) && '%' in path
    ensures MeaningOf(path) != path
  {
    hide ReadPath, SpellPath, Decode, DecodeAll, Directory, PushSegments, Lengths;
    var p := ReadPath(path[1..]);
    ReadPathSpells(path[1..]);
    var s := SpellPath(p.parents, p.last);
    assert path[1..] == s + "" == s && path == ['/'] + s;
    PathLength(p.parents, p.last);
    RootDirectory();
    NoneDecoded();
    PushSegmentsValid([], p.parents);
    MeaningLength([], p.parents);
    var stack := PushSegments([], p.parents);
    RemainingLength(stack, p.last);
    assert |MeaningOf(path)| <= 1 + Lengths(p.parents) + |p.last|;
  }

  lemma RemainingLength(stack: seq<Segment>, last: Segment)
    requires AllValid(stack) && Valid(last)
    ensures var r := if IsDotDot(last) then PushSegment(stack, last) else stack;
            AllValid(r) && |Directory(DecodeAll(r))| <= |Directory(DecodeAll(stack))| && |Rest(last)| <= |last|
  {
    hide Decode, DecodeAll, Directory, Valid;
    if IsDotDot(last) && stack != [] {
      PoppedLength(stack);
    }
  }

  lemma NoneOdd(path: string)
    requires path != "" && path[0] == '/' && !OddInside(path)
    ensures var segs := Split(path[1..]);
            CleanStack(segs[..|segs| - 1]) && path == Directory(segs[..|segs| - 1]) + LastSegment(path)
            && ('%' in path <==> '%' in LastSegment(path))
  {
    hide Split, Directory;
    var segs := Split(path[1..]);
    var stack, last := segs[..|segs| - 1], segs[|segs| - 1];
    forall k | 0 <= k < |stack|
      ensures !Odd(stack[k]) && '%' !in stack[k]
    {
      assert !OddDirectory(segs[k]);
    }
    SplitDirectory(stack, last);
    assert stack + [last] == segs;
    JoinSplit(path[1..]);
    JoinSplit((Directory(stack) + last)[1..]);
    var d := Directory(stack) + last;
    assert d == [d[0]] + d[1..] && path == [path[0]] + path[1..];
    DirectoryChars(stack, '%');
    if '%' in last {
      var i :| 0 <= i < |last| && last[i] == '%';
      assert d[|Directory(stack)| + i] == '%';
    }
  }

  /** A path that is not looked at is what it means if and only if its last segment is no dot segment
      and has no escape. */
  lemma RawMeaning(path: string)
    requires path != "" && path[0] == '/' && !OddInside(path)
    ensures WellSpelled(path) && MeaningOf(path) == path <==> '%' !in LastSegment(path) && !DotSegment(LastSegment(path))
  {
    hide Split, Directory, ReadPath, MeaningOf, PushAll;
    NoneOdd(path);
    if '%' in path {
      if WellSpelled(path) {
        EscapedIsShorter(path);
      }
    } else {
      IntendedIsNormalize(path);
      MeaningIs(path);
      var segs, last := Split(path[1..]), LastSegment(path);
      var stack, rest := NormalForm(path);
      RenderedIsNormal(stack, rest);
      if !DotSegment(last) {
        RenderedIsNormal(segs[..|segs| - 1], last);
      }
    }
  }

  lemma MeaningIs(path: string)
    requires path != ""
    ensures var p := ReadPath(path[1..]); ValidPath(p) && MeaningOf(path) == Intended(p.parents, p.last)
  {
    hide ReadPath, Intended;
    ReadPathSpells(path[1..]);
  }

  lemma RightWithoutQuery(verb: Method, url: string, version: Version, error: ErrorKind)
    requires url != "" && url[0] == '/' && '?' !in url && NeverSays(url, '?')
    ensures PathOf(url) == url
    ensures Right(verb, url, ResolveUrl(LookedAt(verb, url, version), error))
       <==> WellSpelled(url) && PartsComeThrough(verb, url) && (OddInside(url) ==> Output(url) == MeaningOf(url))
  {
    hide Feed, Split, OddInside, Output, MeaningOf, WellSpelled, EscapesAccepted, NeverSays, ResolveUrl, Classify, ReadPath;
    PathAndQueryOf(url);
    FindNone(url, '?');
    assert url[..|url|] == url;
    Looks(verb, url, version);
    LastOf(url, '?');
    NeverSaid(url, '?');
    Stored(verb, url, version, error);
    UrlOutput(url);
    Verdict(verb, url, version, error);
    ResolveCode(LookedAt(verb, url, version), error);
    if !OddInside(url) {
      RawMeaning(url);
    }
    if WellSpelled(url) {
      WholeAccepted(url);
    }
  }

  lemma WholeAccepted(url: string)
    requires url != "" && WellSpelled(url)
    ensures EscapesAccepted(url)
  {
  }

  lemma LastOf(url: string, c: char)
    requires url != "" && c !in url
    ensures c !in LastSegment(url)
  {
    hide Split;
    var front := SplitLast(url[1..]);
    var last := LastSegment(url);
    assert url[1..] == front + last;
    assert forall i :: 0 <= i < |last| ==> last[i] == url[1 + |front| + i];
  }

  /** The request is right if and only if every escape of the path is one, the query is left alone,
      and, where the URL is looked at, the path's text comes out as it is meant. */
  lemma RightExactly(verb: Method, url: string, version: Version, error: ErrorKind)
    requires url != "" && url[0] == '/' && PathOf(url) != "" && NeverSays(PathOf(url), '?')
    ensures var p := PathOf(url);
            Right(verb, url, ResolveUrl(LookedAt(verb, url, version), error))
            <==> WellSpelled(p) && PartsComeThrough(verb, url) && ('?' in url || OddInside(p) ==> Output(p) == MeaningOf(p))
  {
    hide Right, Output, MeaningOf, WellSpelled, OddInside, NeverSays, PartsComeThrough, ResolveUrl, Classify, Find;
    if '?' in url {
      RightWithQuery(verb, url, version, error);
    } else {
      FindNone(url, '?');
      assert url[..|url|] == url;
      RightWithoutQuery(verb, url, version, error);
    }
  }

  // ------------------------------------------------------------- without '%'

  lemma {:induction false} SplitOf(s: string, c: char)
    requires c !in s
    ensures forall k :: 0 <= k < |Split(s)| ==> c !in Split(s)[k]
    decreases |s|
  {
    hide Split;
    SplitWord("");
    if s != "" {
      assert s == [s[0]] + s[1..];
      SplitOf(s[1..], c);
      SplitStep(s);
    }
  }

  lemma PlainNeverSays(path: string, c: char)
    requires path != "" && '%' !in path && c !in path
    ensures NeverSays(path, c) && WellSpelled(path)
  {
    hide ReadPath, Split, Decode, DecodeAll, NoEscapes;
    assert forall x :: x in path[1..] ==> x in path;
    PlainPath(path[1..]);
    SplitOf(path[1..], c);
    var p, segs := ReadPath(path[1..]), Split(path[1..]);
    ReadPathSpells(path[1..]);
    var all := DecodeAll(p.parents) + [Decode(p.last)];
    assert all == segs && all[|p.parents|] == Decode(p.last);
    forall k | 0 <= k < |p.parents|
      ensures c !in Decode(p.parents[k])
    {
      assert all[k] == DecodeAll(p.parents)[k];
    }
  }

  /** Without '%': the request is right if and only if the query is left alone and, where the URL is
      looked at, the path is safe. Here the meaning is the normal form of the path. */
  lemma PlainRight(verb: Method, url: string, version: Version, error: ErrorKind)
    requires url != "" && url[0] == '/' && '%' !in url
    ensures var p := PathOf(url);
            && p != "" && MeaningOf(p) == Normalize(p)
            && (Right(verb, url, ResolveUrl(LookedAt(verb, url, version), error))
                <==> PartsComeThrough(verb, url) && ('?' in url || OddInside(p) ==> DotSafe(p)))
  {
    hide Right, Feed, Output, MeaningOf, WellSpelled, OddInside, NeverSays, PartsComeThrough, ResolveUrl, Classify, DotSafe, Normalize, Intended, ReadPath;
    PathAndQueryOf(url);
    var p := PathOf(url);
    assert '%' !in p;
    PlainNeverSays(p, '?');
    RightExactly(verb, url, version, error);
    TransducerIsNormalize(p);
    UrlOutput(p);
    IntendedIsNormalize(p);
    MeaningIs(p);
  }

  lemma PlainSpelled(url: string)
    requires url != "" && url[0] == '/' && '%' !in url
    ensures PathOf(url) != "" && WellSpelled(PathOf(url))
  {
    hide ReadPath;
    PathAndQueryOf(url);
    IntendedIsNormalize(PathOf(url));
  }
}
