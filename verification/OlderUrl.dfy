/** What HttpRequestParser makes of the URL of an accepted line. */
module OlderUrl {
  // The automaton's flags and the transducer together, and when what is left is what was sent.

  import opened Text
  import opened HttpMessage
  import opened ComplexUrl
  import opened SpelledUrl
  import opened PathAndQuery
  import opened RequestLine
  import opened HttpRequestParser

  /** The flags the automaton has set behind a URL token. */
  function Flags(verb: Method, token: string): Auto
    requires token != ""
  {
    PathFold(INITIAL.(state := AfterSlashInUrl, isStatic := verb != Post), token[1..])
  }

  /** The URL and the static flag the parser keeps. */
  function Taken(verb: Method, token: string): (string, bool)
    requires token != ""
  {
    var flags := Flags(verb, token);
    if !flags.isComplex then (token, flags.isStatic) else
    var c := Feed(START, token).c;
    (c.out, flags.isStatic && !c.query)
  }

  /** That is what a call on an accepted line leaves. */
  lemma LineTaken(s: string, k: Marks)
    requires IsRequestLine(s, k)
    ensures k.path < k.pathEnd <= |s| && s[k.path..k.pathEnd] != "" && s[k.path..k.pathEnd][0] == '/' && k.verbEnd <= |s|
    ensures var (r, st) := LineCall(FRESH_STATE, s);
            r == ResultComplete && (st.url, st.auto.isStatic) == Taken(MethodOf(s[..k.verbEnd]), s[k.path..k.pathEnd])
  {
    hide Run, PathFold, MethodOf, Feed, IsMethod, IsVersion, Number;
    AcceptsGrammar(s, k);
    MarksOrdered(s, k);
    TokenSlice(s, k);
    assert Restarted(INITIAL) == INITIAL;
  }

  lemma TokenSlice(s: string, k: Marks)
    requires IsRequestLine(s, k)
    ensures k.verbEnd <= |s| && k.path < k.pathEnd <= |s| && s[k.path..k.pathEnd][0] == '/'
    ensures s[k.path..k.pathEnd][1..] == s[k.path + 1..k.pathEnd]
  {
    hide MethodOf, IsVersion;
  }

  // ------------------------------------------------------- the automaton's flags

  predicate DotAt(t: string, i: int)
  {
    0 < i < |t| && t[i - 1] == '/' && t[i] == '.'
  }

  /** No escape and no segment that begins with a dot: the automaton still looks for a '?' behind it. */
  predicate StillLooking(t: string)
  {
    '%' !in t && forall i :: 0 < i < |t| ==> !DotAt(t, i)
  }

  function Before(state: LineState): string
  {
    if state == AfterSlashInUrl then "/" else ""
  }

  lemma LookingStep(c: char, t: string)
    ensures StillLooking([c] + t) <==> c != '%' && StillLooking(t) && (c == '/' && t != "" ==> t[0] != '.')
  {
    var s := [c] + t;
    assert forall i :: 0 < i < |t| ==> (DotAt(s, i + 1) <==> DotAt(t, i));
    if StillLooking(s) {
      assert forall x :: x in t ==> x in s;
      assert |t| > 0 ==> !DotAt(s, 1);
      forall i | 0 < i < |t|
        ensures !DotAt(t, i)
      {
        assert !DotAt(s, i + 1);
      }
    } else if '%' !in s {
      var i :| 0 < i < |s| && DotAt(s, i);
      assert i > 1 ==> DotAt(t, i - 1);
    }
  }

  lemma {:induction false} FoldStays(a: Auto, w: string)
    requires a.state == Url
    ensures PathFold(a, w) == a
    decreases |w|
  {
    if w != "" {
      FoldStays(a, w[1..]);
    }
  }

  lemma FoldStep(a: Auto, w: string)
    requires a.state in {AfterSlashInUrl, CheckUrl, Url} && w != ""
    ensures PathStep(a, w[0]).state in {AfterSlashInUrl, CheckUrl, Url}
    ensures PathFold(a, w) == PathFold(PathStep(a, w[0]), w[1..])
    ensures w == [w[0]] + w[1..]
  {
  }

  /** Over text without '?' the automaton leaves off looking, and calls the URL complex, exactly at
      what these predicates say. */
  lemma {:induction false} FoldFlags(a: Auto, w: string)
    requires a.state in {AfterSlashInUrl, CheckUrl} && '?' !in w
    ensures var b := PathFold(a, w);
            && (b.state == Url <==> !StillLooking(Before(a.state) + w))
            && (b.isComplex <==> a.isComplex || !CleanQuery(Before(a.state) + w)) && b.isStatic == a.isStatic
    decreases |w|
  {
    hide PathFold, PathStep, StillLooking, CleanQuery;
    if w == "" {
      NothingLooked(a);
    } else {
      var c, rest := w[0], w[1..];
      FoldStep(a, w);
      assert w == [c] + rest && '?' !in rest;
      FlagsStep(a, c);
      LookingStep(c, rest);
      LookingStep('/', w);
      LookingStep('/', rest);
      CleanStep(c, rest);
      CleanStep('/', w);
      CleanStep('/', rest);
      assert "" + w == w && "" + rest == rest;
      var b := PathStep(a, c);
      if b.state == Url {
        FoldStays(b, rest);
      } else {
        FoldFlags(b, rest);
      }
    }
  }

  lemma NothingLooked(a: Auto)
    requires a.state in {AfterSlashInUrl, CheckUrl}
    ensures PathFold(a, "") == a && StillLooking(Before(a.state) + "") && CleanQuery(Before(a.state) + "")
  {
  }

  lemma FlagsStep(a: Auto, c: char)
    requires a.state in {AfterSlashInUrl, CheckUrl} && c != '?'
    ensures var b := PathStep(a, c);
            && b.isStatic == a.isStatic && b.state in {AfterSlashInUrl, CheckUrl, Url}
            && (b.state == Url <==> c == '%' || (a.state == AfterSlashInUrl && c == '.'))
            && (b.state == AfterSlashInUrl <==> c == '/')
            && (b.isComplex <==> a.isComplex || c == '%' || (a.state == AfterSlashInUrl && (c == '.' || c == '/')))
  {
  }

  lemma {:induction false} FoldAppend(a: Auto, v: string, w: string)
    requires a.state in {AfterSlashInUrl, CheckUrl, Url}
    ensures PathFold(a, v + w) == PathFold(PathFold(a, v), w)
    decreases |v|
  {
    hide PathStep;
    if v == "" {
      assert v + w == w;
    } else {
      FoldStep(a, v);
      FoldStep(a, v + w);
      assert (v + w)[1..] == v[1..] + w;
      FoldAppend(PathStep(a, v[0]), v[1..], w);
    }
  }

  lemma AskFold(a: Auto)
    requires a.state in {AfterSlashInUrl, CheckUrl, Url}
    ensures PathFold(a, "?") == if a.state == Url then a else a.(state := Url, isComplex := true, isStatic := false)
  {
    assert "?"[1..] == "";
  }

  lemma CleanLooks(t: string)
    requires CleanQuery(t)
    ensures StillLooking(t)
  {
    assert forall i :: 0 < i < |t| && DotAt(t, i) ==> DroppedAt(t, i);
  }

  /** The flags of a whole token. */
  lemma FlagsOf(verb: Method, token: string)
    requires token != "" && token[0] == '/'
    ensures var p, flags := PathOf(token), Flags(verb, token);
            && p != "" && (flags.isComplex <==> '?' in token || !CleanQuery(token))
            && (flags.isStatic <==> verb != Post && ('?' in token ==> !StillLooking(p)))
  {
    hide PathFold, StillLooking, CleanQuery, Find;
    PathAndQueryOf(token);
    var p, q := PathOf(token), QueryOf(token);
    var a := INITIAL.(state := AfterSlashInUrl, isStatic := verb != Post);
    assert "/" + p[1..] == p;
    FoldFlags(a, p[1..]);
    if '?' in token {
      assert token[1..] == p[1..] + ("?" + q);
      FoldAppend(a, p[1..], "?" + q);
      var b := PathFold(a, p[1..]);
      FoldAppend(b, "?", q);
      AskFold(b);
      FoldStays(PathFold(b, "?"), q);
      if CleanQuery(p) {
        CleanLooks(p);
      }
    } else {
      assert token == p;
    }
  }

  // ------------------------------------------------------- the transducer's flag

  lemma QueryStep(c: Config, x: char)
    requires Step(c, x).Running?
    ensures Step(c, x).c.query <==> c.query || (c.state == Usual && x == '?')
  {
    hide EscapeDigit;
  }

  lemma {:induction false} NoQuery(c: Config, s: string)
    requires '?' !in s
    ensures Feed(c, s).c.query == c.query
    decreases |s|
  {
    hide Step;
    if s != "" {
      FeedStep(c, s);
      if Step(c, s[0]).Running? {
        QueryStep(c, s[0]);
        NoQuery(Step(c, s[0]).c, s[1..]);
      } else {
        StepStops(c, s[0]);
      }
    }
  }

  predicate AskedAt(t: string, i: int)
  {
    0 <= i < |t| && t[i] == '?' && (i == 0 || t[i - 1] != '/')
  }

  /** A '?' that is not right behind a '/'. */
  predicate Asks(t: string)
  {
    exists i :: 0 <= i < |t| && AskedAt(t, i)
  }

  lemma AsksStep(c: char, t: string)
    requires c != '/'
    ensures Asks([c] + t) <==> c == '?' || Asks(t)
    ensures Asks("/" + ([c] + t)) <==> Asks(t)
  {
    var s := [c] + t;
    var u := "/" + s;
    assert forall i :: 0 < i < |s| ==> (AskedAt(s, i) <==> AskedAt(t, i - 1));
    assert forall i :: 1 < i < |u| ==> (AskedAt(u, i) <==> AskedAt(t, i - 2));
    assert (AskedAt(s, 0) <==> c == '?') && !AskedAt(u, 0) && !AskedAt(u, 1);
    if i :| 0 <= i < |t| && AskedAt(t, i) {
      assert AskedAt(s, i + 1) && AskedAt(u, i + 2);
    }
  }

  lemma NothingAsked()
    ensures !Asks("") && !Asks("/")
  {
  }

  /** Over clean text the transducer notices exactly these. */
  lemma {:induction false} CleanAsks(c: Config, s: string)
    requires c.state in {Usual, Slash} && CleanQuery(Behind(c.state) + s)
    ensures Feed(c, s).c.query <==> c.query || Asks(Behind(c.state) + s)
    decreases |s|
  {
    hide Step, CleanQuery, Feed, Asks;
    if s == "" {
      FeedNothing(c);
      NothingAsked();
      assert "/" + s == "/" && "" + s == "";
    } else {
      var x, rest := s[0], s[1..];
      FeedStep(c, s);
      assert s == [x] + rest && "" + s == s && "" + rest == rest;
      CleanStep(x, rest);
      CleanStep('/', s);
      CleanStep('/', rest);
      StepRuns(c, x);
      StepAdds(c, x);
      QueryStep(c, x);
      var d := Step(c, x).c;
      CleanAsks(d, rest);
      if x != '/' {
        AsksStep(x, rest);
      }
    }
  }

  /** What a path's last segment leaves the transducer in is the state in which it notices a '?'. */
  predicate EndsInText(path: string)
    requires path != ""
  {
    var bare := Bare(ReadPath(path[1..]).last);
    bare != "" && bare != "." && bare != ".."
  }

  /** Somebody notices that there is a query. */
  predicate Noticed(path: string, q: string)
    requires path != ""
  {
    StillLooking(path) || EndsInText(path) || Asks(q)
  }

  /** Path and query of a token through the transducer. */
  lemma BehindPathFlag(path: string, q: string) returns (d: Config)
    requires path != "" && path[0] == '/' && WellSpelled(path) && '?' !in path
    ensures d.state == Usual && d.out == Output(path) + "?" && (d.query <==> EndsInText(path))
    ensures Feed(START, path + "?" + q) == Feed(d, q)
  {
    hide Feed, Step, SpellPath, Rendered, ReadPath;
    var p := ReadPath(path[1..]);
    ReadPathSpells(path[1..]);
    SpelledOutput(p.parents, p.last);
    assert path == "/" + SpellPath(p.parents, p.last);
    NoQuery(START, path);
    FeedAppend(START, path, "?" + q);
    var c := Feed(START, path).c;
    assert ("?" + q)[0] == '?' && ("?" + q)[1..] == q;
    FeedStep(c, "?" + q);
    d := Step(c, '?').c;
    AskStep(c);
    QueryStep(c, '?');
    assert path + "?" + q == path + ("?" + q);
  }

  // -------------------------------------------------------- what was sent is kept

  /** The URL is the path as it is meant with the query as sent behind it, and the static flag is set
      exactly for a request that is no POST and has no query. */
  predicate RightlyTaken(verb: Method, token: string, taken: (string, bool))
    requires token != "" && token[0] == '/'
  {
    PathAndQueryOf(token);
    && WellSpelled(PathOf(token))
    && taken.0 == MeaningOf(PathOf(token)) + (if '?' in token then "?" + QueryOf(token) else "")
    && (taken.1 <==> verb != Post && '?' !in token)
  }

  lemma TakenWithQuery(verb: Method, token: string)
    requires token != "" && token[0] == '/' && '?' in token && PathOf(token) != "" && NeverSays(PathOf(token), '?')
    ensures var p, q := PathOf(token), QueryOf(token);
            RightlyTaken(verb, token, Taken(verb, token))
            <==> WellSpelled(p) && Output(p) == MeaningOf(p) && CleanQuery(q) && (verb == Post || Noticed(p, q))
  {
    hide Feed, Flags, Output, MeaningOf, WellSpelled, EndsInText, StillLooking, Asks, CleanQuery, NeverSays, PathOf, QueryOf;
    PathAndQueryOf(token);
    var p, q := PathOf(token), QueryOf(token);
    FlagsOf(verb, token);
    NeverSaid(p, '?');
    if WellSpelled(p) {
      assert token == p + "?" + q;
      var d := BehindPathFlag(p, q);
      QueryComesThrough(d, Output(p), q, MeaningOf(p));
      assert MeaningOf(p) + "?" + q == MeaningOf(p) + ("?" + q);
      assert "" + q == q;
      if CleanQuery(q) {
        CleanAsks(d, q);
      }
    }
  }

  lemma TakenWithoutQuery(verb: Method, token: string)
    requires token != "" && token[0] == '/' && '?' !in token
    ensures PathOf(token) == token
    ensures RightlyTaken(verb, token, Taken(verb, token)) <==> WellSpelled(token) && Output(token) == MeaningOf(token)
  {
    hide Feed, Flags, Output, MeaningOf, WellSpelled, CleanQuery, Find;
    PathAndQueryOf(token);
    FindNone(token, '?');
    assert token[..|token|] == token;
    FlagsOf(verb, token);
    UrlOutput(token);
    NoQuery(START, token);
    assert MeaningOf(token) + "" == MeaningOf(token);
    if CleanQuery(token) {
      CopiesClean(START, token);
      assert "" + token == token;
    }
  }

  /** The older parser keeps what was sent if and only if the path's escapes are complete and the path
      comes out as it is meant, the query is left alone, and, unless it is a POST, the automaton or the
      transducer notices that there is a query. */
  lemma TakenExactly(verb: Method, token: string)
    requires token != "" && token[0] == '/' && PathOf(token) != "" && NeverSays(PathOf(token), '?')
    ensures var p, q := PathOf(token), QueryOf(token);
            RightlyTaken(verb, token, Taken(verb, token))
            <==> WellSpelled(p) && Output(p) == MeaningOf(p)
                 && ('?' in token ==> CleanQuery(q) && (verb == Post || Noticed(p, q)))
  {
    hide RightlyTaken, Taken, Output, MeaningOf, WellSpelled, Noticed, CleanQuery, NeverSays, Find;
    if '?' in token {
      TakenWithQuery(verb, token);
    } else {
      TakenWithoutQuery(verb, token);
    }
  }

  /** Without '%' the path comes out as it is meant if and only if it is safe. */
  lemma PlainTaken(verb: Method, token: string)
    requires token != "" && token[0] == '/' && '%' !in token
    ensures var p, q := PathOf(token), QueryOf(token);
            && p != "" && MeaningOf(p) == Normalize(p)
            && (RightlyTaken(verb, token, Taken(verb, token))
                <==> DotSafe(p) && ('?' in token ==> CleanQuery(q) && (verb == Post || Noticed(p, q))))
  {
    hide RightlyTaken, Taken, Feed, Output, MeaningOf, WellSpelled, Noticed, CleanQuery, NeverSays, DotSafe, Normalize, Intended, ReadPath;
    PathAndQueryOf(token);
    var p := PathOf(token);
    assert '%' !in p;
    PlainNeverSays(p, '?');
    TakenExactly(verb, token);
    TransducerIsNormalize(p);
    UrlOutput(p);
    IntendedIsNormalize(p);
    MeaningIs(p);
  }

  /** A dot behind a '/' ends the automaton's search, and the transducer does not look right behind a
      '/': a GET of "/./?x" counts as static. */
  lemma QueryUnnoticed()
    ensures Taken(Get, "/./?x") == ("/?x", true) && !RightlyTaken(Get, "/./?x", Taken(Get, "/./?x"))
  {
    hide Flags, StillLooking, CleanQuery, WellSpelled, MeaningOf, Feed, Find;
    var token := "/./?x";
    DotRead();
    assert token == "/./" + ['?'] + "x";
    FindIn("/./", '?', "x");
    assert token[..3] == "/./" && token[3] == '?';
    FlagsOf(Get, token);
    assert !StillLooking("/./") by {
      DotInFront();
    }
  }

  lemma DotInFront()
    ensures !StillLooking("/./")
  {
    assert DotAt("/./", 1);
  }

  lemma DotRead()
    ensures var o := Feed(START, "/./?x"); o.c.out == "/?x" && !o.c.query
  {
    hide Feed;
    var token := "/./?x";
    assert token[1..] == "./?x" && "./?x"[1..] == "/?x" && "/?x"[1..] == "?x" && "?x"[1..] == "x" && "x"[1..] == "";
    FeedStep(START, token);
    var a := Step(START, '/').c;
    FeedStep(a, "./?x");
    var b := Step(a, '.').c;
    FeedStep(b, "/?x");
    var c := Step(b, '/').c;
    FeedStep(c, "?x");
    var d := Step(c, '?').c;
    FeedStep(d, "x");
    FeedNothing(Step(d, 'x').c);
  }
}
