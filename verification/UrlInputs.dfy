/** Three URLs that HttpParser does not store as they were sent, or only by chance: one whose
    query is taken for directories, one whose escape is never looked at, and one in which an
    escaped '?' takes the place of the real one. What each is stored as is worked out from its
    segments. */
module UrlInputs {
  import opened Text
  import opened HttpMessage
  import opened HttpParser
  import opened ComplexUrl
  import opened SpelledUrl
  import opened StoredUrl
  import opened PathAndQuery

  /** Between slashes "..", also behind the '?', takes away what is in front: a GET of "/a/?x/../b"
      is stored as the static path "/a/b" without a query. */
  lemma QueryRewritten(version: Version, error: ErrorKind)
    ensures var url := "/a/?x/../b";
            var o := ResolveUrl(LookedAt(Get, url, version), error);
            && o.code == Good && o.req.url == "/a/b" && o.req.query == "" && o.req.isStatic
            && PathOf(url) == "/a/" && QueryOf(url) == "x/../b" && !Right(Get, url, o)
  {
    hide *;
    var url := "/a/?x/../b";
    QueryParts();
    QueryLooks(version);
    QueryOutput();
    StaticStored(Get, url, version, error);
    RightParts(Get, url, ResolveUrl(LookedAt(Get, url, version), error));
  }

  lemma QueryParts()
    ensures PathOf("/a/?x/../b") == "/a/" && QueryOf("/a/?x/../b") == "x/../b"
  {
    hide Find;
    var url := "/a/?x/../b";
    assert url == "/a/" + ['?'] + "x/../b";
    FindIn("/a/", '?', "x/../b");
    assert url[..3] == "/a/" && url[4..] == "x/../b" && url[3] == '?';
  }

  lemma QueryLooks(version: Version)
    ensures var req := LookedAt(Get, "/a/?x/../b", version); req.isComplex && req.isStatic
  {
    hide Split, Classify;
    QuerySplit();
    Looks(Get, "/a/?x/../b", version);
    assert ["a", "?x", "..", "b"][2] == "..";
  }

  lemma QueryOutput()
    ensures Output("/a/?x/../b") == "/a/b" && EscapesAccepted("/a/?x/../b")
  {
    hide Split, PushAll, Feed, Output, CleanStack, Coded, EscapesAccepted;
    QuerySplit();
    assert ["a", "?x", "..", "b"][..3] == ["a", "?x", ".."];
    QueryStack();
    CodedTwo();
    TransducerOutput("/a/?x/../b");
    UrlOutput("/a/?x/../b");
  }

  /** What is stored for a static request that is looked at. */
  lemma StaticStored(verb: Method, url: string, version: Version, error: ErrorKind)
    requires url != "" && url[0] == '/' && verb != Post && LookedAt(verb, url, version).isStatic
    ensures var req := LookedAt(verb, url, version);
            var o := ResolveUrl(req, error);
            o.code == Good && o.req == if req.isComplex && EscapesAccepted(url) then req.(url := Output(url)) else req
    ensures LookedAt(verb, url, version).query == ""
  {
    hide ResolveUrl, EscapesAccepted, Output, Split, OddDirectory;
    Looks(verb, url, version);
    Stored(verb, url, version, error);
    Verdict(verb, url, version, error);
    ResolveCode(LookedAt(verb, url, version), error);
  }

  lemma RightParts(verb: Method, url: string, o: LineOutcome)
    requires url != "" && url[0] == '/'
    ensures Right(verb, url, o) ==> o.req.query == QueryOf(url)
  {
    hide MeaningOf, WellSpelled, Find;
  }

  lemma QuerySplit()
    ensures Split("a/?x/../b") == ["a", "?x", "..", "b"] && "/a/?x/../b"[1..] == "a/?x/../b"
  {
    hide Split;
    SplitWord("a");
    SplitWord("?x");
    SplitWord("..");
    SplitWord("b");
    SplitAppend("..", "b");
    SplitAppend("?x", ".." + "/" + "b");
    SplitAppend("a", "?x" + "/" + (".." + "/" + "b"));
    assert "a" + "/" + ("?x" + "/" + (".." + "/" + "b")) == "a/?x/../b";
  }

  lemma QueryStack()
    ensures PushAll([], ["a", "?x", ".."]) == ["a"]
  {
    var segs := ["a", "?x", ".."];
    assert segs[1..] == ["?x", ".."] && ["?x", ".."][1..] == [".."] && [".."][1..] == [];
    assert Push([], "a") == ["a"] && Push(["a"], "?x") == ["a", "?x"] && Push(["a", "?x"], "..") == ["a"];
  }

  lemma CodedTwo()
    ensures CleanStack(["a"]) && Coded(["a"], "b") == "/a/b"
  {
    assert ["a"][..0] == [];
    assert Stripped(["a"]) == ["a"];
  }

  /** An escape only behind the last '/' is not looked at: "/%41" is stored as it is and means "/A". */
  lemma EscapeKeptRaw(version: Version, error: ErrorKind)
    ensures var url := "/%41";
            var o := ResolveUrl(LookedAt(Get, url, version), error);
            && o.code == Good && o.req.url == url && PathOf(url) == url && MeaningOf(url) == "/A" && !Right(Get, url, o)
  {
    hide *;
    var url := "/%41";
    assert url[1..] == "%41";
    FindNone(url, '?');
    PathIsAll(url);
    EscapeLooks(version);
    StaticStored(Get, url, version, error);
    LetterRead();
    MeaningIs(url);
    UrlOfRight(Get, url, ResolveUrl(LookedAt(Get, url, version), error));
  }

  lemma PathIsAll(url: string)
    requires Find(url, '?') == |url|
    ensures PathOf(url) == url
  {
    hide Find;
  }

  lemma EscapeLooks(version: Version)
    ensures var req := LookedAt(Get, "/%41", version); !req.isComplex && req.isStatic && req.url == "/%41"
  {
    hide Split, Classify;
    assert "/%41"[1..] == "%41";
    SplitWord("%41");
    Looks(Get, "/%41", version);
  }

  lemma UrlOfRight(verb: Method, url: string, o: LineOutcome)
    requires url != "" && url[0] == '/' && PathOf(url) == url
    ensures Right(verb, url, o) ==> o.req.url == MeaningOf(url)
  {
    hide MeaningOf, WellSpelled, Find;
  }

  lemma LetterRead()
    ensures var last: Segment := [Escape('4', '1')];
            ReadPath("%41") == Path([], last, "") && Valid(last) && Intended([], last) == "/A"
  {
    hide ReadPath;
    var last: Segment := [Escape('4', '1')];
    ReadsBack([], last);
    assert Spell(last) == "%41" + "" == "%41";
    RootDirectory();
    assert Decode(last) == "A" + "";
  }

  // ----------------------------------------- why no escape may stand for '?'

  lemma {:induction false} OnlyEscapes(seg: Segment)
    requires Valid(seg) && forall k :: 0 <= k < |seg| ==> seg[k].Escape?
    ensures Bare(seg) == "" && Kept(seg, false) == Decode(seg)
  {
    if seg != [] {
      OnlyEscapes(seg[1..]);
    }
  }

  const MARK := Escape('6', 0x16 as char)
  const SLASH := Escape('5', 0x16 as char)
  const DOT := Escape('5', 0x15 as char)
  const CHANCE: Segment := [MARK, SLASH, DOT, DOT, SLASH]
  const UP: Segment := [Plain('.'), Plain('.')]
  const UP_MARK: Segment := [Plain('.'), Plain('.'), Plain('?')]
  const LAST_MARK: Segment := [Plain('?')]

  lemma ChanceTokens()
    ensures ValidToken(MARK) && Meaning(MARK) == '?' && ValidToken(SLASH) && Meaning(SLASH) == '/' && ValidToken(DOT) && Meaning(DOT) == '.'
  {
    assert OrBit5(0x16 as char) == 0x36 && OrBit5(0x15 as char) == 0x35;
    assert EscapeDigit('6') == Some(6) && EscapeDigit('5') == Some(5);
    assert EscapeDigit(0x16 as char) == Some(-33) && EscapeDigit(0x15 as char) == Some(-34);
  }

  lemma DecodeOne(t: Token, seg: Segment)
    requires ValidToken(t) && Valid(seg)
    ensures Valid([t] + seg) && Decode([t] + seg) == [Meaning(t)] + Decode(seg)
  {
    assert ([t] + seg)[1..] == seg;
  }

  lemma ChanceDecodes()
    ensures Valid(CHANCE) && Decode(CHANCE) == "?/../" && Bare(CHANCE) == "" && Kept(CHANCE, false) == "?/../"
  {
    hide Meaning, ValidToken, Decode, Valid, Bare, Kept;
    ChanceTokens();
    NoneDecoded();
    EmptyValid();
    DecodeOne(SLASH, []);
    DecodeOne(DOT, [SLASH] + []);
    DecodeOne(DOT, [DOT] + ([SLASH] + []));
    DecodeOne(SLASH, [DOT] + ([DOT] + ([SLASH] + [])));
    DecodeOne(MARK, [SLASH] + ([DOT] + ([DOT] + ([SLASH] + []))));
    assert CHANCE == [MARK] + ([SLASH] + ([DOT] + ([DOT] + ([SLASH] + []))));
    assert Decode(CHANCE) == "?" + ("/" + ("." + ("." + ("/" + ""))));
    OnlyEscapes(CHANCE);
  }

  lemma EmptyValid()
    ensures Valid([])
  {
  }

  lemma ChanceDots()
    ensures Valid(UP) && Kept(UP, false) == "" && Bare(UP) == ".." && IsDotDot(UP)
    ensures Valid(UP_MARK) && Kept(UP_MARK, false) == "?" && Bare(UP_MARK) == "..?"
    ensures Valid(LAST_MARK) && Kept(LAST_MARK, false) == "?"
  {
    DotDotKept();
    DotDotBare();
    assert UP_MARK[1..] == [Plain('.'), Plain('?')] && [Plain('.'), Plain('?')][1..] == [Plain('?')] && [Plain('?')][1..] == [];
    assert Decode(LAST_MARK) == "?" + "";
    assert Bare(LAST_MARK) == "?" + "" && Bare([Plain('.'), Plain('?')]) == ".?";
  }

  /** The path alone comes out as "/?/../" and means "/". */
  lemma ChancePath()
    ensures Valid(CHANCE) && Valid(UP) && Rendered([CHANCE], UP) == "/?/../" && Intended([CHANCE], UP) == "/"
  {
    hide Decode, Kept, Bare, Directory;
    ChanceDecodes();
    ChanceDots();
    assert [CHANCE][1..] == [];
    assert Enter("/", CHANCE) == "/" + "?/../";
    assert Walk("/", [CHANCE]) == Walk("/?/../", []);
    assert PushSegments([], [CHANCE]) == PushSegments(PushSegment([], CHANCE), []) == [CHANCE];
    assert PushSegment([CHANCE], UP) == [];
    NoneDecoded();
    RootDirectory();
  }

  lemma EraseChance()
    ensures EraseLast("/?/../?/") == "/?/../"
  {
    var out := "/?/../?/";
    assert out[5] == '/' && out[6] == '?';
    assert RFind(out, '/', 6) == 5;
  }

  /** The whole URL comes out as "/?/../?". */
  lemma ChanceUrl()
    ensures AllValid([CHANCE, UP_MARK, UP]) && Valid(LAST_MARK) && Rendered([CHANCE, UP_MARK, UP], LAST_MARK) == "/?/../?"
  {
    hide Decode, Kept, Bare, EraseLast, Valid;
    ChanceDecodes();
    ChanceDots();
    EraseChance();
    var segs := [CHANCE, UP_MARK, UP];
    assert segs[1..] == [UP_MARK, UP] && [UP_MARK, UP][1..] == [UP] && [UP][1..] == [];
    assert Enter("/", CHANCE) == "/" + "?/../" == "/?/../";
    assert Enter("/?/../", UP_MARK) == "/?/../?/";
    assert "/?/../?/" + "" == "/?/../?/";
    assert Enter("/?/../?/", UP) == "/?/../";
    WalkTwo("/?/../", UP_MARK, UP);
    assert Walk("/", segs) == Walk("/?/../", [UP_MARK, UP]);
  }

  const CHANCE_PATH: string := "/" + SpellPath([CHANCE], UP)
  const CHANCE_URL: string := CHANCE_PATH + "?" + "/../?"

  lemma ChanceSpelling()
    ensures CHANCE_URL == "/" + SpellPath([CHANCE, UP_MARK, UP], LAST_MARK)
    ensures '?' !in Spell(CHANCE) && '?' !in CHANCE_PATH
  {
    hide Spell;
    ChanceSpells();
    var segs := [CHANCE, UP_MARK, UP];
    assert segs[1..] == [UP_MARK, UP] && [UP_MARK, UP][1..] == [UP] && [UP][1..] == [] && [CHANCE][1..] == [];
    assert SpellPath([], LAST_MARK) == "?" && SpellPath([UP], LAST_MARK) == ".." + "/" + "?";
    assert SpellPath([UP_MARK, UP], LAST_MARK) == "..?" + "/" + (".." + "/" + "?");
    assert SpellPath(segs, LAST_MARK) == Spell(CHANCE) + "/" + SpellPath([UP_MARK, UP], LAST_MARK);
    assert SpellPath([], UP) == ".." && SpellPath([CHANCE], UP) == Spell(CHANCE) + "/" + "..";
    assert Spell(CHANCE) + "/" + ".." + "?" + "/../?" == Spell(CHANCE) + "/" + ("..?" + "/" + (".." + "/" + "?"));
  }

  lemma ChanceSpells()
    ensures Spell(UP) == ".." && Spell(UP_MARK) == "..?" && Spell(LAST_MARK) == "?" && '?' !in Spell(CHANCE)
  {
    assert UP[1..] == [Plain('.')] && [Plain('.')][1..] == [];
    assert Spell([Plain('.')]) == "." + "";
    assert UP_MARK[1..] == [Plain('.'), Plain('?')] && [Plain('.'), Plain('?')][1..] == [Plain('?')] && LAST_MARK[1..] == [];
    assert Spell(LAST_MARK) == "?" + "" && Spell([Plain('.'), Plain('?')]) == ".?";
    assert CHANCE[1..] == [SLASH, DOT, DOT, SLASH] && [SLASH, DOT, DOT, SLASH][1..] == [DOT, DOT, SLASH];
    assert [DOT, DOT, SLASH][1..] == [DOT, SLASH] && [DOT, SLASH][1..] == [SLASH] && [SLASH][1..] == [];
    assert '?' !in Spell([SLASH]) && '?' !in Spell([DOT, SLASH]) && '?' !in Spell([DOT, DOT, SLASH]);
  }

  lemma ChanceReads()
    ensures ReadPath(CHANCE_PATH[1..]) == Path([CHANCE], UP, "")
    ensures CHANCE_URL[0] == '/' && ReadPath(CHANCE_URL[1..]) == Path([CHANCE, UP_MARK, UP], LAST_MARK, "")
  {
    hide ReadPath, SpellPath, Valid;
    ChanceDecodes();
    ChanceDots();
    ChanceSpelling();
    ReadsBack([CHANCE], UP);
    ReadsBack([CHANCE, UP_MARK, UP], LAST_MARK);
    assert CHANCE_PATH[1..] == SpellPath([CHANCE], UP);
    assert CHANCE_URL[1..] == SpellPath([CHANCE, UP_MARK, UP], LAST_MARK);
  }

  lemma ChanceOutputs()
    ensures Output(CHANCE_PATH) == "/?/../" && MeaningOf(CHANCE_PATH) == "/" && WellSpelled(CHANCE_PATH)
    ensures CHANCE_URL[0] == '/' && Output(CHANCE_URL) == "/?/../?" && EscapesAccepted(CHANCE_URL)
  {
    hide ReadPath, SpellPath, Rendered, Intended;
    ChanceReads();
    ChancePath();
    ChanceUrl();
    ReadPathSpells(CHANCE_PATH[1..]);
    ReadPathSpells(CHANCE_URL[1..]);
  }

  lemma ChanceParts()
    ensures PathOf(CHANCE_URL) == CHANCE_PATH && QueryOf(CHANCE_URL) == "/../?" && '?' in CHANCE_URL
  {
    hide SpellPath, Find;
    ChanceSpelling();
    var url, n := CHANCE_URL, |CHANCE_PATH|;
    assert url == CHANCE_PATH + ['?'] + "/../?";
    FindIn(CHANCE_PATH, '?', "/../?");
    assert url[..n] == CHANCE_PATH && url[n + 1..] == "/../?" && url[n] == '?';
  }

  lemma ChanceLooks(version: Version)
    ensures var req := LookedAt(Get, CHANCE_URL, version); req.isComplex && !req.isStatic
  {
    hide SpellPath, Split, Classify, OddDirectory;
    var url := CHANCE_URL;
    Looks(Get, url, version);
    assert url[1..] == (CHANCE_PATH + "?" + "/..")[1..] + "/" + "?";
    SplitAppend((CHANCE_PATH + "?" + "/..")[1..], "?");
    SplitWord("?");
  }

  /** The escapes of the path spell "?/../" and are followed by "/..": it does not come out as it is
      meant. With this query, which is not left alone, the request is right all the same, by chance:
      the escaped '?' takes the place of the real one. */
  lemma RightByChance(version: Version, error: ErrorKind)
    ensures CHANCE_URL[0] == '/' && PathOf(CHANCE_URL) == CHANCE_PATH && QueryOf(CHANCE_URL) == "/../?"
    ensures Output(CHANCE_PATH) != MeaningOf(CHANCE_PATH) && !CleanQuery(QueryOf(CHANCE_URL))
    ensures Right(Get, CHANCE_URL, ResolveUrl(LookedAt(Get, CHANCE_URL, version), error))
  {
    hide ResolveUrl, Classify, Feed, ReadPath, SpellPath, Output, MeaningOf, WellSpelled, EscapesAccepted, PathOf, QueryOf, Find;
    var url := CHANCE_URL;
    ChanceOutputs();
    ChanceParts();
    ChanceLooks(version);
    PathAndQueryOf(url);
    Stored(Get, url, version, error);
    Verdict(Get, url, version, error);
    ResolveCode(LookedAt(Get, url, version), error);
    var o := ResolveUrl(LookedAt(Get, url, version), error);
    assert "/?/../?" == "/" + "?" + "/../?";
    CutOnce(o.req.url, o.req.query, "/", "/../?");
    assert DroppedAt("/../?", 1);
  }
}
