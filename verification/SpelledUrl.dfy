/** URLs with escapes, segment by segment. */
module SpelledUrl {
  // What the transducer makes of every URL of plain characters and accepted escapes, and when that
  // is what the URL was meant to say.

  import opened Text
  import opened ComplexUrl

  // ---------------------------------------------------------------- spelling

  /** A character of a segment as written: itself, or an escape with two accepted digits. */
  datatype Token = Plain(c: char) | Escape(hi: char, lo: char)

  type Segment = seq<Token>

  predicate ValidToken(t: Token)
  {
    match t
    case Plain(c) => c != '/' && c != '%'
    case Escape(hi, lo) => EscapeDigit(hi).Some? && EscapeDigit(lo).Some?
  }

  ghost predicate Valid(seg: Segment)
  {
    forall k :: 0 <= k < |seg| ==> ValidToken(seg[k])
  }

  ghost predicate AllValid(segs: seq<Segment>)
  {
    forall k :: 0 <= k < |segs| ==> Valid(segs[k])
  }

  function Spelling(t: Token): string
  {
    match t
    case Plain(c) => [c]
    case Escape(hi, lo) => ['%', hi, lo]
  }

  function Spell(seg: Segment): string
  {
    if seg == [] then "" else Spelling(seg[0]) + Spell(seg[1..])
  }

  /** The segments behind the root, joined by '/'. */
  function SpellPath(parents: seq<Segment>, last: Segment): string
    decreases |parents|
  {
    if parents == [] then Spell(last) else Spell(parents[0]) + "/" + SpellPath(parents[1..], last)
  }

  /** The byte a token stands for; the digits 0x10 to 0x19 contribute what the code computes. */
  function Meaning(t: Token): char
    requires ValidToken(t)
  {
    match t
    case Plain(c) => c
    case Escape(hi, lo) => ((EscapeDigit(hi).value % 256 * 16 + EscapeDigit(lo).value) % 256) as char
  }

  function Decode(seg: Segment): (s: string)
    requires Valid(seg)
    ensures |s| == |seg|
  {
    if seg == [] then "" else [Meaning(seg[0])] + Decode(seg[1..])
  }

  function DecodeAll(segs: seq<Segment>): (r: seq<string>)
    requires AllValid(segs)
    ensures |r| == |segs| && forall k :: 0 <= k < |r| ==> r[k] == Decode(segs[k])
  {
    if segs == [] then [] else DecodeAll(segs[..|segs| - 1]) + [Decode(segs[|segs| - 1])]
  }

  // ------------------------------------------------------------- the output

  /** The plain characters of a segment. */
  function Bare(seg: Segment): string
  {
    if seg == [] then "" else (if seg[0].Plain? then [seg[0].c] else "") + Bare(seg[1..])
  }

  /** A segment decoded, less its leading plain dots as long as no more than two have been read;
      `dotRead` says that one has. */
  function Kept(seg: Segment, dotRead: bool): (s: string)
    requires Valid(seg)
    ensures |s| <= |seg|
  {
    if seg == [] then ""
    else if seg[0].Escape? then [Meaning(seg[0])] + Kept(seg[1..], dotRead)
    else if seg[0].c != '.' then Decode(seg)
    else if dotRead then Decode(seg[1..])
    else Kept(seg[1..], true)
  }

  /** What a segment and the '/' behind it do to the output. Only a segment with plain characters
      other than one or two dots gets a '/' of its own; ".." among escapes still erases. */
  function Enter(out: string, seg: Segment): string
    requires Valid(seg)
  {
    var o := out + Kept(seg, false);
    if Bare(seg) == "" || Bare(seg) == "." then o
    else if Bare(seg) == ".." then EraseLast(o)
    else o + "/"
  }

  function Walk(out: string, parents: seq<Segment>): string
    requires AllValid(parents)
    decreases |parents|
  {
    if parents == [] then out else Walk(Enter(out, parents[0]), parents[1..])
  }

  /** The output for a whole URL. */
  function Rendered(parents: seq<Segment>, last: Segment): string
    requires AllValid(parents) && Valid(last)
  {
    Walk("/", parents) + Kept(last, false)
  }

  /** Where the transducer stands behind these plain characters. */
  function EndState(bare: string): UrlState
  {
    if bare == "" then Slash else if bare == "." then Dot else if bare == ".." then DoubleDot else Usual
  }

  /** The same when one dot has been read before them. */
  function EndAfterDot(bare: string): UrlState
  {
    if bare == "" then Dot else if bare == "." then DoubleDot else Usual
  }

  lemma EndStep(c: char, bare: string)
    ensures EndState([c] + bare) == if c == '.' then EndAfterDot(bare) else Usual
    ensures EndAfterDot([c] + bare) == if c == '.' && bare == "" then DoubleDot else Usual
  {
    assert ([c] + bare)[0] == c;
    if bare == "" {
      assert [c] + bare == [c];
    } else {
      assert ([c] + bare)[1..] == bare;
    }
  }

  predicate At(o: Outcome, state: UrlState, out: string)
  {
    o.Running? && o.c.state == state && o.c.out == out
  }

  lemma FeedCons(c: Config, x: char, s: string)
    ensures Feed(c, [x] + s) == if Step(c, x).Running? then Feed(Step(c, x).c, s) else Step(c, x)
  {
    hide Step;
    assert ([x] + s)[1..] == s;
  }

  /** An accepted escape adds its byte and leaves the state as it was. */
  lemma FeedEscape(c: Config, t: Token, s: string)
    requires c.state in {Usual, Slash, Dot, DoubleDot} && t.Escape? && ValidToken(t)
    ensures Feed(c, Spelling(t) + s) ==
            Feed(c.(trap := c.state, decode := Meaning(t) as int, out := c.out + [Meaning(t)]), s)
  {
    hide Feed, EscapeDigit;
    var a := c.(trap := c.state, state := PercentFirst);
    var b := a.(decode := EscapeDigit(t.hi).value % 256, state := PercentSecond);
    assert Spelling(t) + s == ['%'] + ([t.hi] + ([t.lo] + s));
    FeedCons(c, '%', [t.hi] + ([t.lo] + s));
    FeedCons(a, t.hi, [t.lo] + s);
    FeedCons(b, t.lo, s);
  }

  lemma {:induction false} FeedTokens(c: Config, seg: Segment)
    requires c.state == Usual && Valid(seg)
    ensures At(Feed(c, Spell(seg)), Usual, c.out + Decode(seg))
    decreases |seg|
  {
    hide Feed, Step, Spell, Decode;
    SpellDecode(seg);
    if seg == [] {
      FeedNothing(c);
      assert c.out + "" == c.out;
    } else {
      var t, rest := seg[0], seg[1..];
      var d := Read(c, t, Usual, Spell(rest));
      FeedTokens(d, rest);
      assert c.out + [Meaning(t)] + Decode(rest) == c.out + ([Meaning(t)] + Decode(rest));
    }
  }

  lemma FeedNothing(c: Config)
    ensures Feed(c, "") == Running(c)
  {
  }

  lemma SpellDecode(seg: Segment)
    requires Valid(seg)
    ensures seg == [] ==> Spell(seg) == "" && Decode(seg) == ""
    ensures seg != [] ==> ValidToken(seg[0]) && Valid(seg[1..])
    ensures seg != [] ==> Spell(seg) == Spelling(seg[0]) + Spell(seg[1..]) && Decode(seg) == [Meaning(seg[0])] + Decode(seg[1..])
  {
  }

  /** One token that is added to the output. */
  lemma Read(c: Config, t: Token, to: UrlState, s: string) returns (d: Config)
    requires c.state in {Usual, Slash, Dot, DoubleDot} && ValidToken(t)
    requires if t.Escape? then to == c.state else to == Usual && (t.c == '.' ==> c.state in {Usual, DoubleDot})
    ensures d.state == to && d.out == c.out + [Meaning(t)]
    ensures Feed(c, Spelling(t) + s) == Feed(d, s)
  {
    hide Feed;
    if t.Escape? {
      FeedEscape(c, t, s);
      d := c.(trap := c.state, decode := Meaning(t) as int, out := c.out + [Meaning(t)]);
    } else {
      FeedCons(c, t.c, s);
      d := Step(c, t.c).c;
    }
  }

  /** A plain dot right behind '/' or '/.' (perhaps with escapes between) is not added. */
  lemma SkipDot(c: Config, s: string) returns (d: Config)
    requires c.state in {Slash, Dot}
    ensures d.state == (if c.state == Slash then Dot else DoubleDot) && d.out == c.out
    ensures Feed(c, "." + s) == Feed(d, s)
  {
    hide Feed;
    FeedCons(c, '.', s);
    d := Step(c, '.').c;
  }

  /** Behind the second dot everything is added; the state is left by the first plain character. */
  lemma {:induction false} FeedAfterDots(c: Config, seg: Segment)
    requires c.state == DoubleDot && Valid(seg)
    ensures At(Feed(c, Spell(seg)), if Bare(seg) == "" then DoubleDot else Usual, c.out + Decode(seg))
    decreases |seg|
  {
    hide Feed, Step, Spell, Decode;
    SpellDecode(seg);
    if seg == [] {
      FeedNothing(c);
      assert c.out + "" == c.out;
    } else {
      var t, rest := seg[0], seg[1..];
      var d := Read(c, t, if t.Escape? then DoubleDot else Usual, Spell(rest));
      if t.Escape? {
        FeedAfterDots(d, rest);
        assert "" + Bare(rest) == Bare(rest);
      } else {
        FeedTokens(d, rest);
        assert |Bare(seg)| >= 1;
      }
      assert c.out + [Meaning(t)] + Decode(rest) == c.out + ([Meaning(t)] + Decode(rest));
    }
  }

  lemma SegmentStep(seg: Segment, dotRead: bool)
    requires Valid(seg) && seg != []
    ensures Bare(seg) == if seg[0].Plain? then [seg[0].c] + Bare(seg[1..]) else Bare(seg[1..])
    ensures Kept(seg, dotRead) ==
            if seg[0].Escape? then [Meaning(seg[0])] + Kept(seg[1..], dotRead)
            else if seg[0].c != '.' then [Meaning(seg[0])] + Decode(seg[1..])
            else if dotRead then Decode(seg[1..])
            else Kept(seg[1..], true)
  {
  }

  lemma Assoc(a: string, b: string, c: string)
    ensures a + b + c == a + (b + c)
  {
  }

  lemma {:induction false} FeedAfterDot(c: Config, seg: Segment)
    requires c.state == Dot && Valid(seg)
    ensures At(Feed(c, Spell(seg)), EndAfterDot(Bare(seg)), c.out + Kept(seg, true))
    decreases |seg|
  {
    hide Feed, Step, Spell, Decode, At;
    SpellDecode(seg);
    if seg == [] {
      FeedNothing(c);
      AtNothing(c);
    } else {
      hide Kept, Bare, Spelling, Meaning, EndAfterDot, ValidToken, Valid;
      SegmentStep(seg, true);
      var t, rest := seg[0], seg[1..];
      EndStep(if t.Plain? then t.c else '.', Bare(rest));
      if t == Plain('.') {
        DotSpelling(t);
        var d := SkipDot(c, Spell(rest));
        FeedAfterDots(d, rest);
      } else {
        var d := Read(c, t, if t.Escape? then Dot else Usual, Spell(rest));
        if t.Escape? {
          FeedAfterDot(d, rest);
          Assoc(c.out, [Meaning(t)], Kept(rest, true));
        } else {
          FeedTokens(d, rest);
          Assoc(c.out, [Meaning(t)], Decode(rest));
        }
      }
    }
  }

  lemma AtNothing(c: Config)
    ensures At(Running(c), c.state, c.out + "")
  {
    assert c.out + "" == c.out;
  }

  /** A whole segment from the state behind '/'. */
  lemma {:induction false} FeedWhole(c: Config, seg: Segment)
    requires c.state == Slash && Valid(seg)
    ensures At(Feed(c, Spell(seg)), EndState(Bare(seg)), c.out + Kept(seg, false))
    decreases |seg|
  {
    hide Feed, Step, Spell, Decode, At;
    SpellDecode(seg);
    if seg == [] {
      FeedNothing(c);
      AtNothing(c);
    } else {
      hide Kept, Bare, Spelling, Meaning, EndState, EndAfterDot, ValidToken, Valid;
      SegmentStep(seg, false);
      var t, rest := seg[0], seg[1..];
      EndStep(if t.Plain? then t.c else '.', Bare(rest));
      if t == Plain('.') {
        DotSpelling(t);
        var d := SkipDot(c, Spell(rest));
        FeedAfterDot(d, rest);
      } else {
        var d := Read(c, t, if t.Escape? then Slash else Usual, Spell(rest));
        if t.Escape? {
          FeedWhole(d, rest);
          Assoc(c.out, [Meaning(t)], Kept(rest, false));
        } else {
          FeedTokens(d, rest);
          Assoc(c.out, [Meaning(t)], Decode(rest));
        }
      }
    }
  }

  lemma DotSpelling(t: Token)
    requires t == Plain('.')
    ensures Spelling(t) == "."
  {
  }

  lemma FeedEnter(c: Config, seg: Segment)
    requires c.state == Slash && Valid(seg)
    ensures At(Feed(c, Spell(seg) + "/"), Slash, Enter(c.out, seg))
  {
    hide Feed, Spell, Kept, Bare;
    FeedWhole(c, seg);
    FeedAppend(c, Spell(seg), "/");
    FeedOne(Feed(c, Spell(seg)).c, '/');
  }

  lemma {:induction false} FeedPath(c: Config, parents: seq<Segment>, last: Segment)
    requires c.state == Slash && AllValid(parents) && Valid(last)
    ensures At(Feed(c, SpellPath(parents, last)), EndState(Bare(last)), Walk(c.out, parents) + Kept(last, false))
    decreases |parents|
  {
    hide Feed, Step, Kept, Enter, Spell;
    if parents == [] {
      FeedWhole(c, last);
    } else {
      var seg, path := parents[0], SpellPath(parents[1..], last);
      FeedEnter(c, seg);
      FeedAppend(c, Spell(seg) + "/", path);
      FeedPath(Feed(c, Spell(seg) + "/").c, parents[1..], last);
    }
  }

  /** The exact output for every URL of plain characters and accepted escapes. */
  lemma SpelledOutput(parents: seq<Segment>, last: Segment)
    requires AllValid(parents) && Valid(last)
    ensures At(Feed(START, "/" + SpellPath(parents, last)), EndState(Bare(last)), Rendered(parents, last))
  {
    hide Feed, SpellPath, Walk, Kept;
    FeedRoot("/" + SpellPath(parents, last));
    FeedPath(AFTER_ROOT, parents, last);
  }

  // ------------------------------------------------------ every URL is spelled

  /** A path read as segments; `cut` begins at the first '%' without two accepted digits. */
  datatype Path = Path(parents: seq<Segment>, last: Segment, cut: string)

  function Prepend(t: Token, p: Path): Path
  {
    if p.parents == [] then p.(last := [t] + p.last)
    else p.(parents := [[t] + p.parents[0]] + p.parents[1..])
  }

  predicate EscapeAt(s: string)
  {
    |s| >= 3 && s[0] == '%' && EscapeDigit(s[1]).Some? && EscapeDigit(s[2]).Some?
  }

  function ReadPath(s: string): Path
  {
    if s == "" then Path([], [], "")
    else if EscapeAt(s) then Prepend(Escape(s[1], s[2]), ReadPath(s[3..]))
    else if s[0] == '%' then Path([], [], s)
    else if s[0] == '/' then
      var p := ReadPath(s[1..]);
      p.(parents := [[]] + p.parents)
    else Prepend(Plain(s[0]), ReadPath(s[1..]))
  }

  ghost predicate ValidPath(p: Path)
  {
    AllValid(p.parents) && Valid(p.last)
  }

  lemma PrependSpells(t: Token, p: Path)
    requires ValidToken(t) && ValidPath(p)
    ensures ValidPath(Prepend(t, p)) && Prepend(t, p).cut == p.cut
    ensures SpellPath(Prepend(t, p).parents, Prepend(t, p).last) == Spelling(t) + SpellPath(p.parents, p.last)
  {
    hide Spelling;
    var seg := if p.parents == [] then p.last else p.parents[0];
    assert ([t] + seg)[1..] == seg;
    assert Spell([t] + seg) == Spelling(t) + Spell(seg);
    if p.parents != [] {
      var q := Prepend(t, p);
      assert q.parents[1..] == p.parents[1..];
      var more := SpellPath(p.parents[1..], p.last);
      assert Spelling(t) + Spell(seg) + "/" + more == Spelling(t) + (Spell(seg) + "/" + more);
    }
  }

  /** Every string is the spelling of its segments, up to the cut. */
  lemma {:induction false} ReadPathSpells(s: string)
    ensures var p := ReadPath(s);
            && ValidPath(p) && s == SpellPath(p.parents, p.last) + p.cut
            && (p.cut != "" ==> p.cut[0] == '%' && !EscapeAt(p.cut))
    decreases |s|
  {
    hide ReadPath, SpellPath, Prepend, ValidPath, Spelling, EscapeAt, ValidToken;
    EmptyPath();
    ReadPathStep(s);
    if EscapeAt(s) {
      ReadPathSpells(s[3..]);
      TokenSpells(Escape(s[1], s[2]), s, s[3..]);
    } else if s != "" && s[0] == '/' {
      ReadPathSpells(s[1..]);
      SlashPath(s, ReadPath(s[1..]));
    } else if s != "" && s[0] != '%' {
      ReadPathSpells(s[1..]);
      TokenSpells(Plain(s[0]), s, s[1..]);
    } else {
      assert "" + s == s;
    }
  }

  lemma ReadPathStep(s: string)
    ensures EscapeAt(s) ==>
              |s| >= 3 && ReadPath(s) == Prepend(Escape(s[1], s[2]), ReadPath(s[3..]))
              && ValidToken(Escape(s[1], s[2])) && s == Spelling(Escape(s[1], s[2])) + s[3..]
    ensures !EscapeAt(s) && s != "" && s[0] == '/' ==> ReadPath(s) == ReadPath(s[1..]).(parents := [[]] + ReadPath(s[1..]).parents)
    ensures !EscapeAt(s) && s != "" && s[0] != '/' && s[0] != '%' ==>
              ReadPath(s) == Prepend(Plain(s[0]), ReadPath(s[1..])) && ValidToken(Plain(s[0])) && s == Spelling(Plain(s[0])) + s[1..]
    ensures !EscapeAt(s) && (s == "" || s[0] == '%') ==> ReadPath(s) == Path([], [], s)
  {
    hide EscapeDigit, Prepend;
  }

  lemma TokenSpells(t: Token, s: string, rest: string)
    requires ValidToken(t) && s == Spelling(t) + rest
    requires var p := ReadPath(rest); ValidPath(p) && rest == SpellPath(p.parents, p.last) + p.cut
    ensures var q := Prepend(t, ReadPath(rest)); ValidPath(q) && s == SpellPath(q.parents, q.last) + q.cut && q.cut == ReadPath(rest).cut
  {
    hide EscapeDigit, SpellPath, Prepend, ValidPath, Spelling, ReadPath;
    var p := ReadPath(rest);
    PrependSpells(t, p);
    assert Spelling(t) + (SpellPath(p.parents, p.last) + p.cut) == Spelling(t) + SpellPath(p.parents, p.last) + p.cut;
  }

  lemma EmptyPath()
    ensures SpellPath([], []) == "" && ValidPath(Path([], [], "")) && forall cut :: ValidPath(Path([], [], cut))
  {
  }

  lemma SlashPath(s: string, p: Path)
    requires s != "" && s[0] == '/' && s[1..] == SpellPath(p.parents, p.last) + p.cut
    ensures s == SpellPath([[]] + p.parents, p.last) + p.cut
    ensures ValidPath(p) ==> ValidPath(p.(parents := [[]] + p.parents))
  {
    assert ([[]] + p.parents)[1..] == p.parents;
    assert s == "/" + s[1..];
    assert SpellPath([[]] + p.parents, p.last) == "" + "/" + SpellPath(p.parents, p.last);
  }

  function PrependAll(seg: Segment, p: Path): Path
  {
    if p.parents == [] then p.(last := seg + p.last)
    else p.(parents := [seg + p.parents[0]] + p.parents[1..])
  }

  lemma ReadToken(t: Token, s: string)
    requires ValidToken(t)
    ensures ReadPath(Spelling(t) + s) == Prepend(t, ReadPath(s))
  {
    hide EscapeDigit, ReadPath, Prepend;
    var u := Spelling(t) + s;
    ReadPathStep(u);
    assert u[|Spelling(t)|..] == s;
  }

  lemma {:induction false} ReadSegment(seg: Segment, s: string)
    requires Valid(seg)
    ensures ReadPath(Spell(seg) + s) == PrependAll(seg, ReadPath(s))
    decreases |seg|
  {
    hide ReadPath, Spelling, ValidToken;
    var p := ReadPath(s);
    if seg == [] {
      assert "" + s == s && [] + p.last == p.last;
      if p.parents != [] {
        assert [] + p.parents[0] == p.parents[0] && [p.parents[0]] + p.parents[1..] == p.parents;
      }
    } else {
      ReadSegment(seg[1..], s);
      ReadToken(seg[0], Spell(seg[1..]) + s);
      assert Spell(seg) + s == Spelling(seg[0]) + (Spell(seg[1..]) + s);
      PrependMore(seg, p);
    }
  }

  lemma PrependMore(seg: Segment, p: Path)
    requires seg != []
    ensures Prepend(seg[0], PrependAll(seg[1..], p)) == PrependAll(seg, p)
  {
    assert [seg[0]] + seg[1..] == seg;
    if p.parents == [] {
      assert [seg[0]] + (seg[1..] + p.last) == seg + p.last;
    } else {
      assert [seg[0]] + (seg[1..] + p.parents[0]) == seg + p.parents[0];
    }
  }

  /** And a spelling is read as the segments it spells. */
  lemma {:induction false} ReadsBack(parents: seq<Segment>, last: Segment)
    requires AllValid(parents) && Valid(last)
    ensures ReadPath(SpellPath(parents, last)) == Path(parents, last, "")
    decreases |parents|
  {
    hide ReadPath, Spell, Valid;
    EmptyRead();
    if parents == [] {
      ReadSegment(last, "");
      assert Spell(last) + "" == Spell(last) && last + [] == last;
    } else {
      var rest := SpellPath(parents[1..], last);
      ReadsBack(parents[1..], last);
      ReadSegment(parents[0], "/" + rest);
      assert ("/" + rest)[0] == '/' && ("/" + rest)[1..] == rest;
      ReadPathStep("/" + rest);
      assert Spell(parents[0]) + ("/" + rest) == SpellPath(parents, last);
      assert parents[0] + [] == parents[0] && [parents[0]] + parents[1..] == parents;
    }
  }

  lemma EmptyRead()
    ensures ReadPath("") == Path([], [], "")
  {
  }

  /** Nothing is wrong with the first '%' that is no escape, except that the URL ends there. */
  predicate Truncated(cut: string)
  {
    |cut| <= 1 || (|cut| == 2 && EscapeDigit(cut[1]).Some?)
  }

  predicate EscapesAccepted(url: string)
    requires url != ""
  {
    Truncated(ReadPath(url[1..]).cut)
  }

  /** What the segments of a URL render to. */
  function Output(url: string): string
    requires url != ""
  {
    var p := ReadPath(url[1..]);
    ReadPathSpells(url[1..]);
    Rendered(p.parents, p.last)
  }

  lemma CutReads(c: Config, cut: string)
    requires c.state in {Usual, Slash, Dot, DoubleDot} && (cut != "" ==> cut[0] == '%' && !EscapeAt(cut))
    ensures Feed(c, cut).c.out == c.out
    ensures Feed(c, cut).Running? <==> Truncated(cut)
    ensures Feed(c, cut).BadEscape? ==> (Feed(c, cut).atFirst <==> EscapeDigit(cut[1]).None?)
  {
    hide EscapeDigit, Feed;
    FeedNothing(c);
    if cut != "" {
      var a := c.(trap := c.state, state := PercentFirst);
      assert cut == ['%'] + cut[1..];
      FeedCons(c, '%', cut[1..]);
      FeedNothing(a);
      if |cut| > 1 {
        assert cut[1..] == [cut[1]] + cut[2..];
        FeedCons(a, cut[1], cut[2..]);
        if EscapeDigit(cut[1]).Some? {
          var b := a.(decode := EscapeDigit(cut[1]).value % 256, state := PercentSecond);
          FeedNothing(b);
          if |cut| > 2 {
            assert cut[2..] == [cut[2]] + cut[3..];
            FeedCons(b, cut[2], cut[3..]);
          }
        }
      }
    }
  }

  /** Every URL that starts with '/', whatever is in it: it is accepted exactly if its first
      incomplete escape, if any, is cut off by the end; and the output, up to a bad escape, is
      what its segments render to. */
  lemma UrlOutput(url: string)
    requires url != "" && url[0] == '/'
    ensures Feed(START, url).Running? <==> EscapesAccepted(url)
    ensures Feed(START, url).c.out == Output(url)
    ensures Feed(START, url).BadEscape? ==>
              var cut := ReadPath(url[1..]).cut; |cut| > 1 && (Feed(START, url).atFirst <==> EscapeDigit(cut[1]).None?)
  {
    hide Feed, SpellPath, Rendered, Truncated, ReadPath;
    var p := ReadPath(url[1..]);
    ReadPathSpells(url[1..]);
    SpelledOutput(p.parents, p.last);
    var whole := "/" + SpellPath(p.parents, p.last);
    assert url == whole + p.cut;
    FeedAppend(START, whole, p.cut);
    CutReads(Feed(START, whole).c, p.cut);
    CutLong(p.cut);
  }

  lemma CutLong(cut: string)
    ensures !Truncated(cut) ==> |cut| > 1
  {
  }

  // ------------------------------------------------------- what a URL means

  predicate IsDot(seg: Segment)
  {
    seg == [Plain('.')]
  }

  predicate IsDotDot(seg: Segment)
  {
    seg == [Plain('.'), Plain('.')]
  }

  /** Dot segments are those spelled with plain dots; everything else is data. */
  function PushSegment(stack: seq<Segment>, seg: Segment): seq<Segment>
  {
    if seg == [] || IsDot(seg) then stack
    else if !IsDotDot(seg) then stack + [seg]
    else if stack == [] then [] else stack[..|stack| - 1]
  }

  function PushSegments(stack: seq<Segment>, segs: seq<Segment>): seq<Segment>
    decreases |segs|
  {
    if segs == [] then stack else PushSegments(PushSegment(stack, segs[0]), segs[1..])
  }

  lemma {:induction false} PushSegmentsValid(stack: seq<Segment>, segs: seq<Segment>)
    requires AllValid(stack) && AllValid(segs)
    ensures AllValid(PushSegments(stack, segs))
    decreases |segs|
  {
    if segs != [] {
      PushSegmentsValid(PushSegment(stack, segs[0]), segs[1..]);
    }
  }

  /** The parents that remain, and what is behind their last '/'. */
  function Remaining(parents: seq<Segment>, last: Segment): seq<Segment>
  {
    var stack := PushSegments([], parents);
    if IsDotDot(last) then PushSegment(stack, last) else stack
  }

  function Rest(last: Segment): Segment
  {
    if IsDot(last) || IsDotDot(last) then [] else last
  }

  /** The meaning of a spelled URL: dot segments removed (section 5.2.4 of RFC 3986), empty
      segments dropped, the others decoded once. */
  function Intended(parents: seq<Segment>, last: Segment): string
    requires AllValid(parents) && Valid(last)
  {
    PushSegmentsValid([], parents);
    Directory(DecodeAll(Remaining(parents, last))) + Decode(Rest(last))
  }

  /** Where no ".." is in play, a directory comes out as it is meant: empty, ".", or with a plain
      character, the first of them not a dot. */
  predicate Sound(seg: Segment)
  {
    seg == [] || IsDot(seg) || (Bare(seg) != "" && Bare(seg)[0] != '.')
  }

  predicate SoundLast(seg: Segment)
  {
    Sound(seg) || Bare(seg) == ""
  }

  lemma DecodeAllSnoc(stack: seq<Segment>, seg: Segment)
    requires AllValid(stack) && Valid(seg)
    ensures DecodeAll(stack + [seg]) == DecodeAll(stack) + [Decode(seg)]
    ensures Directory(DecodeAll(stack + [seg])) == Directory(DecodeAll(stack)) + Decode(seg) + "/"
  {
    assert (stack + [seg])[..|stack|] == stack;
    var d := DecodeAll(stack);
    assert (d + [Decode(seg)])[..|d|] == d;
  }

  /** How much of a segment is kept. */
  lemma {:induction false} KeptLength(seg: Segment)
    requires Valid(seg)
    ensures Bare(seg) == "" || Bare(seg)[0] != '.' ==> Kept(seg, false) == Decode(seg)
    ensures Bare(seg) != "" && Bare(seg)[0] == '.' ==> |Kept(seg, false)| < |seg|
    ensures Bare(seg) != "" ==> |seg| > 0
    ensures |Bare(seg)| <= |seg|
    decreases |seg|
  {
    if seg != [] {
      KeptLength(seg[1..]);
    }
  }

  /** One directory: the output never runs ahead of the meaning, keeps level with it over a sound
      one, and falls behind for good over any other. */
  lemma EnterAgainst(out: string, stack: seq<Segment>, seg: Segment)
    requires AllValid(stack) && Valid(seg) && Bare(seg) != ".." && |out| <= |Directory(DecodeAll(stack))|
    ensures AllValid(PushSegment(stack, seg))
    ensures var d := Directory(DecodeAll(PushSegment(stack, seg)));
            && |Enter(out, seg)| <= |d|
            && (out == Directory(DecodeAll(stack)) && Sound(seg) ==> Enter(out, seg) == d)
            && (|out| < |Directory(DecodeAll(stack))| || !Sound(seg) ==> |Enter(out, seg)| < |d|)
  {
    hide Kept, Decode, Directory, DecodeAll, Bare;
    KeptLength(seg);
    if seg != [] && !IsDot(seg) {
      DotDotBare();
      DecodeAllSnoc(stack, seg);
      assert Enter(out, seg) == out + Kept(seg, false) + (if Bare(seg) == "" || Bare(seg) == "." then "" else "/");
    } else {
      DotKept();
      assert out + "" == out;
    }
  }

  lemma DotDotBare()
    ensures Bare([Plain('.'), Plain('.')]) == ".."
  {
    assert [Plain('.'), Plain('.')][1..] == [Plain('.')] && [Plain('.')][1..] == [];
    assert Bare([Plain('.')]) == "." + "";
  }

  lemma DotKept()
    ensures Bare([Plain('.')]) == "." && Kept([Plain('.')], false) == "" && Kept([], false) == "" && Bare([]) == ""
  {
    assert [Plain('.')][1..] == [];
    assert Bare([Plain('.')]) == "." + "";
  }

  lemma {:induction false} WalkAgainst(out: string, stack: seq<Segment>, parents: seq<Segment>)
    requires AllValid(stack) && AllValid(parents) && |out| <= |Directory(DecodeAll(stack))|
    requires forall k :: 0 <= k < |parents| ==> Bare(parents[k]) != ".."
    ensures AllValid(PushSegments(stack, parents))
    ensures var d := Directory(DecodeAll(PushSegments(stack, parents)));
            var sound := forall k :: 0 <= k < |parents| ==> Sound(parents[k]);
            && |Walk(out, parents)| <= |d|
            && (out == Directory(DecodeAll(stack)) && sound ==> Walk(out, parents) == d)
            && (|out| < |Directory(DecodeAll(stack))| || !sound ==> |Walk(out, parents)| < |d|)
    decreases |parents|
  {
    hide Enter, Sound, PushSegment, Directory, DecodeAll, Bare;
    if parents != [] {
      EnterAgainst(out, stack, parents[0]);
      WalkAgainst(Enter(out, parents[0]), PushSegment(stack, parents[0]), parents[1..]);
      assert forall k :: 0 < k < |parents| ==> parents[k] == parents[1..][k - 1];
    }
  }

  /** Without ".." in any segment the transducer says what the URL means if and only if every
      directory is sound and the last segment drops no dot. What fails are directories of nothing
      but escapes, which lose their '/', and segments whose first plain character is a dot, which
      lose the dot. This holds whatever bytes the escapes stand for. */
  lemma RenderedIsIntended(parents: seq<Segment>, last: Segment)
    requires AllValid(parents) && Valid(last) && Bare(last) != ".."
    requires forall k :: 0 <= k < |parents| ==> Bare(parents[k]) != ".."
    ensures Rendered(parents, last) == Intended(parents, last)
       <==> (forall k :: 0 <= k < |parents| ==> Sound(parents[k])) && SoundLast(last)
  {
    hide Walk, PushSegments, PushSegment, Directory, DecodeAll, Bare, Kept, Decode;
    RootDirectory();
    WalkAgainst("/", [], parents);
    KeptLength(last);
    DotDotBare();
    DotKept();
    SpellDecode(last);
    SpellDecode([]);
  }

  lemma RootDirectory()
    ensures Directory(DecodeAll([])) == "/"
  {
  }

  // ------------------------------------------------ the meaning without escapes

  predicate NoEscapes(seg: Segment)
  {
    forall k :: 0 <= k < |seg| ==> seg[k].Plain?
  }

  lemma DecodeDots(seg: Segment)
    requires Valid(seg) && NoEscapes(seg)
    ensures Decode(seg) == "" <==> seg == []
    ensures Decode(seg) == "." <==> IsDot(seg)
    ensures Decode(seg) == ".." <==> IsDotDot(seg)
  {
    if |seg| == 1 {
      assert Decode(seg)[0] == seg[0].c && seg == [Plain(seg[0].c)];
    } else if |seg| == 2 {
      assert Decode(seg[1..]) == [seg[1].c] + "";
      assert Decode(seg)[0] == seg[0].c && Decode(seg)[1] == seg[1].c && seg == [Plain(seg[0].c), Plain(seg[1].c)];
    }
  }

  lemma {:induction false} PushSegmentsDecode(stack: seq<Segment>, segs: seq<Segment>)
    requires AllValid(stack) && AllValid(segs) && forall k :: 0 <= k < |segs| ==> NoEscapes(segs[k])
    ensures AllValid(PushSegments(stack, segs))
    ensures DecodeAll(PushSegments(stack, segs)) == PushAll(DecodeAll(stack), DecodeAll(segs))
    decreases |segs|
  {
    hide Decode, NoEscapes;
    if segs != [] {
      var next := PushSegment(stack, segs[0]);
      PushDecode(stack, segs[0]);
      PushSegmentsDecode(next, segs[1..]);
      assert DecodeAll(segs)[0] == Decode(segs[0]) && DecodeAll(segs)[1..] == DecodeAll(segs[1..]);
    }
  }

  lemma PushDecode(stack: seq<Segment>, seg: Segment)
    requires AllValid(stack) && Valid(seg) && NoEscapes(seg)
    ensures AllValid(PushSegment(stack, seg))
    ensures DecodeAll(PushSegment(stack, seg)) == Push(DecodeAll(stack), Decode(seg))
  {
    hide Decode, NoEscapes;
    DecodeDots(seg);
    DecodeAllSnoc(stack, seg);
    assert stack != [] ==> DecodeAll(stack)[..|stack| - 1] == DecodeAll(stack[..|stack| - 1]);
  }

  lemma SplitStep(s: string)
    requires s != ""
    ensures var more := Split(s[1..]);
            Split(s) == if s[0] == '/' then [""] + more else [[s[0]] + more[0]] + more[1..]
  {
    hide Find, Split;
    var i := Find(s[1..], '/');
    SplitAt(s);
    SplitAt(s[1..]);
    assert forall j :: 0 < j < |s| ==> s[j] == s[1..][j - 1];
    if s[0] == '/' {
      FindUnique(s, '/', 0);
    } else {
      FindUnique(s, '/', i + 1);
      if i < |s[1..]| {
        assert s[..i + 1] == [s[0]] + s[1..][..i] && s[i + 2..] == s[1..][i + 1..];
      } else {
        assert s == [s[0]] + s[1..];
      }
    }
  }

  ghost predicate ReadsAs(p: Path, segs: seq<string>)
    requires ValidPath(p)
  {
    && p.cut == "" && DecodeAll(p.parents) + [Decode(p.last)] == segs
    && (forall k :: 0 <= k < |p.parents| ==> NoEscapes(p.parents[k])) && NoEscapes(p.last)
  }

  /** Without '%' the segments are those between the slashes. */
  lemma {:induction false} PlainPath(s: string)
    requires '%' !in s
    ensures ValidPath(ReadPath(s)) && ReadsAs(ReadPath(s), Split(s))
    decreases |s|
  {
    hide ReadPath, ReadsAs, Prepend, Split;
    ReadPathSpells(s);
    ReadPathStep(s);
    if s == "" {
      NoPath();
    } else {
      assert s[0] in s && forall c :: c in s[1..] ==> c in s;
      PlainPath(s[1..]);
      SplitStep(s);
      ReadPathSpells(s[1..]);
      PlainStep(s[0], ReadPath(s[1..]), Split(s[1..]));
    }
  }

  lemma NoPath()
    ensures ValidPath(Path([], [], "")) && ReadsAs(Path([], [], ""), Split(""))
  {
  }

  lemma PlainStep(c: char, p: Path, segs: seq<string>)
    requires ValidPath(p) && ReadsAs(p, segs) && segs != [] && c != '%'
    ensures ValidPath(p.(parents := [[]] + p.parents)) && ReadsAs(p.(parents := [[]] + p.parents), [""] + segs)
    ensures c != '/' ==> ValidPath(Prepend(Plain(c), p)) && ReadsAs(Prepend(Plain(c), p), [[c] + segs[0]] + segs[1..])
  {
    hide Decode, DecodeAll;
    DecodeAllCons([], p.parents);
    NoneDecoded();
    var seg := if p.parents == [] then p.last else p.parents[0];
    var q := Prepend(Plain(c), p);
    if c != '/' {
      DecodeCons(c, seg);
      if p.parents != [] {
        DecodeAllCons(seg, p.parents[1..]);
        DecodeAllCons([Plain(c)] + seg, p.parents[1..]);
        assert [seg] + p.parents[1..] == p.parents;
      } else {
        NoneDecoded();
      }
    }
  }

  lemma DecodeCons(c: char, seg: Segment)
    requires Valid(seg) && c != '/' && c != '%'
    ensures Valid([Plain(c)] + seg) && Decode([Plain(c)] + seg) == [c] + Decode(seg)
  {
    assert ([Plain(c)] + seg)[1..] == seg;
  }

  lemma DecodeAllCons(seg: Segment, segs: seq<Segment>)
    requires Valid(seg) && AllValid(segs)
    ensures AllValid([seg] + segs) && DecodeAll([seg] + segs) == [Decode(seg)] + DecodeAll(segs)
  {
    hide Decode;
    assert forall k :: 0 <= k < |[seg] + segs| ==> DecodeAll([seg] + segs)[k] == Decode(([seg] + segs)[k]);
  }

  /** Without '%' the meaning of a path is the segment-stack normal form. */
  lemma IntendedIsNormalize(url: string)
    requires url != "" && '%' !in url
    ensures var p := ReadPath(url[1..]);
            ValidPath(p) && p.cut == "" && Intended(p.parents, p.last) == Normalize(url)
  {
    hide ReadPath, Decode, DecodeAll, Directory, Split, PushAll, PushSegments, PushSegment;
    assert forall c :: c in url[1..] ==> c in url;
    PlainPath(url[1..]);
    var p := ReadPath(url[1..]);
    var segs := Split(url[1..]);
    SnocInjective(DecodeAll(p.parents), Decode(p.last), segs[..|segs| - 1], segs[|segs| - 1]);
    PushSegmentsDecode([], p.parents);
    NoneDecoded();
    DecodeDots(p.last);
    PushDecode(PushSegments([], p.parents), p.last);
    assert Directory(Parents(url)) + "" == Directory(Parents(url));
    assert Directory(Push(Parents(url), "..")) + "" == Directory(Push(Parents(url), ".."));
  }

  lemma NoneDecoded()
    ensures DecodeAll([]) == [] && AllValid([]) && Decode([]) == ""
  {
  }

  // ---------------------------------------------- with ".." among the segments

  predicate NoSlash(seg: Segment)
    requires Valid(seg)
  {
    '/' !in Decode(seg)
  }

  ghost predicate NoSlashes(segs: seq<Segment>)
    requires AllValid(segs)
  {
    forall k :: 0 <= k < |segs| ==> NoSlash(segs[k])
  }

  /** The output as directories and what is behind the last '/'. */
  datatype Shelf = Shelf(stack: seq<string>, glue: string)

  function TextOf(s: Shelf): string
  {
    Directory(s.stack) + s.glue
  }

  /** A directory without plain characters, or with one dot among escapes, is glued to the next
      segment; ".." drops what is glued, and pops only if nothing is. */
  function Shelve(s: Shelf, seg: Segment): Shelf
    requires Valid(seg)
  {
    var g := s.glue + Kept(seg, false);
    if Bare(seg) == "" || Bare(seg) == "." then s.(glue := g)
    else if Bare(seg) != ".." then Shelf(s.stack + [g], "")
    else if g == "" then Shelf(Push(s.stack, ".."), "")
    else s.(glue := "")
  }

  function ShelveAll(s: Shelf, segs: seq<Segment>): Shelf
    requires AllValid(segs)
    decreases |segs|
  {
    if segs == [] then s else ShelveAll(Shelve(s, segs[0]), segs[1..])
  }

  ghost predicate GoodShelf(s: Shelf)
  {
    NonEmptyStack(s.stack) && '/' !in s.glue
  }

  lemma {:induction false} KeptChars(seg: Segment, dotRead: bool)
    requires Valid(seg)
    ensures '/' !in Decode(seg) ==> '/' !in Kept(seg, dotRead)
    ensures !dotRead && Bare(seg) != "" && Bare(seg) != "." && Bare(seg) != ".." ==> Kept(seg, dotRead) != ""
    ensures dotRead && Bare(seg) != "" && Bare(seg) != "." ==> Kept(seg, dotRead) != ""
    decreases |seg|
  {
    if seg != [] {
      var rest := seg[1..];
      KeptChars(rest, dotRead);
      if seg[0] == Plain('.') {
        assert Bare(seg) == "." + Bare(rest);
        if dotRead {
          BareDecode(rest);
        } else {
          KeptChars(rest, true);
          assert Bare(rest) == "." ==> Bare(seg) == "..";
        }
      } else if seg[0].Escape? {
        assert Bare(seg) == "" + Bare(rest) == Bare(rest);
      }
    }
  }

  lemma BareDecode(seg: Segment)
    requires Valid(seg)
    ensures Bare(seg) != "" ==> Decode(seg) != ""
  {
  }

  /** Erasing what is glued to a directory. */
  lemma EraseGlue(d: string, g: string)
    requires d != "" && d[|d| - 1] == '/' && g != "" && '/' !in g
    ensures EraseLast(d + g) == d
  {
    var out := d + g;
    assert forall j :: |d| <= j < |out| ==> out[j] == g[j - |d|] && out[j] in g;
    assert out[|d| - 1] == '/';
    assert RFind(out, '/', |out| - 2) == |d| - 1;
    assert out[..|d|] == d;
  }

  lemma EnterShelf(s: Shelf, seg: Segment)
    requires GoodShelf(s) && Valid(seg) && NoSlash(seg)
    ensures GoodShelf(Shelve(s, seg)) && Enter(TextOf(s), seg) == TextOf(Shelve(s, seg))
  {
    hide Kept, Bare, Directory, EraseLast, Decode;
    KeptChars(seg, false);
    var g := s.glue + Kept(seg, false);
    assert TextOf(s) + Kept(seg, false) == Directory(s.stack) + g;
    if Bare(seg) == ".." {
      DirectoryEnds(s.stack);
      if g == "" {
        assert Directory(s.stack) + "" == Directory(s.stack);
        EraseDirectory(s.stack);
        assert Directory(Push(s.stack, "..")) + "" == Directory(Push(s.stack, ".."));
      } else {
        EraseGlue(Directory(s.stack), g);
        assert Directory(s.stack) + "" == Directory(s.stack);
      }
    } else if Bare(seg) != "" && Bare(seg) != "." {
      DirectorySnoc(s.stack, g);
      assert Directory(s.stack + [g]) + "" == Directory(s.stack + [g]);
    }
  }

  lemma DirectorySnoc(stack: seq<string>, g: string)
    ensures Directory(stack + [g]) == Directory(stack) + g + "/"
  {
    assert (stack + [g])[..|stack|] == stack;
  }

  lemma {:induction false} WalkShelves(s: Shelf, parents: seq<Segment>)
    requires GoodShelf(s) && AllValid(parents) && NoSlashes(parents)
    ensures GoodShelf(ShelveAll(s, parents)) && Walk(TextOf(s), parents) == TextOf(ShelveAll(s, parents))
    decreases |parents|
  {
    hide Enter, Shelve, GoodShelf, TextOf, NoSlash;
    if parents != [] {
      EnterShelf(s, parents[0]);
      WalkShelves(Shelve(s, parents[0]), parents[1..]);
    }
  }

  lemma TextsEqual(s: Shelf, t: Shelf)
    requires GoodShelf(s) && GoodShelf(t)
    ensures TextOf(s) == TextOf(t) <==> s == t
  {
    hide Split, Directory;
    SplitDirectory(s.stack, s.glue);
    SplitDirectory(t.stack, t.glue);
    if TextOf(s) == TextOf(t) {
      SnocInjective(s.stack, s.glue, t.stack, t.glue);
    }
  }

  lemma RemainingGood(parents: seq<Segment>, last: Segment)
    requires AllValid(parents) && Valid(last) && NoSlashes(parents) && NoSlash(last)
    ensures AllValid(Remaining(parents, last)) && Valid(Rest(last))
    ensures GoodShelf(Shelf(DecodeAll(Remaining(parents, last)), Decode(Rest(last))))
  {
    PushSegmentsSubset([], parents);
    var r := Remaining(parents, last);
    forall k | 0 <= k < |r|
      ensures DecodeAll(r)[k] != "" && '/' !in DecodeAll(r)[k]
    {
      assert r[k] in parents && r[k] != [];
    }
  }

  lemma {:induction false} PushSegmentsSubset(stack: seq<Segment>, segs: seq<Segment>)
    requires forall k :: 0 <= k < |stack| ==> stack[k] != []
    ensures forall k :: 0 <= k < |PushSegments(stack, segs)| ==>
              PushSegments(stack, segs)[k] != [] && (PushSegments(stack, segs)[k] in stack || PushSegments(stack, segs)[k] in segs)
    decreases |segs|
  {
    if segs != [] {
      var next := PushSegment(stack, segs[0]);
      assert forall k :: 0 <= k < |next| ==> next[k] in stack || next[k] == segs[0];
      PushSegmentsSubset(next, segs[1..]);
      assert segs == [segs[0]] + segs[1..];
    }
  }

  /** With any segments, ".." included, whose escapes decode to no '/': the output is the shelf's
      text, and it is what the URL means if and only if the shelf holds what remains of it. */
  lemma ShelfOutput(parents: seq<Segment>, last: Segment)
    requires AllValid(parents) && Valid(last) && NoSlashes(parents) && NoSlash(last)
    ensures AllValid(Remaining(parents, last))
    ensures var s := ShelveAll(Shelf([], ""), parents);
            && Rendered(parents, last) == Directory(s.stack) + s.glue + Kept(last, false)
            && (Rendered(parents, last) == Intended(parents, last) <==>
                  s.stack == DecodeAll(Remaining(parents, last)) && s.glue + Kept(last, false) == Decode(Rest(last)))
  {
    hide Walk, ShelveAll, Kept, Decode, DecodeAll, Remaining, Rest, Directory;
    RootDirectory();
    KeptChars(last, false);
    EmptyShelf();
    WalkShelves(Shelf([], ""), parents);
    var s := ShelveAll(Shelf([], ""), parents);
    RemainingGood(parents, last);
    var t := Shelf(DecodeAll(Remaining(parents, last)), Decode(Rest(last)));
    TextsEqual(s.(glue := s.glue + Kept(last, false)), t);
    assert Directory(s.stack) + s.glue + Kept(last, false) == Directory(s.stack) + (s.glue + Kept(last, false));
  }

  lemma EmptyShelf()
    ensures GoodShelf(Shelf([], "")) && TextOf(Shelf([], "")) == "/"
  {
    assert Directory([]) + "" == "/";
  }

  /** A directory that is not glued to the next one: empty, a dot segment, or with plain
      characters beyond two dots. */
  predicate Unglued(seg: Segment)
  {
    seg == [] || IsDot(seg) || IsDotDot(seg) || (Bare(seg) != "" && Bare(seg) != "." && Bare(seg) != "..")
  }

  function KeptAll(segs: seq<Segment>): (r: seq<string>)
    requires AllValid(segs)
    ensures |r| == |segs| && forall k :: 0 <= k < |r| ==> r[k] == Kept(segs[k], false)
  {
    if segs == [] then [] else KeptAll(segs[..|segs| - 1]) + [Kept(segs[|segs| - 1], false)]
  }

  lemma DotDotKept()
    ensures Kept([Plain('.'), Plain('.')], false) == ""
  {
    assert [Plain('.'), Plain('.')][1..] == [Plain('.')] && [Plain('.')][1..] == [];
  }

  lemma {:induction false} UngluedShelves(stack: seq<Segment>, parents: seq<Segment>)
    requires AllValid(stack) && AllValid(parents) && forall k :: 0 <= k < |parents| ==> Unglued(parents[k])
    requires forall k :: 0 <= k < |stack| ==> Kept(stack[k], false) != ""
    ensures AllValid(PushSegments(stack, parents))
    ensures ShelveAll(Shelf(KeptAll(stack), ""), parents) == Shelf(KeptAll(PushSegments(stack, parents)), "")
    decreases |parents|
  {
    hide Kept, Shelve, Unglued, PushSegment, KeptAll;
    if parents != [] {
      UngluedShelve(stack, parents[0]);
      UngluedShelves(PushSegment(stack, parents[0]), parents[1..]);
    }
  }

  lemma UngluedShelve(stack: seq<Segment>, seg: Segment)
    requires AllValid(stack) && Valid(seg) && Unglued(seg)
    requires forall k :: 0 <= k < |stack| ==> Kept(stack[k], false) != ""
    ensures var next := PushSegment(stack, seg);
            && AllValid(next) && (forall k :: 0 <= k < |next| ==> Kept(next[k], false) != "")
            && Shelve(Shelf(KeptAll(stack), ""), seg) == Shelf(KeptAll(next), "")
  {
    hide Kept, Bare, KeptAll, Push;
    DotKept();
    DotDotKept();
    DotDotBare();
    assert "" + Kept(seg, false) == Kept(seg, false);
    if IsDotDot(seg) {
      KeptAllPop(stack);
    } else if seg != [] && !IsDot(seg) {
      KeptChars(seg, false);
      KeptAllSnoc(stack, seg);
    }
  }

  lemma KeptAllPop(stack: seq<Segment>)
    requires AllValid(stack)
    ensures var next := PushSegment(stack, [Plain('.'), Plain('.')]);
            AllValid(next) && KeptAll(next) == Push(KeptAll(stack), "..")
  {
    hide Kept;
    if stack != [] {
      assert KeptAll(stack)[..|stack| - 1] == KeptAll(stack[..|stack| - 1]);
    }
  }

  lemma KeptAllSnoc(stack: seq<Segment>, seg: Segment)
    requires AllValid(stack) && Valid(seg)
    ensures KeptAll(stack + [seg]) == KeptAll(stack) + [Kept(seg, false)]
  {
    assert (stack + [seg])[..|stack|] == stack;
  }

  /** Escapes are decoded exactly once. With ".." allowed, directories not glued and no escape that
      stands for '/': the output is what the URL means if and only if no remaining directory and
      not the last segment begins, in plain characters, with a dot, and a last ".." has nothing to
      pop. */
  lemma EscapedUrl(parents: seq<Segment>, last: Segment)
    requires AllValid(parents) && Valid(last) && NoSlashes(parents) && NoSlash(last)
    requires forall k :: 0 <= k < |parents| ==> Unglued(parents[k])
    ensures var stack := PushSegments([], parents);
            Rendered(parents, last) == Intended(parents, last)
            <==> (forall k :: 0 <= k < |stack| && Bare(stack[k]) != "" ==> Bare(stack[k])[0] != '.')
                 && (if IsDotDot(last) then stack == [] else SoundLast(last))
  {
    hide Kept, Bare, Decode, PushSegments, NoSlash, Valid, NoSlashes, Intended, Rendered, ShelveAll, Directory;
    var stack := PushSegments([], parents);
    PushSegmentsValid([], parents);
    ShelfOutput(parents, last);
    NothingKept();
    UngluedShelves([], parents);
    KeptOrNot(stack);
    LastKept(last);
    assert "" + Kept(last, false) == Kept(last, false);
  }

  lemma NothingKept()
    ensures KeptAll([]) == []
  {
  }

  lemma KeptOrNot(stack: seq<Segment>)
    requires AllValid(stack)
    ensures KeptAll(stack) == DecodeAll(stack) <==> forall k :: 0 <= k < |stack| && Bare(stack[k]) != "" ==> Bare(stack[k])[0] != '.'
  {
    hide Kept, Bare, Decode;
    forall k | 0 <= k < |stack|
      ensures Kept(stack[k], false) == Decode(stack[k]) <==> Bare(stack[k]) == "" || Bare(stack[k])[0] != '.'
    {
      KeptLength(stack[k]);
    }
    if KeptAll(stack) == DecodeAll(stack) {
      assert forall k :: 0 <= k < |stack| ==> KeptAll(stack)[k] == DecodeAll(stack)[k];
    }
  }

  lemma LastKept(last: Segment)
    requires Valid(last)
    ensures Kept(last, false) == Decode(Rest(last)) <==> IsDotDot(last) || SoundLast(last)
  {
    KeptLength(last);
    DotKept();
    DotDotKept();
    DotDotBare();
  }

  // ------------------------------------------------------------- two inputs

  /** An escape alone between slashes loses the '/' behind it: "/%25/x" comes out as "/%x". */
  lemma EscapeAfterSlash()
    ensures Feed(START, "/%25/x").Running? && Feed(START, "/%25/x").c.out == "/%x"
  {
    var e: Segment, x: Segment := [Escape('2', '5')], [Plain('x')];
    assert e[1..] == [] && x[1..] == [] && [e][1..] == [];
    assert Spell(e) == "%25" && Spell(x) == "x" && SpellPath([], x) == "x";
    assert SpellPath([e], x) == "%25" + "/" + "x";
    assert "/" + SpellPath([e], x) == "/%25/x";
    SpelledOutput([e], x);
    assert Meaning(Escape('2', '5')) == '%';
    assert Kept(e, false) == "%" + "" && Bare(e) == "";
    assert Kept(x, false) == "x";
    assert Enter("/", e) == "/%" && Walk("/", [e]) == Walk("/%", []);
  }

  /** An escape that stands for '/' is taken for a separator by a later "..": '%', '5' and the byte
      0x16 decode to '/', so "/a%5<16>b/../c" loses only the "b" and comes out as "/a/c", where the
      URL means "/c". */
  lemma DecodedSlashIsReread()
    ensures var b := [Plain('a'), Escape('5', 0x16 as char), Plain('b')];
            var up := [Plain('.'), Plain('.')];
            && "/" + SpellPath([b, up], [Plain('c')]) == "/a%5" + [0x16 as char] + "b/../c"
            && AllValid([b, up]) && Valid([Plain('c')])
            && At(Feed(START, "/" + SpellPath([b, up], [Plain('c')])), Usual, "/a/c")
            && Intended([b, up], [Plain('c')]) == "/c"
  {
    var s: Token := Escape('5', 0x16 as char);
    var b: Segment, up: Segment, c: Segment := [Plain('a'), s, Plain('b')], [Plain('.'), Plain('.')], [Plain('c')];
    assert EscapeDigit(0x16 as char) == Some(-33) by { assert OrBit5(0x16 as char) == 0x36; }
    assert EscapeDigit('5') == Some(5);
    assert ValidToken(s) && Meaning(s) == '/';
    assert b[1..] == [s, Plain('b')] && [s, Plain('b')][1..] == [Plain('b')] && [Plain('b')][1..] == [] && c[1..] == [];
    assert up[1..] == [Plain('.')] && [Plain('.')][1..] == [];
    assert [b, up][1..] == [up] && [up][1..] == [];
    SlashSpelling(s, b, up, c);
    SpelledOutput([b, up], c);
    SlashRenders(s, b, up, c);
    SlashMeans(b, up, c);
  }

  lemma SlashSpelling(s: Token, b: Segment, up: Segment, c: Segment)
    requires s == Escape('5', 0x16 as char) && b == [Plain('a'), s, Plain('b')] && up == [Plain('.'), Plain('.')] && c == [Plain('c')]
    ensures "/" + SpellPath([b, up], c) == "/a%5" + [0x16 as char] + "b/../c"
  {
    assert b[1..] == [s, Plain('b')] && [s, Plain('b')][1..] == [Plain('b')] && [Plain('b')][1..] == [] && c[1..] == [];
    assert up[1..] == [Plain('.')] && [Plain('.')][1..] == [];
    assert [b, up][1..] == [up] && [up][1..] == [];
    assert Spell([Plain('b')]) == "b" && Spell([s, Plain('b')]) == ['%', '5', 0x16 as char] + "b";
    assert Spell(b) == "a" + (['%', '5', 0x16 as char] + "b");
    assert Spell(up) == "." + Spell([Plain('.')]) == "..";
    assert SpellPath([], c) == "c" && SpellPath([up], c) == ".." + "/" + "c";
    assert SpellPath([b, up], c) == Spell(b) + "/" + SpellPath([up], c);
  }

  lemma SlashRenders(s: Token, b: Segment, up: Segment, c: Segment)
    requires ValidToken(s) && Meaning(s) == '/' && s.Escape?
    requires b == [Plain('a'), s, Plain('b')] && up == [Plain('.'), Plain('.')] && c == [Plain('c')]
    ensures AllValid([b, up]) && Valid(c) && Rendered([b, up], c) == "/a/c" && Bare(c) == "c"
  {
    hide EscapeDigit, Walk, EraseLast, Directory;
    assert b[1..] == [s, Plain('b')] && [s, Plain('b')][1..] == [Plain('b')] && [Plain('b')][1..] == [] && c[1..] == [];
    assert Decode([Plain('b')]) == "b" && Decode([s, Plain('b')]) == "/b" && Decode(b) == "a" + "/b";
    assert Bare(b)[0] == 'a' && Kept(b, false) == "a/b";
    assert Enter("/", b) == "/" + "a/b" + "/" == "/a/b/";
    DotDotKept();
    DotDotBare();
    assert "/a/b/" + "" == "/a/b/";
    EraseLetter();
    WalkTwo("/", b, up);
    assert Kept(c, false) == "c" && Bare(c) == "c" + "";
  }

  lemma EraseLetter()
    ensures EraseLast("/a/b/") == "/a/"
  {
    var out := "/a/b/";
    assert out[2] == '/' && out[3] == 'b';
    assert RFind(out, '/', 3) == 2;
  }

  lemma WalkTwo(out: string, a: Segment, b: Segment)
    requires Valid(a) && Valid(b)
    ensures Walk(out, [a, b]) == Enter(Enter(out, a), b)
  {
    hide Enter;
    assert [a, b][1..] == [b] && [b][1..] == [];
    assert Walk(Enter(out, a), [b]) == Walk(Enter(Enter(out, a), b), []);
  }

  lemma SlashMeans(b: Segment, up: Segment, c: Segment)
    requires Valid(b) && |b| == 3 && up == [Plain('.'), Plain('.')] && c == [Plain('c')]
    ensures AllValid([b, up]) && Valid(c) && Intended([b, up], c) == "/c"
  {
    assert [b, up][1..] == [up] && [up][1..] == [] && c[1..] == [];
    assert PushSegment([], b) == [b] && PushSegment([b], up) == [];
    assert PushSegments([], [b, up]) == PushSegments([b], [up]) == PushSegments([], []) == [];
    RootDirectory();
    assert Decode(c) == "c";
  }
}
