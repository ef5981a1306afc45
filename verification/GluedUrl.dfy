/** URLs in which a directory loses its '/' and ".." takes away too much. */
module GluedUrl {
  // A count of the directories that are meant and of those that are made says when the two agree
  // again.

  import opened Text
  import opened ComplexUrl
  import opened SpelledUrl

  /** How many directories are meant, how many the output has, and whether something is glued to the
      next segment. */
  datatype Level = Level(meant: nat, made: nat, open: bool)

  function Less(n: nat): nat
  {
    if n == 0 then 0 else n - 1
  }

  /** One directory, looked at by its plain characters alone. */
  function Count(l: Level, seg: Segment): Level
  {
    if seg == [] || IsDot(seg) then l
    else if IsDotDot(seg) then Level(Less(l.meant), if l.open then l.made else Less(l.made), false)
    else if Bare(seg) == "" || Bare(seg) == "." then Level(l.meant + 1, l.made, true)
    else if Bare(seg) == ".." then Level(l.meant + 1, l.made, false)
    else Level(l.meant + 1, l.made + 1, false)
  }

  function CountAll(l: Level, segs: seq<Segment>): Level
    decreases |segs|
  {
    if segs == [] then l else CountAll(Count(l, segs[0]), segs[1..])
  }

  function OpenCount(open: bool): nat
  {
    if open then 1 else 0
  }

  /** The counts say how deep stack and shelf are; the shelf is never deeper, and where it is as deep
      it holds just what the transducer keeps of the stack's segments. */
  ghost predicate Counted(l: Level, stack: seq<Segment>, s: Shelf)
    requires AllValid(stack)
  {
    && l.meant == |stack| && l.made == |s.stack| && (l.open <==> s.glue != "")
    && l.made + OpenCount(l.open) <= l.meant
    && (l.made + OpenCount(l.open) == l.meant ==> s.stack + (if l.open then [s.glue] else []) == KeptAll(stack))
  }

  /** Only the empty segment and the plain dot segments leave nothing. */
  lemma KeptSomething(seg: Segment)
    requires Valid(seg) && seg != [] && !IsDot(seg) && !IsDotDot(seg)
    ensures Kept(seg, false) != ""
  {
    if seg[0] == Plain('.') {
      var rest := seg[1..];
      assert seg == [seg[0]] + rest;
      if rest != [] && rest[0] == Plain('.') {
        assert rest == [rest[0]] + rest[1..];
        assert Kept(rest, true) == Decode(rest[1..]);
      }
    }
  }

  lemma KeptDots(seg: Segment)
    requires Valid(seg) && (seg == [] || IsDot(seg) || IsDotDot(seg))
    ensures Kept(seg, false) == "" && Bare(seg) == if IsDotDot(seg) then ".." else if IsDot(seg) then "." else ""
  {
    DotKept();
    DotDotKept();
    DotDotBare();
  }

  lemma CountUp(l: Level, stack: seq<Segment>, s: Shelf)
    requires AllValid(stack) && Counted(l, stack, s)
    ensures var up: Segment := [Plain('.'), Plain('.')];
            var next := PushSegment(stack, up);
            AllValid(next) && Counted(Count(l, up), next, Shelve(s, up))
  {
    hide Kept, Bare, KeptAll;
    var up: Segment := [Plain('.'), Plain('.')];
    KeptDots(up);
    assert s.glue + "" == s.glue;
    KeptAllPop(stack);
    NothingKept();
    if l.open && l.made + 1 == l.meant {
      assert (s.stack + [s.glue])[..|s.stack|] == s.stack;
    }
  }

  lemma CountStep(l: Level, stack: seq<Segment>, s: Shelf, seg: Segment)
    requires AllValid(stack) && Valid(seg) && Counted(l, stack, s)
    ensures AllValid(PushSegment(stack, seg))
    ensures Counted(Count(l, seg), PushSegment(stack, seg), Shelve(s, seg))
  {
    hide Kept, Bare, KeptAll;
    if seg == [] || IsDot(seg) {
      KeptDots(seg);
      assert s.glue + "" == s.glue;
    } else if IsDotDot(seg) {
      CountUp(l, stack, s);
    } else {
      KeptSomething(seg);
      KeptAllSnoc(stack, seg);
      assert "" + Kept(seg, false) == Kept(seg, false);
    }
  }

  lemma {:induction false} CountRun(l: Level, stack: seq<Segment>, s: Shelf, segs: seq<Segment>)
    requires AllValid(stack) && AllValid(segs) && Counted(l, stack, s)
    ensures AllValid(PushSegments(stack, segs))
    ensures Counted(CountAll(l, segs), PushSegments(stack, segs), ShelveAll(s, segs))
    decreases |segs|
  {
    hide Counted, Count, PushSegment, Shelve;
    if segs != [] {
      CountStep(l, stack, s, segs[0]);
      CountRun(Count(l, segs[0]), PushSegment(stack, segs[0]), Shelve(s, segs[0]), segs[1..]);
    }
  }

  const GROUND := Level(0, 0, false)

  /** With any segments, ".." and glued directories included, whose escapes stand for no '/': behind a
      last segment that is not ".." the output is what the URL means if and only if as many directories
      are made as are meant, none that remains begins with a plain dot, and the last segment drops none.
      Behind a last "..", which takes nothing away, the URL must mean the root, or exactly one directory
      too few must have been made and those made be the ones meant. */
  lemma CountedOutput(parents: seq<Segment>, last: Segment)
    requires AllValid(parents) && Valid(last) && NoSlashes(parents) && NoSlash(last)
    ensures var l, stack := CountAll(GROUND, parents), PushSegments([], parents);
            && AllValid(stack) && l.meant == |stack|
            && (Rendered(parents, last) == Intended(parents, last) <==>
                  if IsDotDot(last) then
                    l.meant == 0
                    || (l.made + 1 == l.meant && !l.open && ShelveAll(Shelf([], ""), parents).stack == DecodeAll(stack[..|stack| - 1]))
                  else
                    l.made == l.meant && SoundLast(last)
                    && forall k :: 0 <= k < |stack| && Bare(stack[k]) != "" ==> Bare(stack[k])[0] != '.')
  {
    hide Kept, Bare, Decode, DecodeAll, KeptAll, NoSlashes, NoSlash, Valid, AllValid, Intended, Rendered, ShelveAll, PushSegments, CountAll, Directory, SoundLast;
    NothingKept();
    NoneValid();
    CountRun(GROUND, [], Shelf([], ""), parents);
    ShelfOutput(parents, last);
    LastKept(last);
    var s, l, stack := ShelveAll(Shelf([], ""), parents), CountAll(GROUND, parents), PushSegments([], parents);
    assert s.stack + [] == s.stack;
    if IsDotDot(last) {
      KeptDots(last);
      NoneDecoded();
      assert s.glue + "" == s.glue;
    } else {
      KeptOrNot(stack);
      assert "" + Kept(last, false) == Kept(last, false);
    }
  }

  lemma NoneValid()
    ensures AllValid([])
  {
  }

  lemma CountThree(a: Segment, b: Segment)
    ensures CountAll(GROUND, [a]) == Count(GROUND, a)
    ensures CountAll(GROUND, [a, b]) == Count(Count(GROUND, a), b)
    ensures CountAll(GROUND, [a, b, [Plain('.'), Plain('.')]]) == Count(Count(Count(GROUND, a), b), [Plain('.'), Plain('.')])
  {
    hide Count;
    var up: Segment := [Plain('.'), Plain('.')];
    assert [a, b, up][1..] == [b, up] && [b, up][1..] == [up] && [a, b][1..] == [b] && [up][1..] == [] && [b][1..] == [] && [a][1..] == [];
    assert CountAll(Count(GROUND, a), [b, up]) == CountAll(Count(Count(GROUND, a), b), [up]);
    assert CountAll(Count(Count(GROUND, a), b), [up]) == CountAll(Count(Count(Count(GROUND, a), b), up), []);
    assert CountAll(Count(GROUND, a), [b]) == CountAll(Count(Count(GROUND, a), b), []);
    assert CountAll(Count(GROUND, a), []) == Count(GROUND, a);
  }

  /** "/%25/../x" comes out as it is meant, "/%25/%25/../x" and "/%25/a/../x" do not. */
  lemma GluedInputs()
    ensures var e: Segment, a: Segment, x: Segment, up: Segment := [Escape('2', '5')], [Plain('a')], [Plain('x')], [Plain('.'), Plain('.')];
            && AllValid([e, up]) && AllValid([e, e, up]) && AllValid([e, a, up]) && Valid(x)
            && Rendered([e, up], x) == Intended([e, up], x)
            && Rendered([e, e, up], x) != Intended([e, e, up], x) && Rendered([e, a, up], x) != Intended([e, a, up], x)
  {
    hide *;
    var e: Segment, a: Segment, x: Segment, up: Segment := [Escape('2', '5')], [Plain('a')], [Plain('x')], [Plain('.'), Plain('.')];
    GluedWords(e, a, x, up);
    GluedPair(e, x, up);
    GluedThree(e, e, x, up);
    GluedThree(e, a, x, up);
  }

  /** An escape alone and "..": what is glued is dropped, and that is what was meant. */
  lemma GluedPair(e: Segment, x: Segment, up: Segment)
    requires Valid(e) && Valid(x) && Valid(up) && NoSlash(e) && NoSlash(x) && NoSlash(up)
    requires e != [] && !IsDot(e) && Bare(e) == "" && up == [Plain('.'), Plain('.')] && Bare(x) == "x"
    ensures AllValid([e, up]) && Rendered([e, up], x) == Intended([e, up], x)
  {
    hide Rendered, Intended, CountAll, Valid, NoSlash, Bare, PushSegments;
    DotDotBare();
    CountThree(e, up);
    PoppedStack(e, up);
    CountedOutput([e, up], x);
  }

  /** An escape alone, then something else, and "..": both go. */
  lemma GluedThree(e: Segment, a: Segment, x: Segment, up: Segment)
    requires Valid(e) && Valid(a) && Valid(x) && Valid(up) && NoSlash(e) && NoSlash(a) && NoSlash(x) && NoSlash(up)
    requires e != [] && !IsDot(e) && Bare(e) == "" && up == [Plain('.'), Plain('.')] && Bare(x) == "x"
    requires a != [] && !IsDot(a) && !IsDotDot(a) && (Bare(a) == "" || Bare(a) == "a")
    ensures AllValid([e, a, up]) && Rendered([e, a, up], x) != Intended([e, a, up], x)
  {
    hide Rendered, Intended, CountAll, Valid, NoSlash, Bare, PushSegments;
    DotDotBare();
    CountThree(e, a);
    CountedOutput([e, a, up], x);
  }

  lemma GluedWords(e: Segment, a: Segment, x: Segment, up: Segment)
    requires e == [Escape('2', '5')] && a == [Plain('a')] && x == [Plain('x')] && up == [Plain('.'), Plain('.')]
    ensures Valid(e) && Valid(a) && Valid(x) && Valid(up) && NoSlash(e) && NoSlash(a) && NoSlash(x) && NoSlash(up)
    ensures Bare(e) == "" && Bare(a) == "a" && Bare(x) == "x" && !IsDot(e) && !IsDot(a) && !IsDotDot(e) && !IsDotDot(a)
  {
    assert e[1..] == [] && a[1..] == [] && x[1..] == [] && up[1..] == [Plain('.')] && [Plain('.')][1..] == [];
    assert Decode(e) == "%" + "" && Decode(a) == "a" + "" && Decode(x) == "x" + "" && Decode(up) == "." + ("." + "");
    assert Bare(a) == "a" + "" && Bare(x) == "x" + "";
  }

  lemma PoppedStack(e: Segment, up: Segment)
    requires e != [] && !IsDot(e) && !IsDotDot(e) && IsDotDot(up)
    ensures PushSegments([], [e, up]) == []
  {
    assert [e, up][1..] == [up] && [up][1..] == [];
    assert PushSegment([], e) == [e] && PushSegment([e], up) == [];
    assert PushSegments([e], [up]) == PushSegments([], []);
  }
}
