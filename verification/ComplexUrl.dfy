/** The one-pass URL transducer of both parsers. */
module ComplexUrl {
  // Shared by HttpParser::ParseComplexUrl and HttpRequestParser::ParseURLFormat, and compared with a
  // segment stack (section 5.2.4 of RFC 3986, with empty segments dropped).

  import opened Text

  datatype UrlState = Usual | Slash | Dot | DoubleDot | PercentFirst | PercentSecond

  /** The transducer's variables. `query` records that a '?' was read in state Usual,
      which only the older parser looks at. */
  datatype Config = Config(state: UrlState, trap: UrlState, decode: nat, out: string, query: bool)

  /** On a bad escape `c` is how far the transducer had come. */
  datatype Outcome = Running(c: Config) | BadEscape(atFirst: bool, c: Config)

  const START := Config(Usual, Usual, 0, "", false)

  /** `c | 0x20` on a byte. */
  function OrBit5(c: char): nat
  {
    var v := c as int;
    if v / 32 % 2 == 1 then v else v + 32
  }

  /** What both percent states add to the accumulator: a digit as itself; otherwise the
      letter branch, whose guard is isdigit after the case fold, exactly as coded. */
  function EscapeDigit(c: char): Option<int>
  {
    if IsDigit(c) then Some(c as int - '0' as int)
    else if '0' as int <= OrBit5(c) <= '9' as int then Some(OrBit5(c) - 'a' as int + 10)
    else None
  }

  /** `transfer_url.erase(transfer_url.rfind('/', transfer_url.size() - 2) + 1)`; the
      subtraction wraps below two characters, and rfind then starts at the end. */
  function EraseLast(out: string): string
  {
    out[..RFind(out, '/', if |out| >= 2 then |out| - 2 else |out|) + 1]
  }

  function Step(c: Config, ch: char): Outcome
  {
    match c.state
    case Usual =>
      if ch == '/' then Running(c.(state := Slash, out := c.out + [ch]))
      else if ch == '%' then Running(c.(trap := Usual, state := PercentFirst))
      else Running(c.(out := c.out + [ch], query := c.query || ch == '?'))
    case Slash =>
      if ch == '/' then Running(c)
      else if ch == '.' then Running(c.(state := Dot))
      else if ch == '%' then Running(c.(trap := Slash, state := PercentFirst))
      else Running(c.(out := c.out + [ch], state := Usual))
    case Dot =>
      if ch == '/' then Running(c.(state := Slash))
      else if ch == '.' then Running(c.(state := DoubleDot))
      else if ch == '%' then Running(c.(trap := Dot, state := PercentFirst))
      else Running(c.(out := c.out + [ch], state := Usual))
    case DoubleDot =>
      if ch == '/' then Running(c.(out := EraseLast(c.out), state := Slash))
      else if ch == '%' then Running(c.(trap := DoubleDot, state := PercentFirst))
      else Running(c.(out := c.out + [ch], state := Usual))
    case PercentFirst =>
      (match EscapeDigit(ch)
       case None => BadEscape(true, c)
       case Some(d) => Running(c.(decode := d % 256, state := PercentSecond)))
    case PercentSecond =>
      match EscapeDigit(ch)
      case None => BadEscape(false, c)
      case Some(d) =>
        var b: nat := (c.decode * 16 + d) % 256;
        Running(c.(decode := b, state := c.trap, out := c.out + [b as char]))
  }

  function Feed(c: Config, s: string): Outcome
    decreases |s|
  {
    if s == "" then Running(c) else
    match Step(c, s[0])
    case BadEscape(_, _) => Step(c, s[0])
    case Running(d) => Feed(d, s[1..])
  }

  /** The transducer loop as both sources write it. */
  method Transduce(url: string) returns (ok: bool, out: string, query: bool, atFirst: bool)
    ensures ok <==> Feed(START, url).Running?
    ensures out == Feed(START, url).c.out && query == Feed(START, url).c.query
    ensures !ok ==> Feed(START, url).atFirst == atFirst
  {
    var state, trap, decode: nat := Usual, Usual, 0;
    ok, out, query, atFirst := true, "", false, false;
    var i := 0;
    while i < |url|
      invariant 0 <= i <= |url| && ok
      invariant Feed(START, url) == Feed(Config(state, trap, decode, out, query), url[i..])
    {
      var c := url[i];
      assert url[i..][0] == c && url[i..][1..] == url[i + 1..];
      match state {
        case Usual =>
          if c == '/' {
            state := Slash;
            out := out + [c];
          } else if c == '%' {
            trap := state;
            state := PercentFirst;
          } else {
            if c == '?' {
              query := true;
            }
            out := out + [c];
          }
        case Slash =>
          if c == '.' {
            state := Dot;
          } else if c == '%' {
            trap := state;
            state := PercentFirst;
          } else if c != '/' {
            out := out + [c];
            state := Usual;
          }
        case Dot =>
          if c == '/' {
            state := Slash;
          } else if c == '.' {
            state := DoubleDot;
          } else if c == '%' {
            trap := state;
            state := PercentFirst;
          } else {
            out := out + [c];
            state := Usual;
          }
        case DoubleDot =>
          if c == '/' {
            out := EraseLast(out);
            state := Slash;
          } else if c == '%' {
            trap := state;
            state := PercentFirst;
          } else {
            state := Usual;
            out := out + [c];
          }
        case PercentFirst =>
          var d := EscapeDigit(c);
          if d.None? {
            return false, out, query, true;
          }
          decode := d.value % 256;
          state := PercentSecond;
        case PercentSecond =>
          var d := EscapeDigit(c);
          if d.None? {
            return false, out, query, false;
          }
          decode := (decode * 16 + d.value) % 256;
          state := trap;
          out := out + [decode as char];
      }
      i := i + 1;
    }
  }

  lemma {:induction false} FeedAppend(c: Config, a: string, b: string)
    ensures Feed(c, a + b) ==
            match Feed(c, a) case BadEscape(_, _) => Feed(c, a) case Running(d) => Feed(d, b)
    decreases |a|
  {
    if a == "" {
      assert a + b == b;
    } else {
      assert (a + b)[1..] == a[1..] + b;
      match Step(c, a[0])
      case BadEscape(_, _) =>
      case Running(d) => FeedAppend(d, a[1..], b);
    }
  }

  const AFTER_ROOT := START.(state := Slash, out := "/")

  lemma FeedRoot(url: string)
    requires url != "" && url[0] == '/'
    ensures Feed(START, url) == Feed(AFTER_ROOT, url[1..])
  {
    assert Step(START, '/') == Running(AFTER_ROOT);
  }

  // ------------------------------------------------------ the output is safe

  ghost predicate OutputInRange(c: Config, consumed: nat)
  {
    c.out != "" && c.out[0] == '/' && |c.out| <= consumed
  }

  lemma {:induction false} FeedInRange(c: Config, s: string, consumed: nat)
    requires OutputInRange(c, consumed)
    ensures Feed(c, s).Running? ==> OutputInRange(Feed(c, s).c, consumed + |s|)
    decreases |s|
  {
    if s != "" {
      match Step(c, s[0])
      case BadEscape(_, _) =>
      case Running(d) => FeedInRange(d, s[1..], consumed + 1);
    }
  }

  /** After any nonempty prefix of a URL that starts with '/', in whatever state, the output
      starts with '/', is no longer than the prefix, and the rfind of EraseLast succeeds: the
      erase keeps a prefix ending in '/'. */
  lemma OutputAlwaysInRange(url: string, n: nat)
    requires 0 < n <= |url| && url[0] == '/' && Feed(START, url[..n]).Running?
    ensures var c := Feed(START, url[..n]).c;
            && OutputInRange(c, n)
            && 0 < |EraseLast(c.out)| <= |c.out|
            && EraseLast(c.out) <= c.out
            && EraseLast(c.out)[|EraseLast(c.out)| - 1] == '/'
  {
    FeedRoot(url[..n]);
    FeedInRange(AFTER_ROOT, url[..n][1..], 1);
  }

  // --------------------------------------------- segment-stack normal form

  function Split(s: string): (segs: seq<string>)
    ensures segs != []
    ensures forall k :: 0 <= k < |segs| ==> '/' !in segs[k]
    decreases |s|
  {
    var i := Find(s, '/');
    if i == |s| then [s] else [s[..i]] + Split(s[i + 1..])
  }

  lemma SplitAt(s: string)
    ensures var i := Find(s, '/');
            Split(s) == if i == |s| then [s] else [s[..i]] + Split(s[i + 1..])
  {
    hide Find;
  }

  function Join(segs: seq<string>): string
    requires segs != []
  {
    if |segs| == 1 then segs[0] else segs[0] + "/" + Join(segs[1..])
  }

  function Push(stack: seq<string>, seg: string): seq<string>
  {
    if seg == "" || seg == "." then stack
    else if seg != ".." then stack + [seg]
    else if stack == [] then [] else stack[..|stack| - 1]
  }

  function PushAll(stack: seq<string>, segs: seq<string>): seq<string>
    decreases |segs|
  {
    if segs == [] then stack else PushAll(Push(stack, segs[0]), segs[1..])
  }

  /** "/a/b/" for the stack [a, b]. */
  function Directory(stack: seq<string>): string
  {
    if stack == [] then "/" else Directory(stack[..|stack| - 1]) + stack[|stack| - 1] + "/"
  }

  /** The stack left by all segments but the last. */
  function Parents(url: string): seq<string>
    requires url != ""
  {
    var segs := Split(url[1..]);
    PushAll([], segs[..|segs| - 1])
  }

  function LastSegment(url: string): string
    requires url != ""
  {
    var segs := Split(url[1..]);
    segs[|segs| - 1]
  }

  /** The normal form: drop empty segments, then remove dot segments. */
  function Normalize(url: string): string
    requires url != ""
  {
    var last := LastSegment(url);
    if last == "" || last == "." then Directory(Parents(url))
    else if last == ".." then Directory(Push(Parents(url), ".."))
    else Directory(Parents(url)) + last
  }

  // -------------------------------- what the transducer does to one segment

  predicate Odd(seg: string)
  {
    seg == "" || seg == "." || seg == ".."
  }

  /** The transducer forgets the leading dots of a segment that is not a dot segment. */
  function Strip(seg: string): (r: string)
    requires !Odd(seg)
    ensures r != "" && (r == seg <==> seg[0] != '.') && |r| <= |seg|
    ensures '/' !in seg ==> '/' !in r
  {
    if seg[0] != '.' then seg else if seg[1] != '.' then seg[1..] else seg[2..]
  }

  predicate PlainSegment(seg: string)
  {
    '/' !in seg && '%' !in seg
  }

  ghost predicate CleanStack(stack: seq<string>)
  {
    forall k :: 0 <= k < |stack| ==> !Odd(stack[k]) && '/' !in stack[k]
  }

  ghost predicate NonEmptyStack(stack: seq<string>)
  {
    forall k :: 0 <= k < |stack| ==> stack[k] != "" && '/' !in stack[k]
  }

  function Stripped(stack: seq<string>): (r: seq<string>)
    requires CleanStack(stack)
    ensures |r| == |stack| && forall k :: 0 <= k < |r| ==> r[k] == Strip(stack[k])
  {
    if stack == [] then [] else Stripped(stack[..|stack| - 1]) + [Strip(stack[|stack| - 1])]
  }

  lemma DirectoryEnds(stack: seq<string>)
    ensures Directory(stack) != "" && Directory(stack)[|Directory(stack)| - 1] == '/'
  {
  }

  /** Erasing from a rendered stack pops it, and leaves the root alone. */
  lemma EraseDirectory(stack: seq<string>)
    requires NonEmptyStack(stack)
    ensures EraseLast(Directory(stack)) == Directory(Push(stack, ".."))
  {
    if stack != [] {
      var below := Directory(stack[..|stack| - 1]);
      var top := stack[|stack| - 1];
      DirectoryEnds(stack[..|stack| - 1]);
      var out := below + top + "/";
      assert forall j :: |below| <= j < |below| + |top| ==> out[j] == top[j - |below|] && out[j] in top;
      assert out[|below| - 1] == '/' && '/' !in top;
      assert RFind(out, '/', |out| - 2) == |below| - 1;
      assert out[..|below|] == below;
      assert Directory(stack) == out;
    } else {
      assert "/"[0] == '/';
    }
  }

  lemma {:induction false} FeedUsual(c: Config, w: string)
    requires c.state == Usual && PlainSegment(w)
    ensures Feed(c, w) == Running(c.(out := c.out + w, query := c.query || '?' in w))
    decreases |w|
  {
    if w == "" {
      assert c.out + w == c.out;
    } else {
      FeedUsual(c.(out := c.out + [w[0]], query := c.query || w[0] == '?'), w[1..]);
      assert c.out + [w[0]] + w[1..] == c.out + w;
      assert w == [w[0]] + w[1..];
    }
  }

  lemma FeedDots(c: Config)
    requires c.state == Slash
    ensures Feed(c, "") == Running(c)
    ensures Feed(c, ".") == Running(c.(state := Dot))
    ensures Feed(c, "..") == Running(c.(state := DoubleDot))
  {
    assert ".."[1..] == ".";
    assert Feed(c.(state := Dot), ".") == Running(c.(state := DoubleDot));
  }

  /** Past the dots the rest of a segment is copied. */
  lemma FeedText(d: Config, s: string)
    requires d.state in {Slash, Dot, DoubleDot} && s != "" && PlainSegment(s)
    requires s[0] == '.' ==> d.state == DoubleDot
    ensures Feed(d, s).Running?
    ensures Feed(d, s).c.state == Usual && Feed(d, s).c.out == d.out + s
  {
    assert s[0] in s && PlainSegment(s[1..]);
    var u := Step(d, s[0]).c;
    FeedUsual(u, s[1..]);
    assert d.out + [s[0]] + s[1..] == d.out + s;
  }

  /** One whole segment that is not a dot segment, from the state after a '/'. */
  lemma FeedSegment(c: Config, seg: string)
    requires c.state == Slash && PlainSegment(seg) && !Odd(seg)
    ensures Feed(c, seg).Running?
    ensures Feed(c, seg).c.state == Usual && Feed(c, seg).c.out == c.out + Strip(seg)
  {
    FeedDots(c);
    if seg[0] != '.' {
      FeedText(c, seg);
    } else if seg[1] != '.' {
      assert seg == "." + seg[1..] && PlainSegment(seg[1..]);
      FeedAppend(c, ".", seg[1..]);
      FeedText(c.(state := Dot), seg[1..]);
    } else {
      assert seg == ".." + seg[2..] && PlainSegment(seg[2..]);
      FeedAppend(c, "..", seg[2..]);
      FeedText(c.(state := DoubleDot), seg[2..]);
    }
  }

  // ------------------------------------- the transducer against the stack

  /** What the transducer outputs for a stack of parents and a last segment. */
  function Coded(stack: seq<string>, last: string): string
    requires CleanStack(stack)
  {
    Directory(Stripped(stack)) + if Odd(last) then "" else Strip(last)
  }

  lemma StrippedPush(stack: seq<string>, seg: string)
    requires CleanStack(stack) && '/' !in seg
    ensures CleanStack(Push(stack, seg))
    ensures Stripped(Push(stack, seg)) ==
            if Odd(seg) then Push(Stripped(stack), seg) else Stripped(stack) + [Strip(seg)]
  {
    if !Odd(seg) {
      assert (stack + [seg])[..|stack|] == stack;
    } else if seg == ".." && stack != [] {
      assert Stripped(stack)[..|stack| - 1] == Stripped(stack[..|stack| - 1]);
    }
  }

  lemma FeedOne(c: Config, ch: char)
    ensures Feed(c, [ch]) == Step(c, ch)
  {
    hide Step;
    if Step(c, ch).Running? {
      assert Feed(Step(c, ch).c, [ch][1..]) == Step(c, ch);
    }
  }

  /** A segment and the '/' that ends it push or pop the rendered stack. */
  lemma FeedParent(c: Config, stack: seq<string>, seg: string)
    requires c.state == Slash && CleanStack(stack) && c.out == Directory(Stripped(stack))
    requires PlainSegment(seg)
    ensures CleanStack(Push(stack, seg))
    ensures Feed(c, seg + "/").Running?
    ensures var d := Feed(c, seg + "/").c;
            d.state == Slash && d.out == Directory(Stripped(Push(stack, seg)))
  {
    hide Feed, Strip, EraseLast;
    StrippedPush(stack, seg);
    FeedDots(c);
    if !Odd(seg) {
      FeedSegment(c, seg);
      assert (Stripped(stack) + [Strip(seg)])[..|stack|] == Stripped(stack);
    }
    FeedAppend(c, seg, "/");
    FeedOne(Feed(c, seg).c, '/');
    if seg == ".." {
      EraseDirectory(Stripped(stack));
    }
  }

  ghost predicate AllPlain(segs: seq<string>)
  {
    forall k :: 0 <= k < |segs| ==> PlainSegment(segs[k])
  }

  lemma FeedLast(c: Config, stack: seq<string>, last: string)
    requires c.state == Slash && CleanStack(stack) && c.out == Directory(Stripped(stack))
    requires PlainSegment(last)
    ensures Feed(c, last).Running? && Feed(c, last).c.out == Coded(stack, last)
  {
    if Odd(last) {
      FeedDots(c);
    } else {
      FeedSegment(c, last);
    }
  }

  lemma {:induction false} FeedSegments(c: Config, stack: seq<string>, parents: seq<string>, last: string)
    requires c.state == Slash && CleanStack(stack) && c.out == Directory(Stripped(stack))
    requires PlainSegment(last) && AllPlain(parents)
    ensures CleanStack(PushAll(stack, parents))
    ensures Feed(c, Join(parents + [last])).Running?
    ensures Feed(c, Join(parents + [last])).c.out == Coded(PushAll(stack, parents), last)
    decreases |parents|
  {
    hide Feed, Step, Push, CleanStack, PlainSegment, Directory, Stripped, Coded;
    if parents == [] {
      assert parents + [last] == [last];
      FeedLast(c, stack, last);
    } else {
      var rest := parents[1..];
      FeedParent(c, stack, parents[0]);
      var d := Feed(c, parents[0] + "/").c;
      var st := Push(stack, parents[0]);
      FeedSegments(d, st, rest, last);
      var j := Join(rest + [last]);
      assert (parents + [last])[1..] == rest + [last];
      assert Join(parents + [last]) == parents[0] + "/" + j;
      FeedAppend(c, parents[0] + "/", j);
      assert PushAll(stack, parents) == PushAll(st, rest);
      assert Feed(c, Join(parents + [last])) == Feed(d, j);
    }
  }

  lemma {:induction false} JoinSplit(s: string)
    ensures Join(Split(s)) == s
    ensures '%' !in s ==> AllPlain(Split(s))
    decreases |s|
  {
    hide Find;
    var i := Find(s, '/');
    if i < |s| {
      JoinSplit(s[i + 1..]);
      assert s == s[..i] + "/" + s[i + 1..];
      assert Split(s)[1..] == Split(s[i + 1..]);
    }
  }

  /** On a URL without '%' the transducer computes exactly Coded. */
  lemma TransducerOutput(url: string)
    requires url != "" && url[0] == '/' && '%' !in url
    ensures CleanStack(Parents(url))
    ensures Feed(START, url).Running?
    ensures Feed(START, url).c.out == Coded(Parents(url), LastSegment(url))
  {
    hide Feed, Split, Join, PushAll, Odd, Strip;
    var segs := Split(url[1..]);
    var parents, last := segs[..|segs| - 1], segs[|segs| - 1];
    JoinSplit(url[1..]);
    assert segs == parents + [last];
    FeedSegments(AFTER_ROOT, [], parents, last);
    FeedRoot(url);
  }

  /** What a caller can check beforehand: no parent that survives the ".." segments starts
      with a dot, the last segment starts with none unless it is a dot segment, and a last
      ".." has nothing to pop. */
  predicate DotSafe(url: string)
    requires url != ""
  {
    var last := LastSegment(url);
    && (forall k :: 0 <= k < |Parents(url)| && Parents(url)[k] != "" ==> Parents(url)[k][0] != '.')
    && (last == ".." ==> Parents(url) == [])
    && (!Odd(last) ==> last[0] != '.')
  }

  lemma {:induction false} SplitAppend(a: string, b: string)
    ensures Split(a + "/" + b) == Split(a) + Split(b)
    decreases |a|
  {
    hide Find;
    var s := a + "/" + b;
    var i := Find(a, '/');
    FindUnique(s, '/', i);
    if i < |a| {
      assert s[i + 1..] == a[i + 1..] + "/" + b;
      assert s[..i] == a[..i];
      SplitAppend(a[i + 1..], b);
    } else {
      assert s[..i] == a && s[i + 1..] == b;
    }
  }

  lemma SplitWord(s: string)
    requires '/' !in s
    ensures Split(s) == [s]
  {
    FindNone(s, '/');
  }

  lemma {:induction false} SplitDirectory(stack: seq<string>, last: string)
    requires '/' !in last && forall k :: 0 <= k < |stack| ==> '/' !in stack[k]
    ensures Directory(stack) != "" && Directory(stack)[0] == '/'
    ensures Split((Directory(stack) + last)[1..]) == stack + [last]
  {
    hide Split, Find;
    SplitWord(last);
    if stack == [] {
      assert ("/" + last)[1..] == last;
      assert stack + [last] == [last];
    } else {
      var below, top := stack[..|stack| - 1], stack[|stack| - 1];
      SplitDirectory(below, top);
      var d := Directory(below) + top;
      assert (Directory(stack) + last)[1..] == d[1..] + "/" + last;
      SplitAppend(d[1..], last);
      assert stack == below + [top];
    }
  }

  lemma {:induction false} PushAllClean(stack: seq<string>, segs: seq<string>)
    requires CleanStack(stack) && forall k :: 0 <= k < |segs| ==> '/' !in segs[k]
    ensures CleanStack(PushAll(stack, segs))
    decreases |segs|
  {
    if segs != [] {
      PushAllClean(Push(stack, segs[0]), segs[1..]);
    }
  }

  lemma {:induction false} PushAllOfClean(stack: seq<string>, segs: seq<string>)
    requires CleanStack(segs)
    ensures PushAll(stack, segs) == stack + segs
    decreases |segs|
  {
    if segs == [] {
      assert stack + segs == stack;
    } else {
      PushAllOfClean(stack + [segs[0]], segs[1..]);
      assert stack + [segs[0]] + segs[1..] == stack + segs;
    }
  }

  /** A rendered clean stack is its own normal form. */
  lemma RenderedIsNormal(stack: seq<string>, last: string)
    requires CleanStack(stack) && '/' !in last && (last == "" || !Odd(last))
    ensures var n := Directory(stack) + last;
            && n != "" && n[0] == '/' && Split(n[1..]) == stack + [last]
            && Parents(n) == stack && LastSegment(n) == last && Normalize(n) == n
  {
    hide Split, Directory, PushAll;
    SplitDirectory(stack, last);
    assert (stack + [last])[..|stack|] == stack;
    PushAllOfClean([], stack);
    assert [] + stack == stack;
    assert last == "" ==> Directory(stack) + last == Directory(stack);
  }

  /** The normal form written out as a stack and a last segment. */
  lemma NormalForm(url: string) returns (stack: seq<string>, last: string)
    requires url != ""
    ensures CleanStack(stack) && '/' !in last && (last == "" || !Odd(last))
    ensures Normalize(url) == Directory(stack) + last
    ensures stack == if LastSegment(url) == ".." then Push(Parents(url), "..") else Parents(url)
    ensures last == if Odd(LastSegment(url)) then "" else LastSegment(url)
  {
    hide Split, Directory, PushAll;
    var segs := Split(url[1..]);
    PushAllClean([], segs[..|segs| - 1]);
    var l := LastSegment(url);
    StrippedPush(Parents(url), "..");
    stack := if l == ".." then Push(Parents(url), "..") else Parents(url);
    last := if Odd(l) then "" else l;
    assert Directory(stack) + "" == Directory(stack);
  }

  lemma SnocInjective(a: seq<string>, x: string, b: seq<string>, y: string)
    requires a + [x] == b + [y]
    ensures a == b && x == y
  {
    assert |a| == |b|;
    assert (a + [x])[..|a|] == a && (b + [y])[..|b|] == b;
    assert (a + [x])[|a|] == x && (b + [y])[|b|] == y;
  }

  /** Outputs are equal exactly when stacks and last segments are. */
  lemma CodedIsNormalize(url: string)
    requires url != "" && CleanStack(Parents(url))
    ensures Coded(Parents(url), LastSegment(url)) == Normalize(url)
            <==> Stripped(Parents(url)) == (if LastSegment(url) == ".." then Push(Parents(url), "..") else Parents(url))
                 && (!Odd(LastSegment(url)) ==> Strip(LastSegment(url)) == LastSegment(url))
  {
    hide Split, Directory, PushAll, Strip, Normalize;
    var stack, last := NormalForm(url);
    RenderedIsNormal(stack, last);
    var tail := if Odd(LastSegment(url)) then "" else Strip(LastSegment(url));
    var kept := Stripped(Parents(url));
    SplitDirectory(kept, tail);
    if Directory(kept) + tail == Directory(stack) + last {
      SnocInjective(kept, tail, stack, last);
    }
  }

  lemma StrippedSame(stack: seq<string>)
    requires CleanStack(stack)
    ensures Stripped(stack) == stack <==> forall k :: 0 <= k < |stack| ==> stack[k][0] != '.'
  {
    if Stripped(stack) == stack {
      forall k | 0 <= k < |stack|
        ensures stack[k][0] != '.'
      {
        assert Stripped(stack)[k] == Strip(stack[k]);
      }
    }
  }

  /** The one-pass transducer agrees with the segment stack exactly on the DotSafe URLs. A '?' is an
      ordinary character to both, as inside a path; PathAndQuery takes the query off first. */
  lemma TransducerIsNormalize(url: string)
    requires url != "" && url[0] == '/' && '%' !in url
    ensures Feed(START, url).Running?
    ensures Feed(START, url).c.out == Normalize(url) <==> DotSafe(url)
  {
    TransducerOutput(url);
    CodedIsNormalize(url);
    StrippedSame(Parents(url));
  }

  lemma NormalizeIdempotent(url: string)
    requires url != ""
    ensures Normalize(url) != "" && Normalize(url)[0] == '/'
    ensures Normalize(Normalize(url)) == Normalize(url)
    ensures DotSafe(url) ==> DotSafe(Normalize(url))
  {
    hide Split, Directory, PushAll, Normalize;
    var stack, last := NormalForm(url);
    RenderedIsNormal(stack, last);
  }

  lemma {:induction false} DirectoryChars(stack: seq<string>, c: char)
    requires c != '/' && forall k :: 0 <= k < |stack| ==> c !in stack[k]
    ensures c !in Directory(stack)
  {
    if stack != [] {
      DirectoryChars(stack[..|stack| - 1], c);
    }
  }

  lemma {:induction false} PushAllChars(stack: seq<string>, segs: seq<string>, c: char)
    requires forall k :: 0 <= k < |stack| ==> c !in stack[k]
    requires forall k :: 0 <= k < |segs| ==> c !in segs[k]
    ensures forall k :: 0 <= k < |PushAll(stack, segs)| ==> c !in PushAll(stack, segs)[k]
    decreases |segs|
  {
    if segs != [] {
      PushAllChars(Push(stack, segs[0]), segs[1..], c);
    }
  }

  /** Running the transducer on its own output changes nothing on its good domain. */
  lemma TransducerIdempotent(url: string)
    requires url != "" && url[0] == '/' && '%' !in url && DotSafe(url)
    ensures Feed(START, url).Running?
    ensures Feed(START, Feed(START, url).c.out).Running?
    ensures Feed(START, Feed(START, url).c.out).c.out == Feed(START, url).c.out
  {
    hide Feed, Split, Directory, PushAll, Normalize, DotSafe, CleanStack;
    TransducerIsNormalize(url);
    NormalizeIdempotent(url);
    var stack, last := NormalForm(url);
    var segs := Split(url[1..]);
    JoinSplit(url[1..]);
    assert '%' !in url[1..];
    PushAllChars([], segs[..|segs| - 1], '%');
    DirectoryChars(stack, '%');
    TransducerIsNormalize(Normalize(url));
  }

  lemma TwoSegments(p: string, l: string)
    requires '/' !in p && '/' !in l
    ensures var url := "/" + p + "/" + l; Parents(url) == Push([], p) && LastSegment(url) == l
  {
    var url := "/" + p + "/" + l;
    assert url[1..] == p + "/" + l;
    SplitAppend(p, l);
    assert Split(url[1..]) == [p, l] && [p, l][..1] == [p];
    assert PushAll([], [p]) == PushAll(Push([], p), []);
  }

  /** "/.x/" comes out as something else than its normal form. */
  lemma LeadingDotIsLost()
    ensures var url := "/" + ".x" + "/" + "";
            Feed(START, url).Running? && Feed(START, url).c.out != Normalize(url)
  {
    var p := ".x";
    var url := "/" + p + "/" + "";
    TwoSegments(p, "");
    assert Parents(url)[0] == p && p[0] == '.';
    TransducerIsNormalize(url);
  }

  /** So does "/a/..", whose last ".." is dropped without popping. */
  lemma LastDotDotIsLost()
    ensures var url := "/" + "a" + "/" + "..";
            Feed(START, url).Running? && Feed(START, url).c.out != Normalize(url)
  {
    var p := "a";
    var url := "/" + p + "/" + "..";
    TwoSegments(p, "..");
    assert Parents(url)[0] == p;
    TransducerIsNormalize(url);
  }

  // -------------------------------------------------- dot segments in the output

  predicate DotSegment(seg: string)
  {
    seg == "." || seg == ".."
  }

  predicate HasDotSegment(url: string)
    requires url != ""
  {
    exists k :: 0 <= k < |Split(url[1..])| && DotSegment(Split(url[1..])[k])
  }

  /** Three or four dots: what is left of them is a dot segment. */
  predicate LeavesDots(seg: string)
  {
    seg == "..." || seg == "...."
  }

  lemma StripLeaves(seg: string)
    requires !Odd(seg)
    ensures DotSegment(Strip(seg)) <==> LeavesDots(seg)
  {
    if seg[0] == '.' && seg[1] == '.' {
      assert seg == ".." + seg[2..];
    }
  }

  /** The output is not free of dot segments: it holds one if and only if a remaining directory or
      the last segment consists of three or four dots. */
  lemma OutputDotSegments(url: string)
    requires url != "" && url[0] == '/' && '%' !in url
    ensures Feed(START, url).Running? && Feed(START, url).c.out != ""
    ensures HasDotSegment(Feed(START, url).c.out)
       <==> (exists k :: 0 <= k < |Parents(url)| && LeavesDots(Parents(url)[k])) || LeavesDots(LastSegment(url))
  {
    hide Feed, Split, PushAll, Directory, Strip, Odd;
    TransducerOutput(url);
    var stack, last := Parents(url), LastSegment(url);
    var kept, tail := Stripped(stack), if Odd(last) then "" else Strip(last);
    SplitDirectory(kept, tail);
    var segs := Split((Directory(kept) + tail)[1..]);
    assert segs == kept + [tail];
    forall k | 0 <= k < |stack|
      ensures DotSegment(segs[k]) <==> LeavesDots(stack[k])
    {
      StripLeaves(stack[k]);
    }
    LastLeaves(last);
    if DotSegment(tail) {
      assert DotSegment(segs[|kept|]);
    }
    if k :| 0 <= k < |stack| && LeavesDots(stack[k]) {
      assert DotSegment(segs[k]);
    }
  }

  lemma LastLeaves(last: string)
    ensures DotSegment(if Odd(last) then "" else Strip(last)) <==> LeavesDots(last)
  {
    if !Odd(last) {
      StripLeaves(last);
    }
  }

  /** "//..../x" comes out as "/../x". */
  lemma FourDotsClimb()
    ensures Feed(START, "/" + "/" + "...." + "/" + "x").Running?
    ensures Feed(START, "/" + "/" + "...." + "/" + "x").c.out == "/" + ".." + "/" + "x"
  {
    hide Feed, Split, PushAll;
    var url := "/" + "...." + "/" + "x";
    ExtraSlash(url);
    assert "/" + "/" + "...." + "/" + "x" == "/" + url;
    TwoSegments("....", "x");
    assert Push([], "....") == ["...."];
    assert '%' !in url;
    TransducerOutput(url);
    FourDotsLeft();
  }

  /** A second '/' at the root is ignored. */
  lemma ExtraSlash(url: string)
    requires url != "" && url[0] == '/'
    ensures Feed(START, "/" + url) == Feed(START, url)
  {
    FeedRoot("/" + url);
    FeedRoot(url);
    assert ("/" + url)[1..] == url;
  }

  lemma FourDotsLeft()
    ensures CleanStack(["...."]) && Coded(["...."], "x") == "/" + ".." + "/" + "x"
  {
    assert ["...."][..0] == [] && [".."][..0] == [];
    assert Strip("....") == ".." && Strip("x") == "x";
    assert Stripped(["...."]) == [".."];
    assert Directory([".."]) == "/" + ".." + "/";
  }
}
