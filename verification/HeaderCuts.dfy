/** The header loop of the older parser over bytes that arrive in pieces: for which header blocks
    the cuts make no difference. */
module HeaderCuts {
  import opened Text
  import opened HttpMessage
  import opened HttpRequestParser

  /** Append each piece and call again while the answer is kShort. */
  function HeaderPieces(o: HeaderOutcome, s: string, pieces: seq<string>): HeaderOutcome
    requires o.h.pos <= |s|
    decreases |pieces|
  {
    if pieces == [] || o.result != HeadersShort then o
    else HeaderPieces(HeaderCall(o.h, s + pieces[0]), s + pieces[0], pieces[1..])
  }

  /** However the bytes are cut behind the position, and whatever has been read before it, the
      repeated calls end as one call on the whole does. */
  ghost predicate CutsAgree(s: string, pos: nat)
  {
    forall h: Header, pieces: seq<string> ::
      h.pos == pos && pieces != [] && pos <= |pieces[0]| && Flatten(pieces) == s && pos <= |s| ==>
        HeaderPieces(HeaderCall(h, pieces[0]), pieces[0], pieces[1..]) == HeaderCall(h, s)
  }

  /** Before the blank line, the end or a line without a colon, another Content-Length is read. */
  predicate LengthComes(s: string, pos: nat)
    requires pos <= |s|
    decreases |s| - pos
  {
    var rest := s[pos..];
    var eol, colon := FindCrLf(rest), Find(rest, ':');
    && !BlankLine(rest) && eol < |rest| && colon + 2 <= |rest|
    && (rest[..colon] == "Content-Length" || LengthComes(s, pos + eol + 2))
  }

  /** The first line that is not "name: value" decides. Nothing is lost if no colon comes at all
      behind it; if the next colon is in a later line, a cut shows. A line that ends at its colon
      takes everything behind it for its value, so it is harmless only if nothing is behind it, or
      if nobody looks at the value: the name has been `seen`, and a length read from it is 0 or
      overwritten. */
  predicate Harmless(s: string, pos: nat, seen: set<string>)
    requires pos <= |s|
    decreases |s| - pos
  {
    var rest := s[pos..];
    var eol, colon := FindCrLf(rest), Find(rest, ':');
    || BlankLine(rest) || eol == |rest| || colon == |rest|
    || (colon < eol && !LineShows(s, pos, seen) && Harmless(s, pos + eol + 2, seen + {rest[..colon]}))
  }

  /** The line at `pos` ends at its colon and somebody looks at its value. */
  predicate LineShows(s: string, pos: nat, seen: set<string>)
    requires pos <= |s| && FindCrLf(s[pos..]) < |s[pos..]| && Find(s[pos..], ':') < FindCrLf(s[pos..])
  {
    var rest := s[pos..];
    var eol, colon := FindCrLf(rest), Find(rest, ':');
    && colon + 2 > eol && eol + 2 < |rest|
    && (rest[..colon] !in seen
        || (rest[..colon] == "Content-Length" && Atoll(rest[colon + 2..]) != 0 && !LengthComes(s, pos + eol + 2)))
  }

  // ------------------------------------------------------- what the length does

  lemma StepLength(h: Header, l: nat, rest: string)
    ensures var a, b := StepHeader(h, rest), StepHeader(h.(length := l), rest);
            if a.Stop? then b == a
            else b.TakeLine? && Find(rest, ':') + 2 <= |rest|
                 && b.h == if rest[..Find(rest, ':')] == "Content-Length" then a.h else a.h.(length := l)
    ensures StepHeader(h, rest).TakeLine? && rest[..Find(rest, ':')] != "Content-Length" ==> StepHeader(h, rest).h.length == h.length
  {
    hide Find, FindCrLf, Emplace, Atoll, FieldValue, BlankLine;
  }

  lemma StepTakes(h: Header, rest: string)
    ensures StepHeader(h, rest).TakeLine? <==> !BlankLine(rest) && FindCrLf(rest) < |rest| && Find(rest, ':') + 2 <= |rest|
    ensures StepHeader(h, rest).TakeLine? ==> StepHeader(h, rest).h.pos == h.pos + FindCrLf(rest) + 2
  {
    hide Find, FindCrLf, Emplace, Atoll, FieldValue, BlankLine;
  }

  /** The length a call starts with is what it ends with, unless a line overwrites it. */
  lemma {:induction false} LengthPasses(h: Header, l: nat, s: string)
    requires h.pos <= |s|
    ensures var o, p := HeaderCall(h, s), HeaderCall(h.(length := l), s);
            if LengthComes(s, h.pos) then p == o else o.h.length == h.length && p == o.(h := o.h.(length := l))
    decreases |s| - h.pos
  {
    hide HeaderCall, StepHeader, Find, FindCrLf, BlankLine;
    var rest := s[h.pos..];
    HeaderCallStep(h, s);
    HeaderCallStep(h.(length := l), s);
    StepLength(h, l, rest);
    StepTakes(h, rest);
    var step := StepHeader(h, rest);
    if step.TakeLine? && rest[..Find(rest, ':')] != "Content-Length" {
      LengthPasses(step.h, l, s);
    }
  }

  /** A header, once there, stays as it is. */
  lemma {:induction false} HeadersStay(h: Header, s: string, name: string)
    requires h.pos <= |s| && name in h.headers
    ensures name in HeaderCall(h, s).h.headers && HeaderCall(h, s).h.headers[name] == h.headers[name]
    decreases |s| - h.pos
  {
    hide HeaderCall, Find, FindCrLf, BlankLine, Atoll, FieldValue;
    HeaderCallStep(h, s);
    var step := StepHeader(h, s[h.pos..]);
    if step.TakeLine? {
      HeadersStay(step.h, s, name);
    }
  }

  lemma {:induction false} SkipMore(v: string, w: string)
    ensures SkipSpaces(v) != "" ==> SkipSpaces(v + w) == SkipSpaces(v) + w
    decreases |v|
  {
    if v != "" && IsSpace(v[0]) {
      assert (v + w)[1..] == v[1..] + w;
      SkipMore(v[1..], w);
    }
  }

  lemma {:induction false} DigitsGrow(v: string, w: string, acc: nat)
    ensures DigitsValue(v + w, acc) >= DigitsValue(v, acc) >= acc
    decreases |v|
  {
    if v == "" {
      assert v + w == w;
      DigitsAtLeast(w, acc);
    } else if IsDigit(v[0]) {
      assert (v + w)[1..] == v[1..] + w;
      DigitsGrow(v[1..], w, acc * 10 + (v[0] as int - '0' as int));
    }
  }

  lemma {:induction false} DigitsAtLeast(w: string, acc: nat)
    ensures DigitsValue(w, acc) >= acc
    decreases |w|
  {
    if w != "" && IsDigit(w[0]) {
      DigitsAtLeast(w[1..], acc * 10 + (w[0] as int - '0' as int));
    }
  }

  /** A number that is 0 is 0 as far as it has arrived. */
  lemma AtollPrefix(v: string, w: string)
    requires Atoll(v + w) == 0
    ensures Atoll(v) == 0
  {
    var t := SkipSpaces(v);
    SkipMore(v, w);
    if t != "" {
      var signed := t[0] == '-' || t[0] == '+';
      var u := if signed then t[1..] else t;
      assert signed ==> (t + w)[1..] == u + w;
      DigitsGrow(u, w, 0);
    }
  }

  // --------------------------------------------------- harmless lines resume

  /** The first line of `rest` read with only `part` of it there. */
  lemma SameLine(rest: string, part: string, more: string)
    requires rest == part + more
    ensures BlankLine(part) ==> BlankLine(rest)
    ensures FindCrLf(part) < |part| ==>
              FindCrLf(rest) == FindCrLf(part) && (BlankLine(part) <==> BlankLine(rest))
              && (Find(part, ':') < |part| ==> Find(rest, ':') == Find(part, ':') && rest[..Find(rest, ':')] == part[..Find(part, ':')])
              && (Find(part, ':') == |part| ==> Find(rest, ':') >= |part|)
  {
    hide FindCrLf, Find;
    if FindCrLf(part) < |part| {
      FindCrLfStable(part, more);
      assert |part| >= 2 && part[0] == rest[0] && part[1] == rest[1];
      var c := Find(part, ':');
      assert forall i :: 0 <= i < |part| ==> rest[i] == part[i];
      if c < |part| {
        FindUnique(rest, ':', c);
        assert rest[..c] == part[..c];
      }
    }
  }

  /** A line with a byte behind its colon is read the same; one that ends at its colon differs in its
      value, and so, if the name is there already, at most in the length. */
  lemma SameStep(h: Header, rest: string, part: string, more: string)
    requires rest == part + more && FindCrLf(part) < |part| && !BlankLine(part) && Find(rest, ':') < FindCrLf(rest)
    ensures Find(part, ':') == Find(rest, ':') && FindCrLf(part) == FindCrLf(rest)
    ensures StepHeader(h, part).TakeLine? && StepHeader(h, rest).TakeLine?
    ensures var a, b, eol, colon := StepHeader(h, part).h, StepHeader(h, rest).h, FindCrLf(rest), Find(rest, ':');
            var cl := rest[..colon] == "Content-Length";
            && a.headers.Keys == b.headers.Keys == h.headers.Keys + {rest[..colon]} && a.pos == b.pos == h.pos + eol + 2
            && (if colon + 2 <= eol then a == b
                else
                  && a.headers == Emplace(h.headers, rest[..colon], part[colon + 2..])
                  && b.headers == Emplace(h.headers, rest[..colon], rest[colon + 2..])
                  && a.length == (if cl then Atoll(part[colon + 2..]) else h.length)
                  && b.length == (if cl then Atoll(rest[colon + 2..]) else h.length))
  {
    hide FindCrLf, Find, Atoll;
    SameLine(rest, part, more);
    var eol, colon := FindCrLf(rest), Find(rest, ':');
    assert rest[..colon] == part[..colon];
    if colon + 2 <= eol {
      assert rest[colon + 2..eol] == part[colon + 2..eol];
    }
  }

  /** As much of a line that ends at its colon as has arrived, its name seen already. */
  lemma ShowsNothing(s: string, pos: nat, seen: set<string>, h: Header, part: string, more: string)
    requires pos <= |s| && s[pos..] == part + more && FindCrLf(part) < |part| && !BlankLine(part)
    requires h.pos == pos && seen <= h.headers.Keys
    requires FindCrLf(s[pos..]) < |s[pos..]| && Find(s[pos..], ':') < FindCrLf(s[pos..]) && !LineShows(s, pos, seen)
    ensures StepHeader(h, part).TakeLine? && StepHeader(h, s[pos..]).TakeLine?
    ensures var a, b := StepHeader(h, part).h, StepHeader(h, s[pos..]).h;
            a.pos == b.pos <= |s| && a.headers == b.headers && HeaderCall(a, s) == HeaderCall(b, s)
  {
    hide FindCrLf, Find, HeaderCall, BlankLine, StepHeader;
    var rest := s[pos..];
    SameStep(h, rest, part, more);
    var a, b, eol, colon := StepHeader(h, part).h, StepHeader(h, rest).h, FindCrLf(rest), Find(rest, ':');
    if colon + 2 > eol {
      if eol + 2 == |rest| {
        assert part == rest;
      } else {
        assert rest[colon + 2..] == part[colon + 2..] + more;
        if rest[..colon] == "Content-Length" {
          if Atoll(rest[colon + 2..]) == 0 {
            AtollPrefix(part[colon + 2..], more);
          } else {
            LengthPasses(a, b.length, s);
          }
          assert b == a.(length := b.length);
        }
      }
    }
  }

  /** With more bytes behind, what a call has decided stays, and where it wanted more, going on from
      where it stopped is as good as one call. */
  lemma {:induction false} HarmlessExtends(h: Header, a: string, b: string, seen: set<string>) returns (seen': set<string>)
    requires h.pos <= |a| && Harmless(a + b, h.pos, seen) && seen <= h.headers.Keys
    ensures var o := HeaderCall(h, a);
            if o.result == HeadersShort then
              Harmless(a + b, o.h.pos, seen') && seen' <= o.h.headers.Keys && HeaderCall(h, a + b) == HeaderCall(o.h, a + b)
            else HeaderCall(h, a + b) == o
    decreases |a| - h.pos
  {
    hide FindCrLf, Find, HeaderCall, BlankLine, StepHeader, LineShows;
    var part := a[h.pos..];
    var rest := (a + b)[h.pos..];
    assert rest == part + b;
    HeaderCallStep(h, a);
    HeaderCallStep(h, a + b);
    PartStep(h, part);
    PartStep(h, rest);
    SameLine(rest, part, b);
    seen' := seen;
    var step := StepHeader(h, part);
    if step.TakeLine? {
      ShowsNothing(a + b, h.pos, seen, h, part, b);
      SameStep(h, rest, part, b);
      HeaderCallStep(h, a + b);
      seen' := HarmlessExtends(step.h, a, b, seen + {rest[..Find(rest, ':')]});
    }
  }

  /** The outcome of one step by what is found in the bytes. */
  lemma PartStep(h: Header, rest: string)
    ensures var eol, colon, step := FindCrLf(rest), Find(rest, ':'), StepHeader(h, rest);
            if BlankLine(rest) then step == Stop(HeadersComplete)
            else if eol == |rest| then step == Stop(HeadersShort)
            else if colon == |rest| then step == Stop(HeadersBad)
            else if colon + 2 > |rest| then step == Stop(HeadersFault)
            else step.TakeLine? && step.h.pos == h.pos + eol + 2 && eol + 2 <= |rest|
  {
    hide FindCrLf, Find, Emplace, Atoll, FieldValue, BlankLine;
  }

  lemma {:induction false} HarmlessPieces(h: Header, s: string, pieces: seq<string>, seen: set<string>)
    requires h.pos <= |s| && Harmless(s + Flatten(pieces), h.pos, seen) && seen <= h.headers.Keys
    ensures HeaderPieces(HeaderCall(h, s), s, pieces) == HeaderCall(h, s + Flatten(pieces))
    decreases |pieces|
  {
    hide HeaderCall, Harmless;
    if pieces == [] {
      assert s + Flatten(pieces) == s;
    } else {
      assert s + Flatten(pieces) == s + pieces[0] + Flatten(pieces[1..]);
      var seen' := HarmlessExtends(h, s, Flatten(pieces), seen);
      var o := HeaderCall(h, s);
      if o.result == HeadersShort {
        HarmlessPieces(o.h, s + pieces[0], pieces[1..], seen');
      }
    }
  }

  // ------------------------------------------------------ other lines do not

  /** One call on the first `c` bytes and, if it wants more, one on all. */
  function TwoCalls(h: Header, s: string, c: nat): HeaderOutcome
    requires h.pos <= c <= |s|
  {
    var o := HeaderCall(h, s[..c]);
    if o.result == HeadersShort then HeaderCall(o.h, s) else o
  }

  /** Where to cut: right behind the first line that shows. */
  function BadCut(s: string, pos: nat, seen: set<string>): (c: nat)
    requires pos <= |s| && !Harmless(s, pos, seen)
    ensures pos < c < |s|
    decreases |s| - pos
  {
    var rest := s[pos..];
    var eol, colon := FindCrLf(rest), Find(rest, ':');
    if colon > eol || LineShows(s, pos, seen) then pos + eol + 2
    else BadCut(s, pos + eol + 2, seen + {rest[..colon]})
  }

  /** The colon is in a later line: one call goes on, a call cut behind the line rejects it. */
  lemma LaterColonDiffers(h1: Header, h2: Header, s: string)
    requires h1.pos == h2.pos <= |s|
    requires var rest := s[h1.pos..]; !BlankLine(rest) && FindCrLf(rest) < Find(rest, ':') < |rest|
    ensures var c := h1.pos + FindCrLf(s[h1.pos..]) + 2; c <= |s| && TwoCalls(h1, s, c) != HeaderCall(h2, s)
  {
    hide FindCrLf, Find, HeaderCall, BlankLine, StepHeader;
    var rest := s[h1.pos..];
    var c := h1.pos + FindCrLf(rest) + 2;
    var part := s[..c][h1.pos..];
    assert part == rest[..FindCrLf(rest) + 2] && rest == part + rest[|part|..];
    LineCut(rest);
    HeaderCallStep(h1, s[..c]);
    PartStep(h1, part);
    HeaderCallStep(h2, s);
    PartStep(h2, rest);
  }

  /** The bytes up to and with the first line end. */
  lemma LineCut(rest: string)
    requires FindCrLf(rest) < |rest| && !BlankLine(rest)
    ensures var eol, colon := FindCrLf(rest), Find(rest, ':');
            var part := rest[..eol + 2];
            && FindCrLf(part) == eol && !BlankLine(part)
            && (if colon < eol then Find(part, ':') == colon else Find(part, ':') == |part|)
  {
    hide FindCrLf, Find;
    var eol, colon := FindCrLf(rest), Find(rest, ':');
    var part := rest[..eol + 2];
    assert forall j :: 0 <= j < eol ==> (CrLfAt(part, j) <==> CrLfAt(rest, j));
    FindCrLfUnique(part, eol);
    if colon < eol {
      FindUnique(part, ':', colon);
    } else {
      assert rest[eol] == '\r' && rest[eol + 1] == '\n';
      FindNone(part, ':');
    }
  }

  lemma NoBytes(h: Header, s: string)
    requires h.pos == |s|
    ensures HeaderCall(h, s) == HeaderOutcome(HeadersShort, h)
  {
    assert s[h.pos..] == "";
  }

  /** The header after a line that ends at its colon. */
  function Valued(h: Header, pos: nat, field: string, value: string): Header
  {
    Header(pos, Emplace(h.headers, field, value), if field == "Content-Length" then Atoll(value) else h.length)
  }

  /** A line that ends at its colon, cut behind it, has only the newline for its value. */
  lemma ShownRuns(h1: Header, h2: Header, s: string)
    requires h1.pos == h2.pos <= |s|
    requires var rest := s[h1.pos..];
             var eol, colon := FindCrLf(rest), Find(rest, ':');
             !BlankLine(rest) && eol < |rest| && colon == eol - 1 && eol + 2 < |rest|
    ensures var rest := s[h1.pos..];
            var eol, colon := FindCrLf(rest), Find(rest, ':');
            var c := h1.pos + eol + 2;
            && c <= |s| && TwoCalls(h1, s, c) == HeaderCall(Valued(h1, c, rest[..colon], "\n"), s)
            && HeaderCall(h2, s) == HeaderCall(Valued(h2, c, rest[..colon], rest[colon + 2..]), s)
  {
    hide FindCrLf, Find, HeaderCall, BlankLine, StepHeader, Atoll, Emplace;
    var rest := s[h1.pos..];
    var eol, colon := FindCrLf(rest), Find(rest, ':');
    var c := h1.pos + eol + 2;
    var part := s[..c][h1.pos..];
    assert part == rest[..eol + 2] && rest == part + rest[eol + 2..];
    LineCut(rest);
    SameStep(h1, rest, part, rest[eol + 2..]);
    SameStep(h2, rest, part, rest[eol + 2..]);
    HeaderCallStep(h1, s[..c]);
    HeaderCallStep(h2, s);
    assert part[colon + 2..] == "\n";
    NoBytes(StepHeader(h1, part).h, s[..c]);
  }

  /** The line shows. */
  lemma ShownDiffers(h: Header, l1: nat, l2: nat, s: string, seen: set<string>)
    requires h.pos <= |s| && h.headers.Keys == seen
    requires var rest := s[h.pos..];
             !BlankLine(rest) && FindCrLf(rest) < |rest| && Find(rest, ':') < FindCrLf(rest) && LineShows(s, h.pos, seen)
    ensures var c := h.pos + FindCrLf(s[h.pos..]) + 2;
            c <= |s| && TwoCalls(h.(length := l1), s, c) != HeaderCall(h.(length := l2), s)
  {
    hide FindCrLf, Find, HeaderCall, BlankLine, Atoll, TwoCalls;
    var h1, h2 := h.(length := l1), h.(length := l2);
    var rest := s[h.pos..];
    var eol, colon := FindCrLf(rest), Find(rest, ':');
    var c, field, value := h.pos + eol + 2, rest[..colon], rest[colon + 2..];
    ShownRuns(h1, h2, s);
    var a, b := Valued(h1, c, field, "\n"), Valued(h2, c, field, value);
    if field !in seen {
      HeadersStay(a, s, field);
      HeadersStay(b, s, field);
      assert |value| > 1;
    } else {
      AtollNewline();
      LengthPasses(a, a.length, s);
      LengthPasses(b, b.length, s);
    }
  }

  lemma AtollNewline()
    ensures Atoll("\n") == 0
  {
    assert SkipSpaces("\n") == SkipSpaces("") == "";
  }

  /** Cut there, the two calls and the one end differently, also where they differ in the length at
      first, as long as that is overwritten. */
  lemma {:induction false} CutDiffers(h: Header, l1: nat, l2: nat, s: string, seen: set<string>)
    requires h.pos <= |s| && !Harmless(s, h.pos, seen) && h.headers.Keys == seen
    requires l1 == l2 || LengthComes(s, h.pos)
    ensures TwoCalls(h.(length := l1), s, BadCut(s, h.pos, seen)) != HeaderCall(h.(length := l2), s)
    decreases |s| - h.pos, 1
  {
    hide FindCrLf, Find, HeaderCall, BlankLine, StepHeader, LineShows, TwoCalls;
    var h1, h2 := h.(length := l1), h.(length := l2);
    var rest := s[h.pos..];
    var eol, colon := FindCrLf(rest), Find(rest, ':');
    if colon > eol {
      LaterColonDiffers(h1, h2, s);
    } else if LineShows(s, h.pos, seen) {
      ShownDiffers(h, l1, l2, s, seen);
    } else {
      QuietDiffers(h, l1, l2, s, seen);
    }
  }

  lemma QuietCut(s: string, pos: nat, seen: set<string>)
    requires pos <= |s| && !Harmless(s, pos, seen)
    requires Find(s[pos..], ':') <= FindCrLf(s[pos..]) < |s[pos..]|
    requires Find(s[pos..], ':') < FindCrLf(s[pos..]) ==> !LineShows(s, pos, seen)
    ensures var rest := s[pos..];
            var eol, colon := FindCrLf(rest), Find(rest, ':');
            && !BlankLine(rest) && colon < eol && eol + 2 <= |rest|
            && !Harmless(s, pos + eol + 2, seen + {rest[..colon]})
            && BadCut(s, pos, seen) == BadCut(s, pos + eol + 2, seen + {rest[..colon]})
  {
    hide FindCrLf, Find, LineShows;
    ColonBeforeEnd(s[pos..]);
  }

  /** A line that shows nothing is gone past in both runs. */
  lemma QuietRuns(h1: Header, h2: Header, s: string, c: nat)
    requires h1.pos == h2.pos <= |s| && h1.headers == h2.headers
    requires var rest := s[h1.pos..];
             !BlankLine(rest) && Find(rest, ':') < FindCrLf(rest) < |rest| && h1.pos + FindCrLf(rest) + 2 <= c <= |s|
    ensures var rest := s[h1.pos..];
            var part := rest[..c - h1.pos];
            && FindCrLf(part) < |part| && !BlankLine(part)
            && StepHeader(h1, part).TakeLine? && StepHeader(h2, rest).TakeLine?
            && var a, b := StepHeader(h1, part).h, StepHeader(h2, rest).h;
               && a.pos == b.pos == h1.pos + FindCrLf(rest) + 2
               && b.headers.Keys == h1.headers.Keys + {rest[..Find(rest, ':')]}
               && TwoCalls(h1, s, c) == TwoCalls(a, s, c) && HeaderCall(h2, s) == HeaderCall(b, s)
  {
    hide FindCrLf, Find, HeaderCall, BlankLine, StepHeader;
    var rest := s[h1.pos..];
    var part := rest[..c - h1.pos];
    assert s[..c][h1.pos..] == part && rest == part + rest[|part|..];
    PartLine(rest, |part|);
    SameStep(h1, rest, part, rest[|part|..]);
    SameStep(h2, rest, part, rest[|part|..]);
    HeaderCallStep(h1, s[..c]);
    HeaderCallStep(h2, s);
  }

  /** The line shows nothing: the difference is in a later one. */
  lemma {:induction false} QuietDiffers(h: Header, l1: nat, l2: nat, s: string, seen: set<string>)
    requires h.pos <= |s| && !Harmless(s, h.pos, seen) && h.headers.Keys == seen
    requires l1 == l2 || LengthComes(s, h.pos)
    requires Find(s[h.pos..], ':') <= FindCrLf(s[h.pos..]) < |s[h.pos..]|
    requires Find(s[h.pos..], ':') < FindCrLf(s[h.pos..]) ==> !LineShows(s, h.pos, seen)
    ensures TwoCalls(h.(length := l1), s, BadCut(s, h.pos, seen)) != HeaderCall(h.(length := l2), s)
    decreases |s| - h.pos, 0
  {
    hide FindCrLf, Find, HeaderCall, BlankLine, StepHeader, LineShows, TwoCalls, Harmless, BadCut, LengthComes;
    var h1, h2 := h.(length := l1), h.(length := l2);
    var rest := s[h.pos..];
    QuietCut(s, h.pos, seen);
    var c := BadCut(s, h.pos, seen);
    QuietRuns(h1, h2, s, c);
    var part := rest[..c - h.pos];
    LengthsAfter(h, l1, l2, s, seen, part);
    var a, b := StepHeader(h1, part).h, StepHeader(h2, rest).h;
    assert b.(length := a.length) == a && b.(length := b.length) == b;
    CutDiffers(b, a.length, b.length, s, seen + {rest[..Find(rest, ':')]});
  }

  lemma ColonBeforeEnd(rest: string)
    requires FindCrLf(rest) < |rest| && Find(rest, ':') < |rest|
    ensures Find(rest, ':') != FindCrLf(rest)
  {
    hide FindCrLf, Find;
  }

  lemma PartLine(rest: string, n: nat)
    requires FindCrLf(rest) + 2 <= n <= |rest| && !BlankLine(rest) && FindCrLf(rest) < |rest|
    ensures FindCrLf(rest[..n]) == FindCrLf(rest) < n && !BlankLine(rest[..n])
  {
    hide FindCrLf;
    var eol := FindCrLf(rest);
    assert forall j :: 0 <= j < eol ==> (CrLfAt(rest[..n], j) <==> CrLfAt(rest, j));
    FindCrLfUnique(rest[..n], eol);
  }

  /** The same line read in part with one length before, and whole with another. */
  lemma LengthsAfter(h: Header, l1: nat, l2: nat, s: string, seen: set<string>, part: string)
    requires h.pos <= |s| && h.headers.Keys == seen && (l1 == l2 || LengthComes(s, h.pos))
    requires part <= s[h.pos..] && FindCrLf(part) < |part| && !BlankLine(part) && !BlankLine(s[h.pos..])
    requires var rest := s[h.pos..];
             && FindCrLf(rest) < |rest| && Find(rest, ':') < FindCrLf(rest) && FindCrLf(rest) + 2 < |rest| && !LineShows(s, h.pos, seen)
    ensures StepHeader(h.(length := l1), part).TakeLine? && StepHeader(h.(length := l2), s[h.pos..]).TakeLine?
    ensures var a, b := StepHeader(h.(length := l1), part).h, StepHeader(h.(length := l2), s[h.pos..]).h;
            a.headers == b.headers && (a.length == b.length || LengthComes(s, h.pos + FindCrLf(s[h.pos..]) + 2))
  {
    hide FindCrLf, Find, BlankLine, StepHeader, LengthComes, LineShows;
    var h1, rest := h.(length := l1), s[h.pos..];
    assert h1.(length := l2) == h.(length := l2);
    StepLength(h1, l2, rest);
    StepTakes(h1, rest);
    LengthIsNext(s, h.pos);
    QuietStep(h1, s, h.pos, seen, part);
    StepLength(h.(length := l2), l1, rest);
  }

  /** The same line read in part and whole, with the same length before. */
  lemma QuietStep(h: Header, s: string, pos: nat, seen: set<string>, part: string)
    requires h.pos == pos <= |s| && h.headers.Keys == seen
    requires part <= s[pos..] && FindCrLf(part) < |part| && !BlankLine(part)
    requires var rest := s[pos..]; FindCrLf(rest) < |rest| && Find(rest, ':') < FindCrLf(rest) && FindCrLf(rest) + 2 < |rest| && !LineShows(s, pos, seen)
    ensures StepHeader(h, part).TakeLine? && StepHeader(h, s[pos..]).TakeLine?
    ensures var a, b := StepHeader(h, part).h, StepHeader(h, s[pos..]).h;
            && a.headers == b.headers
            && (a.length == b.length
                || (s[pos..][..Find(s[pos..], ':')] == "Content-Length" && LengthComes(s, pos + FindCrLf(s[pos..]) + 2)))
            && (s[pos..][..Find(s[pos..], ':')] != "Content-Length" ==> a.length == b.length == h.length)
  {
    hide FindCrLf, Find, BlankLine, StepHeader, Atoll, LengthComes;
    var rest := s[pos..];
    var more := rest[|part|..];
    assert rest == part + more;
    SameStep(h, rest, part, more);
    StepLength(h, 0, rest);
    var eol, colon := FindCrLf(rest), Find(rest, ':');
    if colon + 2 > eol && rest[..colon] == "Content-Length" && Atoll(rest[colon + 2..]) == 0 {
      assert rest[colon + 2..] == part[colon + 2..] + more;
      AtollPrefix(part[colon + 2..], more);
    }
  }

  lemma LengthIsNext(s: string, pos: nat)
    requires pos <= |s|
    ensures var rest := s[pos..];
            LengthComes(s, pos) && Find(rest, ':') <= |rest| && rest[..Find(rest, ':')] != "Content-Length"
            ==> LengthComes(s, pos + FindCrLf(rest) + 2)
  {
    hide FindCrLf, Find;
  }

  /** Every cut agrees, for every header map and length before, if and only if the lines are
      harmless. */
  lemma CutsAgreeExactly(s: string, pos: nat)
    requires pos <= |s|
    ensures CutsAgree(s, pos) <==> Harmless(s, pos, {})
  {
    hide HeaderCall, Harmless, HeaderPieces;
    if Harmless(s, pos, {}) {
      forall h: Header, pieces: seq<string> | h.pos == pos && pieces != [] && pos <= |pieces[0]| && Flatten(pieces) == s
        ensures HeaderPieces(HeaderCall(h, pieces[0]), pieces[0], pieces[1..]) == HeaderCall(h, s)
      {
        HarmlessPieces(h, pieces[0], pieces[1..], {});
      }
    } else {
      var h := Header(pos, map[], 0);
      var c := BadCut(s, pos, {});
      CutDiffers(h, 0, 0, s, {});
      assert h.(length := 0) == h;
      TwoPieces(h, s, c);
      var pieces := [s[..c], s[c..]];
      assert pieces[1..] == [s[c..]];
      FlattenTwo(s, c);
      assert HeaderPieces(HeaderCall(h, pieces[0]), pieces[0], pieces[1..]) != HeaderCall(h, s);
    }
  }

  lemma FlattenTwo(s: string, c: nat)
    requires c <= |s|
    ensures Flatten([s[..c], s[c..]]) == s
  {
    assert [s[..c], s[c..]][1..] == [s[c..]] && [s[c..]][1..] == [];
    assert Flatten([s[c..]]) == s[c..] + "" == s[c..];
    assert s == s[..c] + s[c..];
  }

  lemma TwoPieces(h: Header, s: string, c: nat)
    requires h.pos <= c <= |s|
    ensures HeaderPieces(HeaderCall(h, s[..c]), s[..c], [s[c..]]) == TwoCalls(h, s, c)
  {
    hide HeaderCall;
    assert s[..c] + s[c..] == s;
    assert [s[c..]][1..] == [];
    var o := HeaderCall(h, s[..c]);
    if o.result == HeadersShort {
      assert HeaderPieces(o, s[..c], [s[c..]]) == HeaderPieces(HeaderCall(o.h, s), s, []);
    }
  }

  /** Blocks of "name: value" lines, cut anywhere, even between CR and LF, are harmless. */
  lemma {:induction false} FieldLinesHarmless(done: string, fields: seq<Field>, rest: string, seen: set<string>)
    requires forall k :: 0 <= k < |fields| ==> ':' !in fields[k].0 && OneLine(FieldLine(fields[k]))
    ensures Harmless(done + (FieldLines(fields) + CRLF + rest), |done|, seen)
    decreases |fields|
  {
    hide FindCrLf, Find, OneLine, FieldLine, Harmless;
    var s := done + (FieldLines(fields) + CRLF + rest);
    assert s[|done|..] == FieldLines(fields) + CRLF + rest;
    if fields == [] {
      assert s[|done|..] == CRLF + rest;
      BlankHarmless(s, |done|, seen);
    } else {
      var f, behind := fields[0], FieldLines(fields[1..]) + CRLF + rest;
      var next := done + FieldLine(f) + CRLF;
      assert s[|done|..] == FieldLine(f) + CRLF + behind;
      assert s == next + behind;
      FieldLinesHarmless(next, fields[1..], rest, seen + {f.0});
      OneFieldHarmless(s, |done|, f, behind, seen);
    }
  }

  lemma BlankHarmless(s: string, pos: nat, seen: set<string>)
    requires pos <= |s| && CRLF <= s[pos..]
    ensures Harmless(s, pos, seen)
  {
  }

  lemma OneFieldHarmless(s: string, pos: nat, f: Field, behind: string, seen: set<string>)
    requires pos <= |s| && s[pos..] == FieldLine(f) + CRLF + behind && ':' !in f.0 && OneLine(FieldLine(f))
    requires Harmless(s, pos + |FieldLine(f)| + 2, seen + {f.0})
    ensures Harmless(s, pos, seen)
  {
    hide FindCrLf, Find, OneLine;
    var line := FieldLine(f);
    FindCrLfLine(line, behind);
    assert line + CRLF + behind == f.0 + [':'] + (" " + f.1 + CRLF + behind);
    FindIn(f.0, ':', " " + f.1 + CRLF + behind);
    assert s[pos..][..|f.0|] == f.0;
  }

  /** A line that ends at its colon takes the bytes behind it for its value, so there the cut does
      matter: "a:" CR LF "x" in one piece and in two. */
  lemma HeadersDoNotResume()
    ensures var h := Header(0, map[], 0);
            && HeaderCall(h, "a:\r\nx").h.headers == map["a" := "\nx"]
            && HeaderPieces(HeaderCall(h, "a:\r\n"), "a:\r\n", ["x"]).h.headers == map["a" := "\n"]
  {
    var h := Header(0, map[], 0);
    OneField(h, "a:\r\nx");
    OneField(h, "a:\r\n");
    var o := HeaderCall(h, "a:\r\n");
    var s := "a:\r\n" + "x";
    assert s == "a:\r\nx";
    FindCrLfNone(s[4..]);
    assert StepHeader(o.h, s[4..]) == Stop(HeadersShort);
    assert HeaderCall(o.h, s) == HeaderOutcome(HeadersShort, o.h);
    assert ["x"][1..] == [];
    assert HeaderPieces(o, "a:\r\n", ["x"]) == HeaderPieces(HeaderCall(o.h, s), s, []);
  }

  lemma OneField(h: Header, s: string)
    requires s in {"a:\r\n", "a:\r\nx"} && h == Header(0, map[], 0)
    ensures HeaderCall(h, s) == HeaderOutcome(HeadersShort, Header(4, map["a" := s[3..]], 0))
  {
    assert s[0..] == s && s[0] == 'a' && s[1] == ':' && s[2] == '\r' && s[3] == '\n';
    FindCrLfUnique(s, 2);
    FindUnique(s, ':', 1);
    assert s[..1] == "a";
    FindCrLfNone(s[4..]);
    var next := Header(4, map["a" := s[3..]], 0);
    assert StepHeader(next, s[4..]) == Stop(HeadersShort);
    assert Emplace(map[], "a", s[3..]) == map["a" := s[3..]];
    assert HeaderCall(next, s) == HeaderOutcome(HeadersShort, next);
  }

  lemma FindCrLfNone(s: string)
    requires |s| < 2
    ensures FindCrLf(s) == |s|
  {
  }
}
