/** File::ReadLine: lines of any length read through a buffer of 4096 bytes. */
module LineReader {
  import opened Text

  const SIZE: nat := 4096

  /** What one fgets can deliver: the buffer less its terminating NUL. */
  const FILL: nat := 4095

  // -------------------------------------------------------------- as coded

  /** The bytes one fgets takes: up to and with the first newline, or until the buffer is full. */
  function FillSize(rest: string): (n: nat)
    ensures n <= |rest| && n <= FILL
    ensures rest != "" ==> n > 0
  {
    var i := Find(rest, '\n');
    if i < |rest| && i < FILL then i + 1 else if |rest| < FILL then |rest| else FILL
  }

  predicate EndsLine(s: string)
  {
    s != "" && s[|s| - 1] == '\n'
  }

  /** What is kept of a fill that ends the line. */
  function Kept(s: string, needNewline: bool): string
    requires EndsLine(s)
  {
    if needNewline then s
    else if |s| >= 2 && s[|s| - 2] == '\r' then s[..|s| - 2]
    else s[..|s| - 1]
  }

  datatype Outcome = Outcome(ok: bool, line: string, rest: string, eof: bool)

  /** The loop of ReadLine, `line` being what earlier fills brought. */
  function ReadOn(rest: string, line: string, needNewline: bool): Outcome
    decreases |rest|
  {
    if rest == "" then Outcome(false, line, "", true) else
    var n := FillSize(rest);
    var s := CString(rest[..n]);
    if EndsLine(s) then Outcome(true, line + Kept(s, needNewline), rest[n..], false)
    else if |s| == FILL then ReadOn(rest[n..], line + s, needNewline)
    else Outcome(true, line + s, rest[n..], false)
  }

  function NextLine(rest: string, needNewline: bool): Outcome
  {
    ReadOn(rest, "", needNewline)
  }

  /** The lines a caller gets who reads until ReadLine returns false. */
  function ReadAll(rest: string, needNewline: bool): seq<string>
    decreases |rest|
  {
    ReadOnShrinks(rest, "", needNewline);
    var o := NextLine(rest, needNewline);
    if o.ok then [o.line] + ReadAll(o.rest, needNewline) else []
  }

  lemma {:induction false} ReadOnShrinks(rest: string, line: string, needNewline: bool)
    ensures ReadOn(rest, line, needNewline).ok ==> |ReadOn(rest, line, needNewline).rest| < |rest|
    decreases |rest|
  {
    hide CString, FillSize, Kept, EndsLine;
    if rest != "" {
      var n := FillSize(rest);
      ReadOnShrinks(rest[n..], line + CString(rest[..n]), needNewline);
    }
  }

  /** fopen'ed file; `stream` is what has not been read yet. */
  class File {
    var stream: string
    var eof: bool

    constructor (content: string)
      ensures stream == content && !eof
    {
      stream, eof := content, false;
    }

    method Fgets(buf: array<char>) returns (ok: bool)
      requires buf.Length == SIZE
      modifies this`stream, buf
      ensures ok == (old(stream) != "")
      ensures ok ==> var n := FillSize(old(stream));
                     && buf[..n] == old(stream)[..n] && buf[n] == '\0' && stream == old(stream)[n..]
      ensures !ok ==> stream == ""
    {
      ok := stream != "";
      if ok {
        var n := FillSize(stream);
        forall i | 0 <= i < n {
          buf[i] := stream[i];
        }
        buf[n] := '\0';
        stream := stream[n..];
      }
    }

    method Strlen(buf: array<char>) returns (n: nat)
      requires exists i :: 0 <= i < buf.Length && buf[i] == '\0'
      ensures n < buf.Length && buf[n] == '\0' && forall i :: 0 <= i < n ==> buf[i] != '\0'
    {
      n := 0;
      while buf[n] != '\0'
        invariant n < buf.Length && forall i :: 0 <= i < n ==> buf[i] != '\0'
        decreases buf.Length - n
      {
        n := n + 1;
      }
    }

    method ReadLine(needNewline: bool) returns (ok: bool, line: string)
      modifies this
      ensures Outcome(ok, line, stream, eof && !ok) == NextLine(old(stream), needNewline)
      ensures eof == (old(eof) || !ok)
    {
      var buf := new char[SIZE];
      var n: nat := 0;
      ok, line := true, "";
      var again := true;
      while again
        invariant again ==> ok && eof == old(eof)
        invariant again ==> ReadOn(stream, line, needNewline) == NextLine(old(stream), needNewline)
        invariant !again ==> Outcome(ok, line, stream, !ok) == NextLine(old(stream), needNewline)
        invariant !again ==> eof == (old(eof) || !ok)
        decreases again, |stream|
      {
        hide FillSize, Kept;
        ghost var rest := stream;
        var got := Fgets(buf);
        if !got {
          eof := true;
          ok := false;
          return;
        }
        n := Strlen(buf);
        FillIsCString(buf[..], rest[..FillSize(rest)], n);
        if n >= 1 && buf[n - 1] == '\n' {
          line := line + Trimmed(buf, n, needNewline);
          again := false;
        } else {
          line := line + buf[..n];
          again := n == buf.Length - 1;
        }
      }
    }

    function Trimmed(buf: array<char>, n: nat, needNewline: bool): (s: string)
      requires 1 <= n <= buf.Length && buf[n - 1] == '\n'
      reads buf
      ensures s == Kept(buf[..n], needNewline)
    {
      if !needNewline then
        if n >= 2 && buf[n - 2] == '\r' then buf[..n - 2] else buf[..n - 1]
      else buf[..n]
    }
  }

  lemma FillIsCString(buf: string, t: string, n: nat)
    requires |t| < |buf| && buf[..|t|] == t && buf[|t|] == '\0'
    requires n < |buf| && buf[n] == '\0' && forall i :: 0 <= i < n ==> buf[i] != '\0'
    ensures buf[..n] == CString(t)
  {
    assert n <= |t|;
    assert forall i :: 0 <= i < |t| ==> t[i] == buf[i];
    FindUnique(t, '\0', n);
  }

  // --------------------------------------------------------- what lines are

  /** Up to and with the first newline, or everything. */
  function FirstLine(s: string): (line: string)
    requires s != ""
    ensures line != "" && line <= s
  {
    var i := Find(s, '\n');
    if i < |s| then s[..i + 1] else s
  }

  function Lines(s: string): seq<string>
    decreases |s|
  {
    if s == "" then [] else [FirstLine(s)] + Lines(s[|FirstLine(s)|..])
  }

  lemma {:induction false} LinesConcatenate(s: string)
    ensures Flatten(Lines(s)) == s
    decreases |s|
  {
    hide FirstLine;
    if s != "" {
      var f, rest := FirstLine(s), s[|FirstLine(s)|..];
      LinesConcatenate(rest);
      assert s == f + rest;
      assert Lines(s)[0] == f && Lines(s)[1..] == Lines(rest);
    }
  }

  /** What is behind the last newline. */
  function Tail(s: string): string
    decreases |s|
  {
    if s == "" then "" else if EndsLine(FirstLine(s)) then Tail(s[|FirstLine(s)|..]) else s
  }

  /** The unterminated last line fills the buffer exactly, once or more. */
  predicate TailFills(s: string)
  {
    Tail(s) != "" && |Tail(s)| % 4095 == 0
  }

  /** Without its line end: CR LF, or LF. */
  function Stripped(line: string): string
  {
    if |line| >= 2 && line[|line| - 2] == '\r' && line[|line| - 1] == '\n' then line[..|line| - 2]
    else if line != "" && line[|line| - 1] == '\n' then line[..|line| - 1]
    else line
  }

  // ------------------------------------------------------------- one line

  predicate NoNul(s: string)
  {
    '\0' !in s
  }

  lemma FirstLineEnds(s: string)
    requires s != ""
    ensures var i := Find(s, '\n');
            EndsLine(FirstLine(s)) == (i < |s|) && |FirstLine(s)| == (if i < |s| then i + 1 else |s|)
  {
  }

  lemma FindBehind(s: string, n: nat)
    requires n <= |s| && n <= Find(s, '\n')
    ensures Find(s[n..], '\n') == Find(s, '\n') - n
  {
    FindUnique(s[n..], '\n', Find(s, '\n') - n);
  }

  /** The first fill: the whole line, or a full buffer without the line end. */
  lemma FirstFill(s: string)
    requires NoNul(s) && s != ""
    ensures var f, n := FirstLine(s), FillSize(s);
            && CString(s[..n]) == s[..n]
            && (if |f| < FILL || (|f| == FILL && EndsLine(f)) then s[..n] == f
                else n == FILL <= |f| && s[..n] == f[..n] && !EndsLine(s[..n]))
  {
    var n := FillSize(s);
    FirstLineEnds(s);
    FindNone(s[..n], '\0');
  }

  /** The bytes of a line in the last fill. */
  function LastFill(f: string): (n: nat)
    ensures f != "" ==> 0 < n <= |f|
  {
    if f == "" then 0 else if |f| % FILL == 0 then FILL else |f| % FILL
  }

  /** What reading the line `f` gives when `line` is there already and `rest` is behind it. */
  function LineRead(f: string, line: string, rest: string, needNewline: bool): Outcome
  {
    if EndsLine(f) then
      assert f[|f| - LastFill(f)..][LastFill(f) - 1] == '\n';
      Outcome(true, line + f[..|f| - LastFill(f)] + Kept(f[|f| - LastFill(f)..], needNewline), rest, false)
    else if |f| % FILL == 0 then Outcome(false, line + f, "", true)
    else Outcome(true, line + f, "", false)
  }

  /** A line that is longer than one fill comes in pieces, the line end in the last of them. */
  lemma {:induction false} ReadsOn(s: string, line: string, needNewline: bool)
    requires NoNul(s) && s != ""
    ensures ReadOn(s, line, needNewline) == LineRead(FirstLine(s), line, s[|FirstLine(s)|..], needNewline)
    decreases |s|
  {
    hide Kept, FillSize, CString, LineRead, EndsLine;
    var f, n := FirstLine(s), FillSize(s);
    FirstFill(s);
    if s[..n] == f && (|f| < FILL || EndsLine(f)) {
      ShortLine(f, line, s[n..], needNewline);
      assert !EndsLine(f) ==> s[n..] == "" by { FirstLineEnds(s); }
    } else {
      assert ReadOn(s, line, needNewline) == ReadOn(s[n..], line + s[..n], needNewline);
      FirstLineEnds(s);
      if s[n..] == "" {
        assert f == s;
        FullTail(f, line, needNewline);
      } else {
        FindBehind(s, n);
        FirstLineEnds(s[n..]);
        var g := FirstLine(s[n..]);
        assert f == f[..n] + g && s[n..][|g|..] == s[|f|..];
        ReadsOn(s[n..], line + s[..n], needNewline);
        LongLine(f, g, line, s[|f|..], needNewline);
      }
    }
  }

  lemma ShortLine(f: string, line: string, rest: string, needNewline: bool)
    requires 0 < |f| <= FILL && (|f| < FILL || EndsLine(f))
    ensures LineRead(f, line, rest, needNewline) ==
            if EndsLine(f) then Outcome(true, line + Kept(f, needNewline), rest, false) else Outcome(true, line + f, "", false)
  {
    hide Kept;
    assert LastFill(f) == |f| && f[0..] == f && line + f[..0] == line;
  }

  lemma FullTail(f: string, line: string, needNewline: bool)
    requires |f| == FILL && !EndsLine(f)
    ensures LineRead(f, line, "", needNewline) == Outcome(false, line + f, "", true)
  {
  }

  lemma LongLine(f: string, g: string, line: string, rest: string, needNewline: bool)
    requires |f| >= FILL && g != "" && f == f[..FILL] + g
    ensures LineRead(g, line + f[..FILL], rest, needNewline) == LineRead(f, line, rest, needNewline)
  {
    hide Kept;
    var last := LastFill(f);
    assert |g| == |f| - FILL && EndsLine(g) == EndsLine(f) && LastFill(g) == last;
    assert f[|f| - last..] == g[|g| - last..];
    assert line + f[..FILL] + g[..|g| - last] == line + f[..|f| - last];
    assert line + f[..FILL] + g == line + f;
  }

  // --------------------------------------------------------------- the file

  lemma LineIsClean(s: string)
    requires NoNul(s) && s != ""
    ensures NoNul(FirstLine(s)) && NoNul(s[|FirstLine(s)|..])
  {
  }

  lemma NewlineKept(f: string, line: string, rest: string)
    requires f != ""
    ensures EndsLine(f) ==> LineRead(f, "", rest, true) == Outcome(true, f, rest, false)
  {
    assert f[..|f| - LastFill(f)] + f[|f| - LastFill(f)..] == f;
  }

  /** Without NUL bytes the lines read are the lines of the file, with one exception: a last line
      without newline whose length is a positive multiple of the fill is read and then dropped. */
  lemma {:induction false} ReadsLines(s: string)
    requires NoNul(s)
    ensures ReadAll(s, true) == if TailFills(s) then Lines(s)[..|Lines(s)| - 1] else Lines(s)
    ensures TailFills(s) ==> Lines(s) != [] && Lines(s)[|Lines(s)| - 1] == Tail(s)
    decreases |s|
  {
    hide FirstLine, LineRead, EndsLine;
    if s != "" {
      var f := FirstLine(s);
      var rest := s[|f|..];
      ReadsOn(s, "", true);
      LineIsClean(s);
      if EndsLine(f) {
        NewlineKept(f, "", rest);
        ReadsLines(rest);
        assert Lines(s) == [f] + Lines(rest) && Tail(s) == Tail(rest);
        assert TailFills(s) ==> ([f] + Lines(rest))[..|Lines(rest)|] == [f] + Lines(rest)[..|Lines(rest)| - 1];
      } else {
        assert rest == "" && f == s by { Unterminated(s); }
        UnterminatedRead(s);
      }
    }
  }

  lemma Unterminated(s: string)
    requires s != "" && !EndsLine(FirstLine(s))
    ensures FirstLine(s) == s && Tail(s) == s && Lines(s) == [s]
  {
    assert s[|s|..] == "";
  }

  lemma UnterminatedRead(s: string)
    requires s != "" && !EndsLine(s)
    ensures LineRead(s, "", "", true) == Outcome(|s| % FILL != 0, s, "", |s| % FILL == 0)
    ensures ReadAll("", true) == []
  {
    assert "" + s == s;
  }

  // -------------------------------------------------------- exactly when

  lemma FillShrinks(s: string)
    ensures |CString(s)| <= |s| && ('\0' in s ==> |CString(s)| < |s|)
    ensures EndsLine(CString(s)) ==> |Kept(CString(s), true)| == |CString(s)|
  {
  }

  /** Bytes are never invented, and those behind a NUL in a fill are lost. */
  lemma {:induction false} NothingInvented(rest: string, line: string)
    ensures var o := ReadOn(rest, line, true);
            |o.line| + |o.rest| <= |line| + |rest|
            && ('\0' in rest ==> '\0' in o.rest || |o.line| + |o.rest| < |line| + |rest|)
    decreases |rest|
  {
    hide CString, FillSize, EndsLine, Kept;
    if rest != "" {
      var n := FillSize(rest);
      var t := rest[..n];
      FillShrinks(t);
      assert rest == t + rest[n..];
      NothingInvented(rest[n..], line + CString(t));
    }
  }

  lemma {:induction false} NulLosesBytes(s: string)
    ensures |Flatten(ReadAll(s, true))| <= |s|
    ensures '\0' in s ==> |Flatten(ReadAll(s, true))| < |s|
    decreases |s|
  {
    hide NextLine;
    var o := NextLine(s, true);
    ReadOnShrinks(s, "", true);
    NothingInvented(s, "");
    assert o == ReadOn(s, "", true) by { NextLineIs(s); }
    if o.ok {
      NulLosesBytes(o.rest);
      assert ([o.line] + ReadAll(o.rest, true))[1..] == ReadAll(o.rest, true);
    }
  }

  lemma NextLineIs(s: string)
    ensures NextLine(s, true) == ReadOn(s, "", true)
  {
  }

  lemma {:induction false} FlattenLast(lines: seq<string>)
    requires lines != []
    ensures |Flatten(lines)| == |Flatten(lines[..|lines| - 1])| + |lines[|lines| - 1]|
    decreases |lines|
  {
    if |lines| > 1 {
      assert lines[..|lines| - 1][1..] == lines[1..][..|lines| - 2];
      FlattenLast(lines[1..]);
    }
  }

  /** Reading a file line by line gives its lines, and their concatenation is the file, if and only
      if it holds no NUL byte and its last line, if unterminated, does not exactly fill the buffer. */
  lemma LinesRead(s: string)
    ensures ReadAll(s, true) == Lines(s) <==> NoNul(s) && !TailFills(s)
    ensures Flatten(ReadAll(s, true)) == s <==> NoNul(s) && !TailFills(s)
  {
    hide ReadAll, Lines, TailFills, NoNul, Flatten;
    LinesConcatenate(s);
    NulLosesBytes(s);
    if NoNul(s) {
      ReadsLines(s);
      if TailFills(s) {
        TailDropped(s);
      }
    } else {
      assert '\0' in s by { NulIn(s); }
    }
  }

  lemma TailDropped(s: string)
    requires NoNul(s) && TailFills(s)
    ensures |Flatten(ReadAll(s, true))| < |Flatten(Lines(s))|
  {
    hide ReadAll, Lines, TailFills, NoNul, Flatten, Tail;
    ReadsLines(s);
    TailNotEmpty(s);
    FlattenLast(Lines(s));
  }

  lemma NulIn(s: string)
    ensures NoNul(s) <==> '\0' !in s
  {
  }

  lemma TailNotEmpty(s: string)
    requires TailFills(s)
    ensures Tail(s) != ""
  {
  }

  /** The carriage return ends one fill and the newline is alone in the next. */
  predicate Torn(f: string)
  {
    EndsLine(f) && |f| > 1 && |f| % 4095 == 1 && f[|f| - 2] == '\r'
  }

  lemma KeptBehind(p: string, q: string, f: string)
    requires EndsLine(q) && f == p + q
    ensures p + Kept(q, true) == f
    ensures var torn := |q| == 1 && p != "" && p[|p| - 1] == '\r';
            p + Kept(q, false) == (if torn then f[..|f| - 1] else Stripped(f)) && (torn ==> f[..|f| - 1] != Stripped(f))
  {
    assert p + q[..|q| - 1] == f[..|f| - 1];
    if |q| >= 2 {
      assert p + q[..|q| - 2] == f[..|f| - 2] && q[|q| - 2] == f[|f| - 2];
    }
  }

  lemma TornIs(f: string)
    requires EndsLine(f)
    ensures var i := |f| - LastFill(f);
            EndsLine(f[i..]) && (Torn(f) <==> |f[i..]| == 1 && i > 0 && f[i - 1] == '\r')
  {
  }

  lemma EndedLineRead(f: string, rest: string, needNewline: bool)
    requires EndsLine(f)
    ensures EndsLine(f[|f| - LastFill(f)..])
    ensures LineRead(f, "", rest, needNewline) ==
            Outcome(true, f[..|f| - LastFill(f)] + Kept(f[|f| - LastFill(f)..], needNewline), rest, false)
  {
    hide Kept;
    assert f[|f| - LastFill(f)..][LastFill(f) - 1] == '\n';
    assert "" + f[..|f| - LastFill(f)] == f[..|f| - LastFill(f)];
  }

  lemma StrippedLine(f: string, rest: string)
    requires f != ""
    ensures var a, b := LineRead(f, "", rest, true), LineRead(f, "", rest, false);
            b == a.(line := if Torn(f) then f[..|f| - 1] else Stripped(f)) && a.line == f
    ensures Torn(f) ==> f[..|f| - 1] != Stripped(f) && f[..|f| - 1] + "\n" == f
  {
    hide Kept, LastFill;
    TornEnds(f);
    if EndsLine(f) {
      hide Stripped, Torn, LineRead, EndsLine;
      EndedLineRead(f, rest, true);
      EndedLineRead(f, rest, false);
      TornIs(f);
      var i := |f| - LastFill(f);
      assert f[..i] + f[i..] == f;
      KeptBehind(f[..i], f[i..], f);
    } else {
      NotStripped(f);
      assert "" + f == f;
    }
  }

  lemma NotStripped(f: string)
    requires !EndsLine(f)
    ensures Stripped(f) == f
  {
  }

  lemma TornEnds(f: string)
    ensures Torn(f) ==> f[..|f| - 1] + "\n" == f
  {
  }

  /** A line as it is read without its newline. */
  predicate StrippedAs(line: string, read: string)
  {
    (read == Stripped(line) <==> !Torn(line)) && (Torn(line) ==> read + "\n" == line)
  }

  lemma ReadAllStep(s: string, needNewline: bool)
    ensures var o := ReadOn(s, "", needNewline);
            (o.ok ==> |o.rest| < |s|) && ReadAll(s, needNewline) == if o.ok then [o.line] + ReadAll(o.rest, needNewline) else []
  {
    ReadOnShrinks(s, "", needNewline);
  }

  /** Reading without newlines reads the same lines, each stripped of CR LF or LF, with one
      exception: a CR stays exactly where CR and LF fall into different fills. */
  lemma {:induction false} LinesStripped(s: string)
    requires NoNul(s)
    ensures var a, b := ReadAll(s, true), ReadAll(s, false);
            |a| == |b| && forall k :: 0 <= k < |a| ==> StrippedAs(a[k], b[k])
    decreases |s|
  {
    hide FirstLine, LineRead, EndsLine, StrippedAs, ReadAll, NoNul;
    ReadAllStep(s, true);
    ReadAllStep(s, false);
    if s != "" {
      var f := FirstLine(s);
      var rest := s[|f|..];
      ReadsOn(s, "", true);
      ReadsOn(s, "", false);
      StrippedLine(f, rest);
      LineIsClean(s);
      NoLonger(f, rest);
      var o := LineRead(f, "", rest, true);
      if o.ok {
        LineStripped(f, rest);
        LinesStripped(o.rest);
      }
    }
  }

  lemma LineStripped(f: string, rest: string)
    requires f != ""
    ensures StrippedAs(LineRead(f, "", rest, true).line, LineRead(f, "", rest, false).line)
  {
    hide LineRead, Torn, Stripped;
    StrippedLine(f, rest);
  }

  lemma NoLonger(f: string, rest: string)
    requires f != "" && NoNul(rest)
    ensures |LineRead(f, "", rest, true).rest| <= |rest| && NoNul(LineRead(f, "", rest, true).rest)
  {
  }
}
