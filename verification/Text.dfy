/** Byte strings and the library searches the sources rely on: StringView::find,
    Buffer::FindCrLf, std::string::rfind and strtoull; printing and reading numbers; joining
    pieces. A byte is a Dafny char, and |s| as a result plays the part of npos. What is proved
    here is what the other modules need to know of them. */
module Text {

  const CRLF: string := "\r\n"

  datatype Option<+T> = None | Some(value: T)

  /** First position of `c`; |s| plays the part of npos. */
  function Find(s: string, c: char): (i: nat)
    ensures i <= |s|
    ensures i < |s| ==> s[i] == c
    ensures forall j :: 0 <= j < i ==> s[j] != c
  {
    if s == "" || s[0] == c then 0 else
    var i := Find(s[1..], c);
    assert forall j :: 0 < j < 1 + i ==> s[j] == s[1..][j - 1];
    1 + i
  }

  /** What a C string stands for: everything before the first NUL. */
  function CString(s: string): string
  {
    s[..Find(s, '\0')]
  }

  predicate CrLfAt(s: string, i: int)
  {
    0 <= i < |s| - 1 && s[i] == '\r' && s[i + 1] == '\n'
  }

  /** First position of CR LF; |s| when there is none. */
  function FindCrLf(s: string): (i: nat)
    ensures i <= |s|
    ensures i < |s| ==> CrLfAt(s, i)
    ensures forall j :: 0 <= j < i ==> !CrLfAt(s, j)
  {
    if s == "" || CrLfAt(s, 0) then 0 else
    var i := FindCrLf(s[1..]);
    assert forall j :: 0 < j < 1 + i ==> (CrLfAt(s, j) <==> CrLfAt(s[1..], j - 1));
    assert i < |s[1..]| ==> CrLfAt(s, 1 + i);
    1 + i
  }

  predicate OneLine(s: string)
  {
    FindCrLf(s) == |s|
  }

  lemma FindUnique(s: string, c: char, i: nat)
    requires i <= |s| && (i < |s| ==> s[i] == c)
    requires forall j :: 0 <= j < i ==> s[j] != c
    ensures Find(s, c) == i
  {
  }

  lemma FindIn(a: string, c: char, b: string)
    requires c !in a
    ensures Find(a + [c] + b, c) == |a|
  {
    FindUnique(a + [c] + b, c, |a|);
  }

  lemma FindNone(a: string, c: char)
    requires c !in a
    ensures Find(a, c) == |a|
  {
  }

  lemma FindCrLfUnique(s: string, i: nat)
    requires CrLfAt(s, i) && forall j :: 0 <= j < i ==> !CrLfAt(s, j)
    ensures FindCrLf(s) == i
  {
  }

  /** A line end that has arrived is not moved by later bytes. */
  lemma FindCrLfStable(a: string, b: string)
    requires FindCrLf(a) < |a|
    ensures FindCrLf(a + b) == FindCrLf(a)
  {
    var i := FindCrLf(a);
    assert CrLfAt(a + b, i);
    forall j | 0 <= j < i
      ensures !CrLfAt(a + b, j)
    {
      assert !CrLfAt(a, j);
    }
    FindCrLfUnique(a + b, i);
  }

  lemma FindCrLfLine(line: string, rest: string)
    requires OneLine(line)
    ensures FindCrLf(line + CRLF + rest) == |line|
  {
    var s := line + CRLF + rest;
    assert CrLfAt(s, |line|);
    forall j | 0 <= j < |line|
      ensures !CrLfAt(s, j)
    {
      assert !CrLfAt(line, j);
    }
    FindCrLfUnique(s, |line|);
  }

  /** std::string::rfind(c, pos): the last occurrence at or before `pos`, or -1. */
  function RFind(s: string, c: char, pos: nat): (i: int)
    ensures -1 <= i < |s| && i <= pos
    ensures i >= 0 ==> s[i] == c
    ensures forall j :: i < j < |s| && j <= pos ==> s[j] != c
  {
    if s == "" then -1
    else if pos >= |s| then RFind(s, c, |s| - 1)
    else if s[pos] == c then pos
    else if pos == 0 then -1
    else RFind(s, c, pos - 1)
  }

  // ---------------------------------------------------------------- numbers

  const ULLONG_MAX: nat := 0xFFFF_FFFF_FFFF_FFFF

  predicate IsDigit(c: char)
  {
    '0' <= c <= '9'
  }

  predicate IsSpace(c: char)
  {
    c == ' ' || '\t' <= c <= '\r'
  }

  function SkipSpaces(s: string): string
  {
    if s != "" && IsSpace(s[0]) then SkipSpaces(s[1..]) else s
  }

  /** The value of the leading digits of `s`, continuing from `acc`. */
  function DigitsValue(s: string, acc: nat): nat
  {
    if s != "" && IsDigit(s[0]) then DigitsValue(s[1..], acc * 10 + (s[0] as int - '0' as int)) else acc
  }

  /** strtoull(s, NULL, 10): blanks, an optional sign, digits; saturating; a minus sign negates modulo 2^64. */
  function StrToULL(s: string): (n: nat)
    ensures n <= ULLONG_MAX
  {
    var t := SkipSpaces(s);
    var negative := t != "" && t[0] == '-';
    var signed := t != "" && (t[0] == '-' || t[0] == '+');
    var v := DigitsValue(if signed then t[1..] else t, 0);
    if v > ULLONG_MAX then ULLONG_MAX
    else if negative then (ULLONG_MAX + 1 - v) % (ULLONG_MAX + 1)
    else v
  }

  /** "%lu", std::to_string. */
  function Dec(n: nat): (s: string)
    ensures s != "" && forall i :: 0 <= i < |s| ==> IsDigit(s[i])
  {
    if n < 10 then [('0' as int + n) as char] else Dec(n / 10) + [('0' as int + n % 10) as char]
  }

  lemma {:induction false} DigitsValueAppend(a: string, c: char, acc: nat)
    requires IsDigit(c) && forall i :: 0 <= i < |a| ==> IsDigit(a[i])
    ensures DigitsValue(a + [c], acc) == DigitsValue(a, acc) * 10 + (c as int - '0' as int)
  {
    if a == "" {
      assert a + [c] == [c];
    } else {
      assert (a + [c])[1..] == a[1..] + [c];
      DigitsValueAppend(a[1..], c, acc * 10 + (a[0] as int - '0' as int));
    }
  }

  lemma {:induction false} DecValue(n: nat)
    ensures DigitsValue(Dec(n), 0) == n
  {
    if n >= 10 {
      DecValue(n / 10);
      DigitsValueAppend(Dec(n / 10), ('0' as int + n % 10) as char, 0);
    }
  }

  /** Reading a printed number gives the number back, up to the saturation bound. */
  lemma StrToULLOfDec(n: nat)
    requires n <= ULLONG_MAX
    ensures StrToULL(Dec(n)) == n
  {
    var d := Dec(n);
    assert IsDigit(d[0]) && SkipSpaces(d) == d;
    DecValue(n);
  }

  /** A number as it may be written: blanks, a sign or none, the digits, and something that is no
      digit behind them, or nothing. */
  predicate NumberText(blanks: string, sign: string, behind: string)
  {
    && (forall i :: 0 <= i < |blanks| ==> blanks[i] in " \t\n\U{b}\U{c}\r")
    && (sign == "" || sign == "+" || sign == "-")
    && (behind != "" ==> behind[0] !in "0123456789")
  }

  lemma {:induction false} BlanksSkipped(blanks: string, s: string)
    requires (forall i :: 0 <= i < |blanks| ==> blanks[i] in " \t\n\U{b}\U{c}\r") && (s != "" ==> !IsSpace(s[0]))
    ensures SkipSpaces(blanks + s) == s
  {
    if blanks == "" {
      assert blanks + s == s;
    } else {
      assert (blanks + s)[1..] == blanks[1..] + s;
      BlanksSkipped(blanks[1..], s);
    }
  }

  lemma {:induction false} DigitsEnd(d: string, s: string, acc: nat)
    requires (forall i :: 0 <= i < |d| ==> IsDigit(d[i])) && (s != "" ==> s[0] !in "0123456789")
    ensures DigitsValue(d + s, acc) == DigitsValue(d, acc)
  {
    if d == "" {
      assert d + s == s;
    } else {
      assert (d + s)[1..] == d[1..] + s;
      DigitsEnd(d[1..], s, acc * 10 + (d[0] as int - '0' as int));
    }
  }

  /** What both readers of numbers see of such a text. */
  lemma NumberSeen(blanks: string, sign: string, n: nat, behind: string)
    requires NumberText(blanks, sign, behind)
    ensures var t := SkipSpaces(blanks + (sign + (Dec(n) + behind)));
            && t != "" && (t[0] == '-' <==> sign == "-") && (t[0] == '+' <==> sign == "+")
            && DigitsValue(if sign == "" then t else t[1..], 0) == n
  {
    var d := Dec(n);
    var t := sign + (d + behind);
    assert IsDigit(d[0]) && (d + behind)[0] == d[0];
    BlanksSkipped(blanks, t);
    DigitsEnd(d, behind, 0);
    DecValue(n);
    assert (if sign == "" then t else t[1..]) == d + behind;
  }

  /** Such a number is read as itself, saturating, and negated modulo 2^64 behind a minus sign. */
  lemma StrToULLReads(blanks: string, sign: string, n: nat, behind: string)
    requires NumberText(blanks, sign, behind)
    ensures StrToULL(blanks + (sign + (Dec(n) + behind))) ==
            if n > ULLONG_MAX then ULLONG_MAX else if sign == "-" && n > 0 then ULLONG_MAX + 1 - n else n
  {
    hide Dec, SkipSpaces, DigitsValue;
    NumberSeen(blanks, sign, n, behind);
  }

  function Power10(k: nat): (p: nat)
    ensures p > 0
  {
    if k == 0 then 1 else 10 * Power10(k - 1)
  }

  lemma {:induction false} DecLength(n: nat, k: nat)
    requires k > 0 && n < Power10(k)
    ensures |Dec(n)| <= k
  {
    if n >= 10 {
      assert k > 1 by {
        assert Power10(1) == 10 * Power10(0);
      }
      DecLength(n / 10, k - 1);
    }
  }

  /** No size_t needs more than twenty digits. */
  lemma DecFits(n: nat)
    requires n <= ULLONG_MAX
    ensures |Dec(n)| <= 20
  {
    assert Power10(5) == 100000;
    assert Power10(10) == 10000000000;
    assert Power10(15) == 1000000000000000;
    assert Power10(20) == 100000000000000000000;
    DecLength(n, 20);
  }

  // ------------------------------------------------------------- sequences

  function Flatten(pieces: seq<string>): string
  {
    if pieces == [] then "" else pieces[0] + Flatten(pieces[1..])
  }
}
