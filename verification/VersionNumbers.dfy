/** The version of a request line: which texts the two digit loops of HttpParser turn into 1.0
    or 1.1, digits or not. The loops subtract '0' from whatever character they meet, so that the
    sums below, and not the look of the text, decide. */
module VersionNumbers {
  import opened Text
  import opened HttpMessage
  import opened HttpParser

  /** How far a byte is from '0', which is 48; from 0x80 on a byte counts as negative. */
  function Distance(c: char): int
  {
    if c < '\U{80}' then c as int - 48 else c as int - 304
  }

  /** The sum of the characters' distances from '0', each weighted by its power of ten. */
  function Weighted(s: string): int
  {
    if s == "" then 0 else Distance(s[0]) * Power10(|s| - 1) + Weighted(s[1..])
  }

  /** One more character keeps the loop inside int. */
  predicate Fits(sum: int, c: char)
  {
    InInt(sum * 10) && InInt(sum * 10 + Distance(c) + 48) && InInt(sum * 10 + Distance(c))
  }

  /** So does every character of the text. */
  predicate Computable(s: string)
  {
    forall i :: 0 <= i < |s| ==> Fits(Weighted(s[..i]), s[i])
  }

  function Major(v: string): string
    requires |v| >= 5
  {
    v[5..][..Find(v[5..], '.')]
  }

  function Minor(v: string): string
    requires |v| >= 5 && '.' in v[5..]
  {
    v[5..][Find(v[5..], '.') + 1..]
  }

  predicate HasNumbers(v: string)
  {
    |v| >= 5 && v[..5] == "HTTP/" && '.' in v[5..]
  }

  /** "HTTP/" and two texts around the first dot whose sums come to 100 or 101. */
  predicate GoodVersion(v: string)
  {
    && HasNumbers(v) && Computable(Major(v)) && Computable(Minor(v)) && InInt(Weighted(Major(v)) * 100)
    && Weighted(Major(v)) * 100 + Weighted(Minor(v)) in {100, 101}
  }

  function NumberedVersion(v: string): Version
    requires GoodVersion(v)
  {
    if Weighted(Major(v)) * 100 + Weighted(Minor(v)) == 101 then Http11 else Http10
  }

  // ----------------------------------------------------- the digit loop's sum

  lemma {:induction false} ReadIntSnoc(s: string, c: char, v: int)
    ensures ReadInt(s + [c], v) ==
            match ReadInt(s, v)
            case None => None
            case Some(w) => ReadInt([c], w)
    decreases |s|
  {
    if s == "" {
      assert s + [c] == [c];
    } else {
      assert (s + [c])[1..] == s[1..] + [c];
      var next := v * 10 + Distance(s[0]);
      ReadIntSnoc(s[1..], c, next);
    }
  }

  lemma ReadIntOne(c: char, w: int)
    ensures ReadInt([c], w) == if Fits(w, c) then Some(w * 10 + Distance(c)) else None
  {
    assert [c][1..] == "";
  }

  lemma ComputableSnoc(s: string, c: char)
    ensures Computable(s + [c]) <==> Computable(s) && Fits(Weighted(s), c)
  {
    hide Weighted, Fits;
    var t := s + [c];
    assert t[..|s|] == s && t[|s|] == c;
    assert forall i :: 0 <= i < |s| ==> t[..i] == s[..i] && t[i] == s[i];
    if Computable(t) {
      forall i | 0 <= i < |s|
        ensures Fits(Weighted(s[..i]), s[i])
      {
        assert Fits(Weighted(t[..i]), t[i]);
      }
      assert Fits(Weighted(t[..|s|]), t[|s|]);
    }
  }

  lemma {:induction false} WeightedSnoc(s: string, c: char)
    ensures Weighted(s + [c]) == Weighted(s) * 10 + Distance(c)
    decreases |s|
  {
    if s == "" {
      assert s + [c] == [c];
      OneDigit(c);
    } else {
      WeightedSnoc(s[1..], c);
      assert (s + [c])[1..] == s[1..] + [c];
      var d := Distance(s[0]);
      assert d * Power10(|s|) == 10 * (d * Power10(|s| - 1));
    }
  }

  /** The loop computes the weighted sum, as far as int holds it. */
  lemma {:induction false} ReadsWeighted(s: string)
    ensures ReadInt(s, 0) == if Computable(s) then Some(Weighted(s)) else None
    decreases |s|
  {
    hide ReadInt, Computable, Fits, Weighted;
    if s == "" {
      NothingRead();
    } else {
      var n := |s| - 1;
      ReadsWeighted(s[..n]);
      ReadIntSnoc(s[..n], s[n], 0);
      assert s[..n] + [s[n]] == s;
      ReadIntOne(s[n], Weighted(s[..n]));
      ComputableSnoc(s[..n], s[n]);
      WeightedSnoc(s[..n], s[n]);
    }
  }

  lemma NothingRead()
    ensures ReadInt("", 0) == Some(0) && Computable("") && Weighted("") == 0
  {
  }

  /** The version is accepted, and as what, by these sums alone. */
  lemma GoodCode(v: string)
    ensures GoodVersion(v) <==> HasNumbers(v) && VersionCode(v[5..]) in {Some(100), Some(101)}
    ensures GoodVersion(v) ==> VersionOf(VersionCode(v[5..]).value) == NumberedVersion(v)
  {
    hide ReadInt, Computable, Weighted;
    if HasNumbers(v) {
      ReadsWeighted(Major(v));
      ReadsWeighted(Minor(v));
    }
  }

  // -------------------------------------------------------------- digits only

  predicate AllDigits(s: string)
  {
    forall i :: 0 <= i < |s| ==> IsDigit(s[i])
  }

  lemma {:induction false} DigitsWeigh(s: string)
    requires AllDigits(s)
    ensures Weighted(s) >= 0
    ensures Weighted(s) <= 1000 ==> Computable(s)
    decreases |s|
  {
    hide Weighted, Computable;
    NothingRead();
    if s != "" {
      var n := |s| - 1;
      DigitsWeigh(s[..n]);
      assert s[..n] + [s[n]] == s;
      WeightedSnoc(s[..n], s[n]);
      ComputableSnoc(s[..n], s[n]);
    }
  }

  /** Texts of digits, of any length and even empty: accepted are exactly major 1 with minor 0 or 1,
      and major 0 with minor 100 or 101. */
  lemma DigitVersions(v: string)
    requires HasNumbers(v) && AllDigits(Major(v)) && AllDigits(Minor(v))
    ensures GoodVersion(v)
       <==> (Weighted(Major(v)) == 1 && Weighted(Minor(v)) in {0, 1})
            || (Weighted(Major(v)) == 0 && Weighted(Minor(v)) in {100, 101})
  {
    hide Computable, Weighted;
    DigitsWeigh(Major(v));
    DigitsWeigh(Minor(v));
  }

  lemma NumbersOf(a: string, b: string)
    requires '.' !in a
    ensures var v := "HTTP/" + (a + ['.'] + b); HasNumbers(v) && Major(v) == a && Minor(v) == b
  {
    var v, w := "HTTP/" + (a + ['.'] + b), a + ['.'] + b;
    assert v[5..] == w && v[..5] == "HTTP/";
    FindIn(a, '.', b);
    assert w[..|a|] == a && w[|a| + 1..] == b && w[|a|] == '.';
  }

  lemma OneDigit(c: char)
    ensures Weighted([c]) == Distance(c)
  {
    assert [c][1..] == "";
  }

  /** One digit on each side of the dot, as the code's comment has it: exactly "1.0" and "1.1". */
  lemma OneDigitVersions(a: char, b: char)
    requires IsDigit(a) && IsDigit(b)
    ensures GoodVersion("HTTP/" + ([a] + ['.'] + [b])) <==> a == '1' && b in {'0', '1'}
  {
    hide Computable, Weighted;
    NumbersOf([a], [b]);
    DigitVersions("HTTP/" + ([a] + ['.'] + [b]));
    OneDigit(a);
    OneDigit(b);
  }

  lemma SumGood(v: string)
    requires HasNumbers(v) && Computable(Major(v)) && Computable(Minor(v)) && Weighted(Major(v)) == 0 && Weighted(Minor(v)) == 101
    ensures GoodVersion(v) && NumberedVersion(v) == Http11
  {
    hide Computable, Weighted;
  }

  lemma OddSums()
    ensures Weighted("0") == 0 && Computable("0") && Weighted("") == 0 && Computable("")
    ensures Weighted("9;") == 101 && Computable("9;")
    ensures Weighted("101") == 101 && Computable("101")
    ensures Weighted("I\U{9b}") == 101 && Computable("I\U{9b}")
  {
    hide Weighted, Computable;
    NothingRead();
    OneDigit('0');
    OneDigit('9');
    OneDigit('1');
    OneDigit('I');
    assert "9" + ";" == "9;" && "1" + "0" == "10" && "10" + "1" == "101";
    assert "I" + "\U{9b}" == "I\U{9b}" && "" + "I" == "I";
    WeightedSnoc("9", ';');
    WeightedSnoc("I", '\U{9b}');
    WeightedSnoc("1", '0');
    WeightedSnoc("10", '1');
    DigitsWeigh("0");
    DigitsWeigh("9");
    DigitsWeigh("101");
    ComputableSnoc("9", ';');
    ComputableSnoc("", 'I');
    ComputableSnoc("I", '\U{9b}');
  }

  /** Three texts that are accepted as HTTP/1.1 and are not "digit.digit". */
  lemma OddVersions()
    ensures GoodVersion("HTTP/0.9;") && NumberedVersion("HTTP/0.9;") == Http11
    ensures GoodVersion("HTTP/.101") && NumberedVersion("HTTP/.101") == Http11
    ensures GoodVersion("HTTP/.I\U{9b}") && NumberedVersion("HTTP/.I\U{9b}") == Http11
  {
    hide Computable, Weighted, GoodVersion, NumberedVersion, Major, Minor, HasNumbers;
    OddSums();
    NumbersOf("0", "9;");
    NumbersOf("", "101");
    NumbersOf("", "I\U{9b}");
    assert "HTTP/" + ("0" + ['.'] + "9;") == "HTTP/0.9;";
    assert "HTTP/" + ("" + ['.'] + "101") == "HTTP/.101";
    assert "HTTP/" + ("" + ['.'] + "I\U{9b}") == "HTTP/.I\U{9b}";
    SumGood("HTTP/0.9;");
    SumGood("HTTP/.101");
    SumGood("HTTP/.I\U{9b}");
  }
}
