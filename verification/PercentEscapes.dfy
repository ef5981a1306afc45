/** Percent escapes in the URL transducer (section 2.1 of RFC 3986): what is decoded and what is
    refused. The encoder is the one of the standard; the decoder is the code's, which accepts
    other digits than it says. */
module PercentEscapes {
  import opened Text
  import opened ComplexUrl
  import opened SpelledUrl

  predicate IsByte(c: char)
  {
    c as int < 256
  }

  function HexDigit(n: nat, upper: bool): char
    requires n < 16
  {
    if n < 10 then ('0' as int + n) as char
    else if upper then ('A' as int + n - 10) as char
    else ('a' as int + n - 10) as char
  }

  function Encode(bytes: string, upper: bool): string
    requires forall k :: 0 <= k < |bytes| ==> IsByte(bytes[k])
    decreases |bytes|
  {
    if bytes == "" then ""
    else
      assert IsByte(bytes[0]);
      ['%', HexDigit(bytes[0] as int / 16, upper), HexDigit(bytes[0] as int % 16, upper)] + Encode(bytes[1..], upper)
  }

  /** Both hexadecimal digits of the byte are decimal ones. */
  predicate DecimalNibbles(c: char)
  {
    c as int / 16 < 10 && c as int % 16 < 10
  }

  lemma HexDigitReads(n: nat, upper: bool)
    requires n < 16
    ensures EscapeDigit(HexDigit(n, upper)) == if n < 10 then Some(n) else None
  {
  }

  lemma EscapeSteps(c: Config, hi: nat, lo: nat, upper: bool)
    requires hi < 16 && lo < 16 && c.state == Usual
    ensures var first := c.(trap := Usual, state := PercentFirst);
            var second := first.(decode := hi, state := PercentSecond);
            && Step(c, '%') == Running(first)
            && Step(first, HexDigit(hi, upper)) == (if hi < 10 then Running(second) else BadEscape(true, first))
            && (hi < 10 ==>
                  Step(second, HexDigit(lo, upper)) ==
                  if lo < 10 then Running(c.(trap := Usual, decode := hi * 16 + lo, out := c.out + [(hi * 16 + lo) as char]))
                  else BadEscape(false, second))
  {
    hide EscapeDigit, HexDigit;
    HexDigitReads(hi, upper);
    HexDigitReads(lo, upper);
  }

  lemma FeedEscape(c: Config, hi: nat, lo: nat, upper: bool, s: string)
    requires hi < 16 && lo < 16 && c.state == Usual
    ensures var text := ['%', HexDigit(hi, upper), HexDigit(lo, upper)] + s;
            if hi < 10 && lo < 10
            then Feed(c, text) == Feed(c.(trap := Usual, decode := hi * 16 + lo, out := c.out + [(hi * 16 + lo) as char]), s)
            else Feed(c, text).BadEscape?
  {
    hide Step, Feed, HexDigit;
    var x, y := HexDigit(hi, upper), HexDigit(lo, upper);
    var first := c.(trap := Usual, state := PercentFirst);
    EscapeSteps(c, hi, lo, upper);
    assert ['%', x, y] + s == ['%'] + ([x] + ([y] + s));
    FeedCons(c, '%', [x] + ([y] + s));
    FeedCons(first, x, [y] + s);
    if hi < 10 {
      FeedCons(first.(decode := hi, state := PercentSecond), y, s);
    }
  }

  /** Decoding an encoded byte string gives it back, exactly when no byte needs a hexadecimal
      letter; otherwise the URL is refused. Bytes that mean something to the transducer
      ('%' is 25) come through as data. */
  lemma {:induction false} PercentRoundTrip(c: Config, bytes: string, upper: bool)
    requires c.state == Usual && forall k :: 0 <= k < |bytes| ==> IsByte(bytes[k])
    ensures Feed(c, Encode(bytes, upper)).Running? <==> forall k :: 0 <= k < |bytes| ==> DecimalNibbles(bytes[k])
    ensures Feed(c, Encode(bytes, upper)).Running? ==>
              var d := Feed(c, Encode(bytes, upper)).c;
              d.state == Usual && d.out == c.out + bytes && d.query == c.query
    decreases |bytes|
  {
    if bytes == "" {
      assert c.out + bytes == c.out;
    } else {
      var b := bytes[0] as int;
      var hi, lo := b / 16, b % 16;
      FeedEscape(c, hi, lo, upper, Encode(bytes[1..], upper));
      if DecimalNibbles(bytes[0]) {
        assert (hi * 16 + lo) as char == bytes[0];
        var d := c.(trap := Usual, decode := hi * 16 + lo, out := c.out + [bytes[0]]);
        PercentRoundTrip(d, bytes[1..], upper);
        assert c.out + [bytes[0]] + bytes[1..] == c.out + bytes;
        assert forall k :: 0 < k < |bytes| ==> bytes[k] == bytes[1..][k - 1];
      }
    }
  }

  /** The letter branch tests isdigit after the case fold: it refuses every letter, and what it
      does accept are ten control bytes, which the fold turns into digits. */
  lemma DigitsAccepted(c: char)
    ensures EscapeDigit(c).Some? <==> IsDigit(c) || 0x10 <= c as int <= 0x19
    ensures 0x10 <= c as int <= 0x19 ==> EscapeDigit(c) == Some(c as int - 0x37)
  {
  }
}
