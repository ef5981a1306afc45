/** HttpResponse's chunks: Dec2Hex, AddChunk, and the receiver of section 4.1 of RFC 7230. */
module ChunkCoding {
  import opened Text

  const HEXS: string := "0123456789ABCDEF"

  // ------------------------------------------------------------ hexadecimal

  function Hex(n: nat): (s: string)
    ensures s != ""
  {
    if n < 16 then [HEXS[n]] else Hex(n / 16) + [HEXS[n % 16]]
  }

  /** HEXDIG in either case. */
  function HexDigitValue(c: char): (v: Option<nat>)
    ensures v.Some? ==> v.value < 16
  {
    if '0' <= c <= '9' then Some(c as int - '0' as int)
    else if 'A' <= c <= 'F' then Some(c as int - 'A' as int + 10)
    else if 'a' <= c <= 'f' then Some(c as int - 'a' as int + 10)
    else None
  }

  /** The number a string of hexadecimal digits stands for, read from the left. */
  function HexValue(s: string, acc: nat): Option<nat>
  {
    if s == "" then Some(acc) else
    match HexDigitValue(s[0])
    case None => None
    case Some(v) => HexValue(s[1..], acc * 16 + v)
  }

  lemma {:induction false} HexValueAppend(s: string, c: char, acc: nat)
    ensures HexValue(s + [c], acc) ==
            if HexValue(s, acc).None? || HexDigitValue(c).None? then None
            else Some(HexValue(s, acc).value * 16 + HexDigitValue(c).value)
  {
    if s == "" {
      assert s + [c] == [c];
    } else {
      assert (s + [c])[0] == s[0] && (s + [c])[1..] == s[1..] + [c];
      if HexDigitValue(s[0]).Some? {
        HexValueAppend(s[1..], c, acc * 16 + HexDigitValue(s[0]).value);
      }
    }
  }

  lemma HexDigitReads(d: nat)
    requires d < 16
    ensures HexDigitValue(HEXS[d]) == Some(d) && HEXS[d] != '\r'
  {
  }

  lemma {:induction false} HexReads(n: nat)
    ensures HexValue(Hex(n), 0) == Some(n)
    ensures '\r' !in Hex(n)
  {
    hide HexDigitValue;
    HexDigitReads(n % 16);
    if n < 16 {
      assert Hex(n)[1..] == "";
    } else {
      HexReads(n / 16);
      HexValueAppend(Hex(n / 16), HEXS[n % 16], 0);
    }
  }

  predicate IsUpperHex(c: char)
  {
    '0' <= c <= '9' || 'A' <= c <= 'F'
  }

  lemma UpperHexDigit(c: char)
    requires IsUpperHex(c)
    ensures HexDigitValue(c).Some? && HEXS[HexDigitValue(c).value] == c
  {
  }

  lemma HexStep(m: nat, d: nat)
    requires d < 16 && m > 0
    ensures Hex(m * 16 + d) == Hex(m) + [HEXS[d]]
  {
    var n := m * 16 + d;
    assert n / 16 == m && n % 16 == d;
  }

  /** Canonical: among upper-case numerals without a leading zero, only Hex(n) stands for n. */
  lemma {:induction false} HexCanonical(s: string, n: nat)
    requires HexValue(s, 0) == Some(n) && s != "" && (s[0] == '0' ==> |s| == 1)
    requires forall i :: 0 <= i < |s| ==> IsUpperHex(s[i])
    ensures s == Hex(n) && (n == 0 <==> s == "0")
    decreases |s|
  {
    hide HexDigitValue, HexValue, Hex, IsUpperHex;
    var front, c := s[..|s| - 1], s[|s| - 1];
    assert s == front + [c];
    HexValueAppend(front, c, 0);
    assert IsUpperHex(c);
    UpperHexDigit(c);
    var d := HexDigitValue(c).value;
    if front == "" {
      HexOne(d);
    } else {
      var m := HexValue(front, 0).value;
      HexCanonical(front, m);
      HexStep(m, d);
    }
  }

  lemma HexOne(d: nat)
    requires d < 16
    ensures Hex(d) == [HEXS[d]] && HexValue("", 0) == Some(0) && (HEXS[d] == '0' <==> d == 0)
  {
  }

  function Power16(k: nat): (p: nat)
    ensures p > 0
  {
    if k == 0 then 1 else 16 * Power16(k - 1)
  }

  /** A number below 16^k, and no other, is written in at most k digits. */
  lemma {:induction false} HexLength(n: nat, k: nat)
    requires k > 0
    ensures |Hex(n)| <= k <==> n < Power16(k)
  {
    if n >= 16 {
      if k == 1 {
        assert Power16(1) == 16 * Power16(0);
      } else {
        HexLength(n / 16, k - 1);
        var p := Power16(k - 1);
        assert n / 16 < p <==> n < 16 * p;
      }
    } else {
      assert Power16(k) == 16 * Power16(k - 1);
    }
  }

  lemma Size64()
    ensures Power16(16) == ULLONG_MAX + 1
  {
    assert Power16(4) == 0x1_0000;
    assert Power16(8) == 0x1_0000_0000;
    assert Power16(12) == 0x1_0000_0000_0000;
  }

  /** HttpResponse::Dec2Hex: digits are put into a 16-byte array from the back; for no size_t does
      the position leave the array. */
  method Dec2Hex(num: nat) returns (r: string)
    requires num <= ULLONG_MAX
    ensures r == Hex(num)
  {
    Size64();
    HexLength(num, 16);
    var buf := new char[16];
    var pos := 15;
    var n: nat := num;
    while n >= 16
      invariant 0 <= pos <= 15
      invariant |Hex(n)| <= pos + 1
      invariant Hex(num) == Hex(n) + buf[pos + 1..]
    {
      ghost var done := buf[pos + 1..];
      buf[pos] := HEXS[n % 16];
      assert buf[pos..] == [HEXS[n % 16]] + done;
      assert Hex(n) + done == Hex(n / 16) + buf[pos..];
      n := n / 16;
      pos := pos - 1;
    }
    buf[pos] := HEXS[n];
    r := buf[pos..];
    assert r == [HEXS[n]] + buf[pos + 1..];
  }

  // ----------------------------------------------------------------- chunks

  function EncodeChunk(data: string): string
  {
    Hex(|data|) + CRLF + data + CRLF
  }

  function EncodeChunks(chunks: seq<string>): string
    decreases |chunks|
  {
    if chunks == [] then "" else EncodeChunk(chunks[0]) + EncodeChunks(chunks[1..])
  }

  datatype Decoded = Whole(body: string, rest: string) | Partial | Malformed

  function Behind(data: string, d: Decoded): Decoded
  {
    if d.Whole? then d.(body := data + d.body) else d
  }

  datatype ChunkRead = OneChunk(data: string, rest: string) | Short | Broken

  /** A size line, data of that size, a line end. */
  function ReadChunk(b: string): (p: ChunkRead)
    ensures p.OneChunk? ==> |p.rest| < |b|
  {
    var i := FindCrLf(b);
    if i == |b| then Short
    else if i == 0 || HexValue(b[..i], 0).None? then Broken else
    var end := i + 2 + HexValue(b[..i], 0).value;
    if |b| < end + 2 then Short
    else if b[end..end + 2] != CRLF then Broken
    else OneChunk(b[i + 2..end], b[end + 2..])
  }

  /** A receiver of a chunked body; the chunk of size 0 is the last, and no trailer follows it. */
  function Unchunk(b: string): Decoded
    decreases |b|
  {
    match ReadChunk(b)
    case Short => Partial
    case Broken => Malformed
    case OneChunk(data, rest) => if data == "" then Whole("", rest) else Behind(data, Unchunk(rest))
  }

  lemma EncodeIs(data: string)
    ensures EncodeChunk(data) == Hex(|data|) + CRLF + data + CRLF
  {
  }

  lemma ChunkSlices(size: string, data: string, rest: string)
    ensures var b, i := size + CRLF + (data + CRLF + rest), |size| + 2;
            && |b| == i + |data| + 2 + |rest| && b[..|size|] == size && b[i..i + |data|] == data
            && b[i + |data|..i + |data| + 2] == CRLF && b[i + |data| + 2..] == rest
  {
  }

  lemma ChunkReads(data: string, rest: string)
    ensures ReadChunk(EncodeChunk(data) + rest) == OneChunk(data, rest)
  {
    hide HexValue, Hex, EncodeChunk, FindCrLf, OneLine;
    var size, behind := Hex(|data|), data + CRLF + rest;
    HexReads(|data|);
    EncodeIs(data);
    assert EncodeChunk(data) + rest == size + CRLF + behind;
    NoCrOneLine(size);
    FindCrLfLine(size, behind);
    ChunkSlices(size, data, rest);
  }

  lemma UnchunkOne(data: string, rest: string)
    ensures Unchunk(EncodeChunk(data) + rest) == if data == "" then Whole("", rest) else Behind(data, Unchunk(rest))
  {
    hide EncodeChunk, ReadChunk, Behind;
    ChunkReads(data, rest);
  }

  lemma NoCrOneLine(s: string)
    requires '\r' !in s
    ensures OneLine(s)
  {
    var i := FindCrLf(s);
    assert !CrLfAt(s, i);
  }

  /** The chunks before the first empty one; all of them when there is none. */
  function BeforeLast(chunks: seq<string>): nat
  {
    if chunks == [] || chunks[0] == "" then 0 else 1 + BeforeLast(chunks[1..])
  }

  /** Whatever bytes the chunks hold, the receiver gets the concatenation of those before the
      first empty chunk, and what stood behind that chunk is left over. */
  lemma {:induction false} UnchunkAll(chunks: seq<string>, rest: string)
    requires "" in chunks
    ensures var k := BeforeLast(chunks);
            k < |chunks| && chunks[k] == "" && "" !in chunks[..k]
            && Unchunk(EncodeChunks(chunks) + rest) == Whole(Flatten(chunks[..k]), EncodeChunks(chunks[k + 1..]) + rest)
    decreases |chunks|
  {
    hide Unchunk, EncodeChunk;
    var tail := EncodeChunks(chunks[1..]) + rest;
    assert EncodeChunks(chunks) + rest == EncodeChunk(chunks[0]) + tail;
    UnchunkOne(chunks[0], tail);
    if chunks[0] != "" {
      UnchunkAll(chunks[1..], rest);
      var k := BeforeLast(chunks[1..]);
      assert chunks[..k + 1] == [chunks[0]] + chunks[1..][..k];
      assert chunks[..k + 1][1..] == chunks[1..][..k];
      assert chunks[1..][k + 1..] == chunks[k + 2..];
    }
  }

  /** Sent chunk by chunk and ended by an empty chunk, a body arrives whole, with exactly the bytes
      behind it left over, if and only if no earlier chunk is empty. */
  lemma ChunkRoundTrip(chunks: seq<string>, rest: string)
    ensures Unchunk(EncodeChunks(chunks + [""]) + rest) == Whole(Flatten(chunks), rest) <==> "" !in chunks
  {
    hide Unchunk;
    var all := chunks + [""];
    assert all[|chunks|] == "";
    UnchunkAll(all, rest);
    var k := BeforeLast(all);
    if "" in chunks {
      var j :| 0 <= j < |chunks| && chunks[j] == "";
      assert all[j] == "" && forall m :: 0 <= m < k ==> all[m] == all[..k][m];
      var behind := all[k + 1..];
      assert behind != [];
      assert |EncodeChunks(behind)| >= |EncodeChunk(behind[0])| > 0;
    } else {
      assert forall j :: 0 <= j < |chunks| ==> all[j] == chunks[j] && all[j] != "";
      assert k == |chunks| && all[..k] == chunks && all[k + 1..] == [];
    }
  }

  lemma ChunkStable(b: string, more: string)
    ensures match ReadChunk(b)
            case OneChunk(data, rest) => ReadChunk(b + more) == OneChunk(data, rest + more)
            case Broken => ReadChunk(b + more) == Broken
            case Short => true
  {
    hide HexValue;
    var i := FindCrLf(b);
    if i < |b| {
      FindCrLfStable(b, more);
      assert (b + more)[..i] == b[..i];
      if i > 0 && HexValue(b[..i], 0).Some? {
        var end := i + 2 + HexValue(b[..i], 0).value;
        if end + 2 <= |b| {
          assert (b + more)[end..end + 2] == b[end..end + 2];
          assert (b + more)[i + 2..end] == b[i + 2..end];
          assert (b + more)[end + 2..] == b[end + 2..] + more;
        }
      }
    }
  }

  /** More bytes never change what has been decided. */
  lemma {:induction false} UnchunkStable(b: string, more: string)
    ensures Unchunk(b).Whole? ==> Unchunk(b + more) == Whole(Unchunk(b).body, Unchunk(b).rest + more)
    ensures Unchunk(b).Malformed? ==> Unchunk(b + more).Malformed?
    decreases |b|
  {
    hide ReadChunk;
    ChunkStable(b, more);
    if ReadChunk(b).OneChunk? && ReadChunk(b).data != "" {
      UnchunkStable(ReadChunk(b).rest, more);
    }
  }

  /** The coding delimits itself: cut anywhere before its end, it is read as unfinished. */
  lemma CutChunksArePartial(chunks: seq<string>, n: nat)
    requires "" !in chunks && n < |EncodeChunks(chunks + [""])|
    ensures Unchunk(EncodeChunks(chunks + [""])[..n]) == Partial
  {
    hide Unchunk;
    var all := EncodeChunks(chunks + [""]);
    assert all == all[..n] + all[n..] && all + "" == all;
    ChunkRoundTrip(chunks, "");
    UnchunkStable(all[..n], all[n..]);
  }
}
