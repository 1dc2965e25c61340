/** The wallet's `sha256` helper: the message is hashed into a 32-byte buffer,
    and each byte of that buffer is streamed into a string stream in
    `std::hex` format. `std::hex` writes a non-negative int as its shortest
    lowercase hex numeral, so a byte below 0x10 becomes ONE character and the
    digest text is not zero-padded. That text is the only form of the digest
    the rest of the program sees.

    The SHA-256 computation itself belongs to the crypto library; it enters
    the model as a parameter `sha` from messages to 32-byte digests. */
module HexRender {
  import opened Results

  type byte = bv8

  /** SHA256_DIGEST_LENGTH: the number of bytes the hash writes. */
  const DigestLength: nat := 32

  /** The `hash[SHA256_DIGEST_LENGTH]` buffer the SHA-256 call fills. */
  type Digest = d: seq<byte> | |d| == DigestLength witness seq(32, _ => 0 as byte)

  /** A C++ `std::string`: every character is one byte. */
  type ByteString = s: string | forall i | 0 <= i < |s| :: s[i] as int < 0x100

  /** The digits `std::hex` writes without `std::uppercase`. */
  predicate IsHexDigit(c: char) {
    '0' <= c <= '9' || 'a' <= c <= 'f'
  }

  predicate AllHexDigits(s: string) {
    forall i | 0 <= i < |s| :: IsHexDigit(s[i])
  }

  /** The numeric value of one lowercase hex digit. */
  function DigitValue(c: char): (v: nat)
    requires IsHexDigit(c)
    ensures v < 16
  {
    if c <= '9' then c as int - '0' as int else c as int - 'a' as int + 10
  }

  /** The value of a hex numeral, most significant digit first. */
  function HexValue(s: string): nat
    requires AllHexDigits(s)
  {
    if s == [] then 0 else 16 * HexValue(s[..|s| - 1]) + DigitValue(s[|s| - 1])
  }

  /** The digit `std::hex` writes for one nibble. */
  function HexDigit(n: nat): (c: char)
    requires n < 16
    ensures IsHexDigit(c) && DigitValue(c) == n
  {
    if n < 10 then ('0' as int + n) as char else ('a' as int + n - 10) as char
  }

  /** `ss << std::hex << (int)b` for one digest byte: the shortest hex
      numeral of the byte's value, high nibble first, no leading zero. */
  function RenderByte(b: byte): (r: ByteString)
    ensures |r| == (if b < 0x10 then 1 else 2)
    ensures AllHexDigits(r) && HexValue(r) == b as int
    ensures |r| > 1 ==> r[0] != '0'
  {
    var v := b as int;
    if v < 16 then
      var r := [HexDigit(v)];
      HexValueShort(r);
      r
    else
      var r := [HexDigit(v / 16), HexDigit(v % 16)];
      HexValueShort(r);
      r
  }

  /** One- and two-digit numerals, read high digit first. */
  lemma HexValueShort(s: string)
    requires AllHexDigits(s) && 1 <= |s| <= 2
    ensures |s| == 1 ==> HexValue(s) == DigitValue(s[0])
    ensures |s| == 2 ==> HexValue(s) == 16 * DigitValue(s[0]) + DigitValue(s[1])
  {
  }

  /** The whole digest text: the per-byte numerals, in buffer order. */
  function Render(bs: seq<byte>): (r: ByteString)
    ensures |bs| <= |r| <= 2 * |bs|
    ensures AllHexDigits(r)
  {
    if bs == [] then "" else RenderByte(bs[0]) + Render(bs[1..])
  }

  /** The number of bytes that need two hex digits. */
  function CountWide(bs: seq<byte>): (n: nat)
    ensures n <= |bs|
  {
    if bs == [] then 0 else (if bs[0] >= 0x10 then 1 else 0) + CountWide(bs[1..])
  }

  /** The loop of `sha256`: hash the message, then append each byte's
      numeral to the stream. The text is a function of the digest bytes
      alone, and it is never shorter than 32 or longer than 64 characters. */
  method Sha256(str: ByteString, sha: ByteString -> Digest) returns (hex: ByteString)
    ensures hex == Render(sha(str))
    ensures 32 <= |hex| <= 64
    ensures AllHexDigits(hex)
  {
    var hash := sha(str);
    var ss := "";
    for i := 0 to |hash|
      invariant ss == Render(hash[..i])
    {
      RenderAppend(hash[..i], [hash[i]]);
      assert hash[..i + 1] == hash[..i] + [hash[i]];
      ss := ss + RenderByte(hash[i]);
    }
    assert hash[..|hash|] == hash;
    hex := ss;
  }

  /** Rendering distributes over concatenation of byte sequences. */
  lemma {:induction false} RenderAppend(a: seq<byte>, b: seq<byte>)
    ensures Render(a + b) == Render(a) + Render(b)
    decreases |a|
  {
    if a == [] {
      assert a + b == b;
    } else {
      assert (a + b)[1..] == a[1..] + b;
      RenderAppend(a[1..], b);
    }
  }

  /** Every byte contributes one character, plus one more if it is at least 0x10. */
  lemma {:induction false} RenderLength(bs: seq<byte>)
    ensures |Render(bs)| == |bs| + CountWide(bs)
    decreases |bs|
  {
    if bs != [] {
      RenderLength(bs[1..]);
    }
  }

  lemma {:induction false} CountWideExtremes(bs: seq<byte>)
    ensures CountWide(bs) == |bs| <==> forall i | 0 <= i < |bs| :: bs[i] >= 0x10
    ensures CountWide(bs) == 0 <==> forall i | 0 <= i < |bs| :: bs[i] < 0x10
    decreases |bs|
  {
    if bs != [] {
      CountWideExtremes(bs[1..]);
      assert forall i | 1 <= i < |bs| :: bs[i] == bs[1..][i - 1];
    }
  }

  /** The digest text has between 32 and 64 characters; it has 64 exactly
      when no byte is below 0x10, and 32 exactly when every byte is. */
  lemma DigestTextLength(d: Digest)
    ensures 32 <= |Render(d)| <= 64
    ensures |Render(d)| == 64 <==> forall i | 0 <= i < |d| :: d[i] >= 0x10
    ensures |Render(d)| == 32 <==> forall i | 0 <= i < |d| :: d[i] < 0x10
  {
    RenderLength(d);
    CountWideExtremes(d);
  }

  /** Reads a string as consecutive two-digit byte numerals, the inverse of
      the rendering on digests whose bytes are all at least 0x10. */
  function DecodePairs(s: string): (r: Option<seq<byte>>)
    ensures r.Some? ==> 2 * |r.value| == |s|
    decreases |s|
  {
    if s == [] then Some([])
    else if |s| < 2 || !IsHexDigit(s[0]) || !IsHexDigit(s[1]) then None
    else match DecodePairs(s[2..])
      case None => None
      case Some(rest) => Some([(16 * DigitValue(s[0]) + DigitValue(s[1])) as byte] + rest)
  }

  /** Bytes that all render as two digits can be read back from their text. */
  lemma {:induction false} WideRoundTrip(bs: seq<byte>)
    requires forall i | 0 <= i < |bs| :: bs[i] >= 0x10
    ensures DecodePairs(Render(bs)) == Some(bs)
    decreases |bs|
  {
    if bs != [] {
      var head := RenderByte(bs[0]);
      var s := Render(bs);
      assert s == head + Render(bs[1..]);
      assert |head| == 2;
      assert s[0] == head[0] && s[1] == head[1] && s[2..] == Render(bs[1..]);
      HexValueShort(head);
      WideRoundTrip(bs[1..]);
      assert [bs[0]] + bs[1..] == bs;
    }
  }

  /** A 64-character digest text determines its digest. */
  lemma FullLengthTextDecodes(d: Digest)
    requires |Render(d)| == 64
    ensures DecodePairs(Render(d)) == Some(d)
  {
    DigestTextLength(d);
    WideRoundTrip(d);
  }

  /** The rendering loses information: [0x01, 0x10] and [0x11, 0x00] both
      render as "110", and so do two digests that start with them. */
  lemma RenderNotInjective()
    ensures Render([0x01, 0x10]) == "110" == Render([0x11, 0x00])
    ensures exists d1: Digest, d2: Digest :: d1 != d2 && Render(d1) == Render(d2)
  {
    var tail := seq(30, _ => 0 as byte);
    var d1: Digest := [0x01, 0x10] + tail;
    var d2: Digest := [0x11, 0x00] + tail;
    assert Render([0x01, 0x10]) == "1" + Render([0x10]);
    assert Render([0x10]) == "10" + Render([]);
    assert Render([0x11, 0x00]) == "11" + Render([0x00]);
    assert Render([0x00]) == "0" + Render([]);
    RenderAppend([0x01, 0x10], tail);
    RenderAppend([0x11, 0x00], tail);
    assert d1[0] != d2[0];
  }
}
