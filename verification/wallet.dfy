/** How `Wallet::sign` and `Wallet::verify` consume the digest text. Both take
    the hash string `str`, cast its character buffer to bytes, and hand the
    first `mdlen = 32` of those bytes to the ECDSA primitive as the message
    digest. The bytes signed are therefore ASCII codes of hex digits, not the
    raw SHA-256 output, and they cover only the part of the digest whose text
    falls in the first 32 characters.

    Key parsing, the signing and verification contexts, the ECDSA primitive
    and the signature's hex codec are library calls; each operation receives
    them folded into one `primitive` parameter applied to the digest bytes. */
module Wallet {
  import opened Results
  import opened HexRender

  /** `mdlen`: the digest length sign and verify both pass to the primitive. */
  const MdLen: nat := 32

  /** Reading `mdlen` bytes from the character buffer of a string of 30
      characters or fewer would run past its terminating NUL; the model
      reports that instead of reading on. */
  datatype DigestError = DigestTextTooShort(length: nat)

  /** The code of one character of a byte string. */
  function ByteOf(c: char): (b: byte)
    requires c as int < 0x100
    ensures b as int == c as int
  {
    c as byte
  }

  /** The ASCII code of each character, as the `(unsigned char *)` cast sees it. */
  function AsBytes(s: ByteString): (bs: seq<byte>)
    ensures |bs| == |s|
    ensures forall i | 0 <= i < |s| :: bs[i] as int == s[i] as int
  {
    seq(|s|, i requires 0 <= i < |s| => ByteOf(s[i]))
  }

  /** The characters whose codes the bytes are. */
  function AsText(bs: seq<byte>): (s: string)
    ensures |s| == |bs|
    ensures forall i | 0 <= i < |bs| :: s[i] as int == bs[i] as int
  {
    seq(|bs|, i requires 0 <= i < |bs| => bs[i] as int as char)
  }

  /** The buffer `str.c_str()` points at: the character codes followed by
      the terminating NUL. */
  function CStr(str: ByteString): (buf: seq<byte>)
    ensures |buf| == |str| + 1 && buf[|str|] == 0
    ensures forall i | 0 <= i < |str| :: buf[i] as int == str[i] as int
  {
    AsBytes(str) + [0]
  }

  /** `(unsigned char *)str.c_str()` read for `mdlen` bytes. A 31-character
      string still fits: its 32nd byte is the terminating NUL. */
  function DigestInput(str: ByteString): (r: Result<seq<byte>, DigestError>)
    ensures r.Success? <==> |str| >= MdLen - 1
    ensures r.Failure? ==> r.error.length == |str|
    ensures r.Success? ==> |r.value| == MdLen
  {
    var buf := CStr(str);
    if |buf| < MdLen then Failure(DigestTextTooShort(|str|)) else Success(buf[..MdLen])
  }

  /** `Wallet::sign`: the primitive signs the digest bytes read from `str`. */
  function Sign<S>(str: ByteString, primitive: seq<byte> -> S): (r: Result<S, DigestError>)
    ensures r.Failure? <==> |str| < MdLen - 1
  {
    match DigestInput(str)
    case Failure(e) => Failure(e)
    case Success(md) => Success(primitive(md))
  }

  /** `Wallet::verify`: the primitive checks `signature` against the digest
      bytes read from `str`; its 1 / 0 / negative result is returned as is. */
  function Verify<S>(str: ByteString, signature: S, primitive: (seq<byte>, S) -> int): (r: Result<int, DigestError>)
    ensures r.Failure? <==> |str| < MdLen - 1
  {
    match DigestInput(str)
    case Failure(e) => Failure(e)
    case Success(md) => Success(primitive(md, signature))
  }

  /** The codes of the lowercase hex digits '0'-'9' and 'a'-'f'. */
  predicate IsHexAscii(b: byte) {
    0x30 <= b <= 0x39 || 0x61 <= b <= 0x66
  }

  /** The bytes handed to the primitive are exactly the first 32 characters
      of the string: reading them back as text gives that prefix. */
  lemma DigestInputIsTextPrefix(str: ByteString)
    requires |str| >= MdLen
    ensures DigestInput(str).Success?
    ensures AsText(DigestInput(str).value) == str[..MdLen]
  {
  }

  /** For every digest, the fixed 32-byte read of its text stays within the
      text, and every byte read is the code of a lowercase hex digit. */
  lemma RenderedDigestReadInBounds(d: Digest)
    ensures DigestInput(Render(d)).Success?
    ensures forall i | 0 <= i < MdLen :: IsHexAscii(DigestInput(Render(d)).value[i])
  {
  }

  /** The primitive never sees the raw digest when the digest holds a byte that
      is not the code of a lowercase hex digit. */
  lemma SignedBytesAreNotTheDigest(d: Digest, k: nat)
    requires k < |d| && !IsHexAscii(d[k])
    ensures DigestInput(Render(d)).Success? && DigestInput(Render(d)).value != d
  {
  }

  /** A 31-character hash string hands the primitive its 31 character codes
      followed by the NUL terminator. */
  lemma TerminatorRead(str: ByteString)
    requires |str| == MdLen - 1
    ensures DigestInput(str).Success?
    ensures DigestInput(str).value == AsBytes(str) + [0]
  {
  }

  /** Two hash strings that agree on their first 32 characters give the
      primitive the same bytes. */
  lemma SharedTextPrefixSharesInput(h1: ByteString, h2: ByteString)
    requires |h1| >= MdLen && |h2| >= MdLen && h1[..MdLen] == h2[..MdLen]
    ensures DigestInput(h1) == DigestInput(h2)
  {
    var b1 := CStr(h1)[..MdLen];
    var b2 := CStr(h2)[..MdLen];
    forall i | 0 <= i < MdLen
      ensures b1[i] == b2[i]
    {
      assert h1[i] == h1[..MdLen][i] == h2[..MdLen][i] == h2[i];
    }
    assert b1 == b2;
  }

  /** If the first `k` digest bytes already render to 32 characters or more,
      the signed bytes depend on nothing after them. */
  lemma SignedInputDependsOnPrefix(d1: Digest, d2: Digest, k: nat)
    requires k <= DigestLength && d1[..k] == d2[..k] && |Render(d1[..k])| >= MdLen
    ensures DigestInput(Render(d1)).Success?
    ensures DigestInput(Render(d1)) == DigestInput(Render(d2))
  {
    var p := Render(d1[..k]);
    assert d1[..k] + d1[k..] == d1;
    assert d2[..k] + d2[k..] == d2;
    RenderAppend(d1[..k], d1[k..]);
    RenderAppend(d2[..k], d2[k..]);
    var t1 := Render(d1);
    var t2 := Render(d2);
    assert t1 == p + Render(d1[k..]);
    assert t2 == p + Render(d2[k..]);
    assert t1[..MdLen] == p[..MdLen] == t2[..MdLen];
    SharedTextPrefixSharesInput(t1, t2);
  }

  /** When the first 16 digest bytes are all at least 0x10 they fill the 32
      characters on their own, and the other 16 bytes are never signed. */
  lemma SignedInputCoversFirstHalf(d1: Digest, d2: Digest)
    requires d1[..16] == d2[..16]
    requires forall i | 0 <= i < 16 :: d1[i] >= 0x10
    ensures DigestInput(Render(d1)) == DigestInput(Render(d2))
  {
    var p := d1[..16];
    RenderLength(p);
    CountWideExtremes(p);
    SignedInputDependsOnPrefix(d1, d2, 16);
  }

  /** So distinct digests can share the signed bytes. */
  lemma DistinctDigestsShareSignedInput()
    ensures exists d1: Digest, d2: Digest ::
      d1 != d2 && DigestInput(Render(d1)) == DigestInput(Render(d2))
  {
    var d1: Digest := seq(32, _ => 0x10 as byte);
    var d2: Digest := seq(31, _ => 0x10 as byte) + [0x11];
    assert d1[..16] == d2[..16];
    SignedInputCoversFirstHalf(d1, d2);
    assert d1[31] != d2[31];
  }

  /** A primitive that accepts every signature it made gives `true` for the
      digest text of every message: sign and verify read the same bytes. */
  lemma SignThenVerify<S>(d: Digest, signer: seq<byte> -> S, verifier: (seq<byte>, S) -> int)
    requires forall md: seq<byte> | |md| == MdLen :: verifier(md, signer(md)) == 1
    ensures Sign(Render(d), signer).Success?
    ensures Verify(Render(d), Sign(Render(d), signer).value, verifier) == Success(1)
  {
  }

  /** A signature made over one message is accepted for another whose digest
      agrees on the first 16 bytes, when those bytes are all at least 0x10. */
  lemma AcceptedForOtherMessage<S>(m1: ByteString, m2: ByteString, sha: ByteString -> Digest,
                                   signer: seq<byte> -> S, verifier: (seq<byte>, S) -> int)
    requires sha(m1)[..16] == sha(m2)[..16]
    requires forall i | 0 <= i < 16 :: sha(m1)[i] >= 0x10
    requires forall md: seq<byte> | |md| == MdLen :: verifier(md, signer(md)) == 1
    ensures Sign(Render(sha(m1)), signer).Success?
    ensures Verify(Render(sha(m2)), Sign(Render(sha(m1)), signer).value, verifier) == Success(1)
  {
    SignedInputCoversFirstHalf(sha(m1), sha(m2));
    SignThenVerify(sha(m1), signer, verifier);
  }
}
