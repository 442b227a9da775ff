/** util/hash.go: the hash-algorithm dispatch, signature verification and the
    hex-to-binary conversion the proof-of-work test reads. The digests and the
    elliptic-curve check are uninterpreted. */
module Util {
  import opened GoStd
  import opened HexCodec

  /** A 32-byte digest (`common.Hash`). */
  type Digest = s: seq<byte> | |s| == 32 witness seq(32, _ => 0 as byte)

  /** A 64-byte digest. */
  type Digest64 = s: seq<byte> | |s| == 64 witness seq(64, _ => 0 as byte)

  /** `crypto.Keccak256Hash`, the engine's canonical hash (uninterpreted). */
  const CryptoHash: seq<byte> -> Digest

  /** SHA-256 and SHA-512 of FIPS 180-4 (uninterpreted). */
  const Sha256Sum: seq<byte> -> Digest
  const Sha512Sum: seq<byte> -> Digest64

  /** `crypto.VerifySignature(publicKey, digest, signature)` (uninterpreted). */
  const EcdsaVerify: (seq<byte>, seq<byte>, seq<byte>) -> bool

  /** The names `HashAlgorithm` takes. */
  const SHA256: string := "SHA256"
  const SHA512: string := "SHA512"
  const Keccak256: string := "Keccak256"

  /** `common.Hash.Hex()`: "0x" and 64 lower-case hex digits. */
  function DigestHex(d: Digest): (h: string)
    ensures |h| == 66 && h[..2] == "0x"
  {
    HexutilEncode(d)
  }

  /** The hex form of a digest decodes back to the digest. */
  lemma DigestHexDecodes(d: Digest)
    ensures HexutilDecode(DigestHex(d)) == Ok(d)
  {
    HexutilRoundTrip(d);
  }

  /** `Hash(data, algorithm)`; `None` is Go's nil slice. */
  function Hash(data: seq<byte>, algorithm: string): (r: Option<seq<byte>>)
    ensures r.None? <==> algorithm != SHA256 && algorithm != SHA512 && algorithm != Keccak256
    ensures r.Some? ==> |r.value| == if algorithm == SHA512 then 64 else 32
    ensures algorithm == Keccak256 ==> r == Some(CryptoHash(data))
  {
    if algorithm == SHA256 then Some(Sha256Sum(data))
    else if algorithm == SHA512 then Some(Sha512Sum(data))
    else if algorithm == Keccak256 then Some(CryptoHash(data))
    else None
  }

  /** What `VerifySignature` as written can do: answer, or crash the process. */
  datatype Verdict = Answer(ok: bool) | Panic

  /** Hex text is ASCII, so `[]byte` of it is one byte per digit. */
  lemma HexBytes(s: string)
    requires IsHex(s)
    ensures |Utf8(s)| == |s|
    ensures forall i :: 0 <= i < |s| ==> Utf8(s)[i] as int == s[i] as int
  {
    Utf8Ascii(s);
  }

  /** `VerifySignature` as written: the public key gets the uncompressed-point
      prefix "04" and must decode, the signature must decode with "0x", and then
      `signatureBytes[:64]` is taken. This models a `hex.DecodeString` that
      decodes in place, into the buffer `[]byte` made of the hex text, and
      returns that buffer. The library does not promise this: it depends on the
      standard library release. With such a decode, the slice's capacity is at
      least the number of hex digits, so 32 to 63 decoded bytes do not panic.
      `[:64]` yields the decoded bytes followed by the hex text from the first
      undecoded position on. Below 32 bytes the slice panics. A decode into a
      buffer of exactly the decoded length would make every signature under 64
      bytes panic. */
  function VerifySignatureAsWritten(publicKey: string, data: seq<byte>, signature: string): (v: Verdict)
    ensures v.Panic? <==>
      IsHex("04" + publicKey) && HexutilDecode(signature).Ok? && |HexutilDecode(signature).value| < 32
    ensures !IsHex("04" + publicKey) || HexutilDecode(signature).Err? ==> v == Answer(false)
    ensures IsHex("04" + publicKey) && HexutilDecode(signature).Ok? && |HexutilDecode(signature).value| >= 64 ==>
      v == Answer(EcdsaVerify(HexDecode("04" + publicKey).value, data, HexutilDecode(signature).value[..64]))
  {
    match HexDecode("04" + publicKey)
    case Err(_) => Answer(false)
    case Ok(pub) =>
      match HexutilDecode(signature)
      case Err(_) => Answer(false)
      case Ok(sig) =>
        if |sig| >= 64 then Answer(EcdsaVerify(pub, data, sig[..64]))
        else if |sig| >= 32 then
          HexBytes(signature[2..]);
          Answer(EcdsaVerify(pub, data, sig + Utf8(signature[2..])[|sig|..64]))
        else Panic
  }

  /** A signature of no bytes at all, "0x", takes the node down. */
  lemma ShortSignatureCrashes(data: seq<byte>)
    ensures VerifySignatureAsWritten("", data, "0x") == Panic
  {
    var pk := "04" + "";
    assert pk == ['0', '4'];
    assert IsHexDigit(pk[0]) && IsHexDigit(pk[1]);
    assert IsHex(pk);
    var sig := HexutilDecode("0x");
    assert sig.Ok? && |sig.value| == 0;
  }

  /** The public key "" becomes the single byte 4 once "04" is put in front. */
  lemma BareKeyPrefix()
    ensures HexDecode("04" + "") == Ok([4])
  {
    assert HexVal('0') == 0 && HexVal('4') == 4 && HexDecode("") == Ok([]);
    HexDecodeCons('0', '4', "");
    assert ['0', '4'] + "" == "04" + "";
    assert [(16 * HexVal('0') + HexVal('4')) as byte] + [] == [4];
  }

  /** 2n '0' digits decode to n zero bytes, and their `[]byte` is n bytes 0x30 again. */
  lemma ZeroDigits(n: nat)
    ensures HexDecode(Repeat('0', 2 * n)) == Ok(seq(n, _ => 0 as byte))
    ensures Utf8(Repeat('0', 2 * n)) == seq(2 * n, _ => 0x30 as byte)
  {
    var text := Repeat('0', 2 * n);
    assert IsHex(text);
    HexDecodeValues(text);
    var bytes := HexDecode(text).value;
    forall i | 0 <= i < n
      ensures bytes[i] == 0
    {
      assert text[2 * i] == '0' && text[2 * i + 1] == '0';
    }
    assert bytes == seq(n, _ => 0 as byte);
    HexBytes(text);
  }

  /** With an in-place hex decode, a signature of 32 zero bytes is not
      refused. The code as written checks it padded with 32 bytes of its own
      hex text, the character '0' (0x30). The corrected check says no. */
  lemma PaddedSignatureChecked(data: seq<byte>)
    ensures VerifySignatureAsWritten("", data, "0x" + Repeat('0', 64))
         == Answer(EcdsaVerify([4], data, seq(32, _ => 0 as byte) + seq(32, _ => 0x30 as byte)))
    ensures !VerifySignature("", data, "0x" + Repeat('0', 64))
  {
    BareKeyPrefix();
    ZeroDigits(32);
    var signature := "0x" + Repeat('0', 64);
    assert signature[2..] == Repeat('0', 64);
    assert Has0xPrefix(signature);
    assert HexutilDecode(signature) == Ok(seq(32, _ => 0 as byte));
    assert Utf8(signature[2..])[32..64] == seq(32, _ => 0x30 as byte);
  }

  /** `VerifySignature` as evidently intended: every malformed input, a too-short
      signature included, is a plain rejection. */
  function VerifySignature(publicKey: string, data: seq<byte>, signature: string): (ok: bool)
    ensures !IsHex("04" + publicKey) ==> !ok
    ensures HexutilDecode(signature).Err? ==> !ok
    ensures ok ==> HexutilDecode(signature).Ok? && |HexutilDecode(signature).value| >= 64
  {
    match HexDecode("04" + publicKey)
    case Err(_) => false
    case Ok(pub) =>
      match HexutilDecode(signature)
      case Err(_) => false
      case Ok(sig) => |sig| >= 64 && EcdsaVerify(pub, data, sig[..64])
  }

  /** The corrected check against the code as written: they give the same answer
      unless the signature decodes to fewer than 64 bytes; every signature the
      corrected check accepts is accepted as written; and where the code as
      written crashes or checks a padded signature, the corrected check says no. */
  lemma VerifySignatureAgrees(publicKey: string, data: seq<byte>, signature: string)
    ensures HexutilDecode(signature).Err? || |HexutilDecode(signature).value| >= 64 ==>
      VerifySignatureAsWritten(publicKey, data, signature) == Answer(VerifySignature(publicKey, data, signature))
    ensures VerifySignature(publicKey, data, signature) ==>
      VerifySignatureAsWritten(publicKey, data, signature) == Answer(true)
    ensures HexutilDecode(signature).Ok? && |HexutilDecode(signature).value| < 64 ==>
      !VerifySignature(publicKey, data, signature)
  {
  }

  function Pow2(n: nat): (p: nat)
    ensures p >= 1
  {
    if n == 0 then 1 else 2 * Pow2(n - 1)
  }

  /** The low `width` bits of `n`, most significant first (`%0<width>b`). */
  function Bits(n: nat, width: nat): (s: string)
    ensures |s| == width
  {
    if width == 0 then "" else Bits(n / 2, width - 1) + [if n % 2 == 1 then '1' else '0']
  }

  /** `fmt.Sprintf("%08b", b)`. */
  function ByteBits(b: byte): string
  {
    Bits(b as nat, 8)
  }

  /** Reads a string of binary digits back as a number. */
  function BitsValue(s: string): nat
  {
    if s == [] then 0 else 2 * BitsValue(s[..|s| - 1]) + (if s[|s| - 1] == '1' then 1 else 0)
  }

  /** Formatting a number that fits in `width` bits and reading it back is the identity. */
  lemma {:induction false} BitsRoundTrip(n: nat, width: nat)
    requires n < Pow2(width)
    ensures BitsValue(Bits(n, width)) == n
  {
    if width > 0 {
      var s := Bits(n, width);
      BitsRoundTrip(n / 2, width - 1);
      assert s[..|s| - 1] == Bits(n / 2, width - 1);
    }
  }

  /** The bytes written out as 8-digit binary groups, in order (what
      `strings.Join(binaryStrings, "")` returns). */
  function BinaryOf(bs: seq<byte>): (s: string)
    ensures |s| == 8 * |bs|
  {
    if bs == [] then "" else BinaryOf(bs[..|bs| - 1]) + ByteBits(bs[|bs| - 1])
  }

  /** Binary digits only. */
  predicate IsBinary(s: string)
  {
    forall i :: 0 <= i < |s| ==> s[i] == '0' || s[i] == '1'
  }

  lemma {:induction false} BitsBinary(n: nat, width: nat)
    ensures IsBinary(Bits(n, width))
  {
    if width > 0 {
      BitsBinary(n / 2, width - 1);
    }
  }

  lemma {:induction false} BinaryOfBinary(bs: seq<byte>)
    ensures IsBinary(BinaryOf(bs))
  {
    if bs != [] {
      BinaryOfBinary(bs[..|bs| - 1]);
      BitsBinary(bs[|bs| - 1] as nat, 8);
    }
  }

  /** The i-th 8-character group of the binary form is byte i's zero-padded binary. */
  lemma {:induction false} BinaryOfGroup(bs: seq<byte>, i: nat)
    requires i < |bs|
    ensures BinaryOf(bs)[8 * i..8 * i + 8] == ByteBits(bs[i])
  {
    var n := |bs| - 1;
    if i < n {
      BinaryOfGroup(bs[..n], i);
      assert BinaryOf(bs)[8 * i..8 * i + 8] == BinaryOf(bs[..n])[8 * i..8 * i + 8];
    } else {
      assert BinaryOf(bs)[8 * i..8 * i + 8] == ByteBits(bs[n]);
    }
  }

  /** Each 8-character group converts back to the byte it came from. */
  lemma BinaryOfDecodes(bs: seq<byte>, i: nat)
    requires i < |bs|
    ensures BitsValue(BinaryOf(bs)[8 * i..8 * i + 8]) == bs[i] as int
  {
    BinaryOfGroup(bs, i);
    assert Pow2(8) == 256;
    BitsRoundTrip(bs[i] as nat, 8);
  }

  /** `HexToBin` as a value: one optional "0x" stripped, then hex-decoded, then
      written out in binary. */
  function HexToBinary(hexString: string): (r: Result<string>)
    ensures r.Ok? <==> IsHex(TrimHexPrefix(hexString))
    ensures r.Ok? ==> |r.value| == 4 * |TrimHexPrefix(hexString)|
    ensures r.Ok? ==> IsBinary(r.value)
  {
    match HexDecode(TrimHexPrefix(hexString))
    case Err(e) => Err(e)
    case Ok(decoded) => BinaryOfBinary(decoded); Ok(BinaryOf(decoded))
  }

  /** `HexToBin`: appends one 8-digit group per decoded byte. */
  method HexToBin(hexString: string) returns (r: Result<string>)
    ensures r == HexToBinary(hexString)
  {
    var s := hexString;
    if HasPrefix(s, "0x") {
      s := s[2..];
    }
    var decoded := HexDecode(s);
    if decoded.Err? {
      return Err(decoded.msg);
    }
    var bytes := decoded.value;
    var binary := "";
    var i := 0;
    while i < |bytes|
      invariant 0 <= i <= |bytes|
      invariant binary == BinaryOf(bytes[..i])
    {
      assert bytes[..i + 1][..i] == bytes[..i];
      binary := binary + ByteBits(bytes[i]);
      i := i + 1;
    }
    assert bytes[..i] == bytes;
    return Ok(binary);
  }

  /** A digest's hex form always converts: 256 binary digits, byte by byte. */
  lemma DigestBinary(d: Digest)
    ensures HexToBinary(DigestHex(d)) == Ok(BinaryOf(d))
    ensures |BinaryOf(d)| == 256
  {
    var h := DigestHex(d);
    assert HasPrefix(h, "0x");
    assert TrimHexPrefix(h) == HexEncode(d);
    HexRoundTrip(d);
  }
}
