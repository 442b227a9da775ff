/** Hexadecimal text as the node reads and writes it: Go's `encoding/hex`
    (`hex.DecodeString`, `hex.EncodeToString`) and go-ethereum's `hexutil`
    (`hexutil.Decode`, `hexutil.Encode`), which add a mandatory "0x" prefix. */
module HexCodec {
  import opened GoStd

  predicate IsHexDigit(c: char)
  {
    '0' <= c <= '9' || 'a' <= c <= 'f' || 'A' <= c <= 'F'
  }

  function HexVal(c: char): (v: nat)
    requires IsHexDigit(c)
    ensures v < 16
  {
    if '0' <= c <= '9' then c as nat - '0' as nat
    else if 'a' <= c <= 'f' then c as nat - 'a' as nat + 10
    else c as nat - 'A' as nat + 10
  }

  /** The lower-case digit `hex.EncodeToString` writes for a nibble. */
  function HexDigit(v: nat): (c: char)
    requires v < 16
    ensures '0' <= c <= '9' || 'a' <= c <= 'f'
  {
    "0123456789abcdef"[v]
  }

  /** The digit written for a nibble reads back as that nibble. */
  lemma HexDigitValue(v: nat)
    requires v < 16
    ensures IsHexDigit(HexDigit(v)) && HexVal(HexDigit(v)) == v
  {
  }

  /** What `hex.DecodeString` accepts: an even number of hex digits of either case. */
  predicate IsHex(s: string)
  {
    |s| % 2 == 0 && forall i :: 0 <= i < |s| ==> IsHexDigit(s[i])
  }

  lemma IsHexCons(s: string)
    requires |s| >= 2
    ensures IsHex(s) <==> IsHexDigit(s[0]) && IsHexDigit(s[1]) && IsHex(s[2..])
  {
    if IsHexDigit(s[0]) && IsHexDigit(s[1]) && IsHex(s[2..]) {
      forall i | 2 <= i < |s| ensures IsHexDigit(s[i]) {
        assert s[i] == s[2..][i - 2];
      }
    }
  }

  /** `hex.DecodeString`: pairs of digits, high nibble first; an odd length or a
      non-hex character is an error. */
  function HexDecode(s: string): (r: Result<seq<byte>>)
    ensures r.Ok? <==> IsHex(s)
    ensures r.Ok? ==> |r.value| == |s| / 2
    decreases |s|
  {
    if s == [] then Ok([])
    else if |s| == 1 then
      (if IsHexDigit(s[0]) then Err("encoding/hex: odd length hex string")
       else Err("encoding/hex: invalid byte"))
    else if !IsHexDigit(s[0]) || !IsHexDigit(s[1]) then
      IsHexCons(s);
      Err("encoding/hex: invalid byte")
    else
      IsHexCons(s);
      match HexDecode(s[2..])
      case Err(e) => Err(e)
      case Ok(rest) => Ok([(16 * HexVal(s[0]) + HexVal(s[1])) as byte] + rest)
  }

  /** Byte i of the decoded text is digit 2i as the high nibble and digit
      2i+1 as the low one. */
  lemma {:induction false} HexDecodeValues(s: string)
    requires IsHex(s)
    ensures forall i :: 0 <= i < |HexDecode(s).value| ==>
      HexDecode(s).value[i] as int == 16 * HexVal(s[2 * i]) + HexVal(s[2 * i + 1])
    decreases |s|
  {
    if s != [] {
      IsHexCons(s);
      HexDecodeValues(s[2..]);
      var rest := HexDecode(s[2..]).value;
      forall i | 1 <= i < |rest| + 1
        ensures HexDecode(s).value[i] as int == 16 * HexVal(s[2 * i]) + HexVal(s[2 * i + 1])
      {
        assert HexDecode(s).value[i] == rest[i - 1];
        assert s[2..][2 * (i - 1)] == s[2 * i];
        assert s[2..][2 * (i - 1) + 1] == s[2 * i + 1];
      }
    }
  }

  /** `hex.EncodeToString`: two lower-case digits per byte. */
  function HexEncode(bs: seq<byte>): (s: string)
    ensures |s| == 2 * |bs|
  {
    if bs == [] then ""
    else [HexDigit(bs[0] as nat / 16), HexDigit(bs[0] as nat % 16)] + HexEncode(bs[1..])
  }

  /** Decoding a pair of digits in front of decodable text. */
  lemma HexDecodeCons(hi: char, lo: char, rest: string)
    requires IsHexDigit(hi) && IsHexDigit(lo) && HexDecode(rest).Ok?
    ensures HexDecode([hi, lo] + rest) == Ok([(16 * HexVal(hi) + HexVal(lo)) as byte] + HexDecode(rest).value)
  {
    var s := [hi, lo] + rest;
    assert s[0] == hi && s[1] == lo && s[2..] == rest;
  }

  /** Decoding what was encoded gives the bytes back. */
  lemma {:induction false} HexRoundTrip(bs: seq<byte>)
    ensures HexDecode(HexEncode(bs)) == Ok(bs)
  {
    if bs != [] {
      var hi := HexDigit(bs[0] as nat / 16);
      var lo := HexDigit(bs[0] as nat % 16);
      HexDigitValue(bs[0] as nat / 16);
      HexDigitValue(bs[0] as nat % 16);
      HexRoundTrip(bs[1..]);
      HexDecodeCons(hi, lo, HexEncode(bs[1..]));
      assert (16 * HexVal(hi) + HexVal(lo)) as byte == bs[0];
      assert [bs[0]] + bs[1..] == bs;
    }
  }

  /** go-ethereum's `has0xPrefix`: "0x" or "0X". */
  predicate Has0xPrefix(s: string)
  {
    |s| >= 2 && s[0] == '0' && (s[1] == 'x' || s[1] == 'X')
  }

  /** `hexutil.Decode`: the empty string and a missing prefix are errors, the
      rest must be what `hex.DecodeString` accepts. */
  function HexutilDecode(s: string): (r: Result<seq<byte>>)
    ensures r.Ok? <==> Has0xPrefix(s) && IsHex(s[2..])
    ensures r.Ok? ==> |r.value| == (|s| - 2) / 2
  {
    if |s| == 0 then Err("empty hex string")
    else if !Has0xPrefix(s) then Err("hex string without 0x prefix")
    else match HexDecode(s[2..])
      case Ok(b) => Ok(b)
      case Err(e) => Err(e)
  }

  /** `hexutil.Encode`: "0x" and two lower-case digits per byte. */
  function HexutilEncode(bs: seq<byte>): (s: string)
    ensures |s| == 2 + 2 * |bs|
    ensures s[..2] == "0x" && s[2..] == HexEncode(bs)
  {
    "0x" + HexEncode(bs)
  }

  /** `hexutil.Decode` reads back what `hexutil.Encode` wrote. */
  lemma HexutilRoundTrip(bs: seq<byte>)
    ensures HexutilDecode(HexutilEncode(bs)) == Ok(bs)
  {
    var s := HexutilEncode(bs);
    assert s[0] == '0' && s[1] == 'x';
    HexRoundTrip(bs);
  }
}
