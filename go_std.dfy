/** The Go language and standard-library primitives the node's code relies on:
    bytes, error returns, string prefixes, `strconv.FormatInt`, `string(rune(n))`
    and the UTF-8 encoding behind `[]byte(s)`. */
module GoStd {

  /** Go's `byte`. */
  newtype byte = x: int | 0 <= x < 256

  /** A value or an error: Go's `(T, error)` return pairs. */
  datatype Result<+T> = Ok(value: T) | Err(msg: string)

  /** A possibly-nil value. */
  datatype Option<+T> = None | Some(value: T)

  /** An `error` return with no value beside it (`nil` is `Pass`). */
  datatype Outcome = Pass | Fail(msg: string)

  /** `strings.HasPrefix(s, p)`. */
  predicate HasPrefix(s: string, p: string)
  {
    |p| <= |s| && s[..|p|] == p
  }

  /** `if strings.HasPrefix(s, "0x") { s = s[2:] }`: at most one leading "0x" goes. */
  function TrimHexPrefix(s: string): (r: string)
    ensures HasPrefix(s, "0x") ==> s == "0x" + r
    ensures !HasPrefix(s, "0x") ==> r == s
  {
    if HasPrefix(s, "0x") then s[2..] else s
  }

  /** `strings.Repeat(string(c), n)`. */
  function Repeat(c: char, n: nat): (r: string)
    ensures |r| == n
    ensures forall i :: 0 <= i < n ==> r[i] == c
  {
    seq(n, _ => c)
  }

  function DigitChar(d: nat): char
    requires d < 10
  {
    "0123456789"[d]
  }

  function DecimalDigits(n: nat): string
  {
    if n < 10 then [DigitChar(n)] else DecimalDigits(n / 10) + [DigitChar(n % 10)]
  }

  /** `strconv.FormatInt(n, 10)`. */
  function FormatInt(n: int): string
  {
    if n < 0 then "-" + DecimalDigits(-n) else DecimalDigits(n)
  }

  /** `int32(n)`: two's-complement truncation to 32 bits. */
  function Int32(n: int): (r: int)
    ensures -0x8000_0000 <= r < 0x8000_0000
    ensures (r - n) % 0x1_0000_0000 == 0
  {
    (n + 0x8000_0000) % 0x1_0000_0000 - 0x8000_0000
  }

  /** `int64` arithmetic: two's-complement wrap-around to 64 bits. */
  function Int64(n: int): (r: int)
    ensures -0x8000_0000_0000_0000 <= r < 0x8000_0000_0000_0000
    ensures (r - n) % 0x1_0000_0000_0000_0000 == 0
  {
    (n + 0x8000_0000_0000_0000) % 0x1_0000_0000_0000_0000 - 0x8000_0000_0000_0000
  }

  /** Wrapping after every step is wrapping once at the end. */
  lemma Int64Add(x: int, y: int)
    ensures Int64(Int64(x) + y) == Int64(x + y)
  {
    var m := 0x1_0000_0000_0000_0000;
    var h := 0x8000_0000_0000_0000;
    var q := (x + h) / m;
    assert Int64(x) + y + h == (x + y + h) - q * m;
  }

  /** `string(rune(n))`: the rune truncated to 32 bits, and U+FFFD when that is
      not a Unicode scalar value. */
  function RuneString(n: int): (r: string)
    ensures |r| == 1
  {
    var c := Int32(n);
    if 0 <= c < 0xD800 || 0xE000 <= c < 0x11_0000 then [c as char] else "\U{FFFD}"
  }

  function Utf8Rune(c: char): seq<byte>
  {
    var n := c as int;
    if n < 0x80 then [n as byte]
    else if n < 0x800 then [(0xC0 + n / 0x40) as byte, (0x80 + n % 0x40) as byte]
    else if n < 0x1_0000 then
      [(0xE0 + n / 0x1000) as byte, (0x80 + (n / 0x40) % 0x40) as byte, (0x80 + n % 0x40) as byte]
    else
      [(0xF0 + n / 0x4_0000) as byte, (0x80 + (n / 0x1000) % 0x40) as byte,
       (0x80 + (n / 0x40) % 0x40) as byte, (0x80 + n % 0x40) as byte]
  }

  /** `[]byte(s)`: the UTF-8 encoding of a string. */
  function Utf8(s: string): seq<byte>
  {
    if s == [] then [] else Utf8Rune(s[0]) + Utf8(s[1..])
  }

  /** ASCII text encodes to one byte per character, that character's code. */
  lemma {:induction false} Utf8Ascii(s: string)
    requires forall i :: 0 <= i < |s| ==> s[i] as int < 0x80
    ensures |Utf8(s)| == |s|
    ensures forall i :: 0 <= i < |s| ==> Utf8(s)[i] as int == s[i] as int
  {
    if s != [] {
      Utf8Ascii(s[1..]);
      assert forall i :: 1 <= i < |s| ==> s[i] == s[1..][i - 1];
    }
  }
}
