/** The V1 length header: four ASCII hexadecimal digits giving the size of the
    whole packet, written by `to_hex_char` / `packet_header` and read back with
    `usize::from_str_radix(_, 16)`. */
module Hex {
  import opened Wrappers
  import opened Utf8Text

  /** Bytes in a packet's length header. */
  const HEADER_SIZE: nat := 4
  /** Largest packet size four hexadecimal digits can express. */
  const MAX_PACKET_SIZE: nat := 0xFFFF

  const PLUS: Byte := 0x2B

  predicate IsLowerHexDigit(c: Byte) { 0x30 <= c <= 0x39 || 0x61 <= c <= 0x66 }

  /** A digit `char::to_digit(16)` accepts: `0-9`, `a-f` or `A-F`. */
  predicate IsHexDigit(c: Byte) { IsLowerHexDigit(c) || 0x41 <= c <= 0x46 }

  predicate AllHexDigits(s: seq<Byte>) { forall i :: 0 <= i < |s| ==> IsHexDigit(s[i]) }

  /** `char::to_digit(16)` on a hexadecimal digit. */
  function DigitValue(c: Byte): (v: nat)
    requires IsHexDigit(c)
    ensures v < 16
  {
    if c <= 0x39 then c - 0x30 else if c >= 0x61 then c - 0x61 + 10 else c - 0x41 + 10
  }

  /** The lowercase digit for a nibble; `DigitValue` is its inverse. */
  function LowerHexDigit(v: nat): (c: Byte)
    requires v < 16
    ensures IsLowerHexDigit(c) && DigitValue(c) == v
  {
    if v < 10 then 0x30 + v else 0x61 + v - 10
  }

  /** `to_hex_char`: the first character of `format!("{:1x}", value)`. For a
      nibble that is its lowercase digit; for a larger byte, the format has two
      digits and the first, the high nibble, is kept. */
  function ToHexChar(value: Byte): (c: Byte)
    ensures IsLowerHexDigit(c)
    ensures value < 16 ==> DigitValue(c) == value
    ensures value >= 16 ==> DigitValue(c) == value / 16
  {
    LowerHexDigit(if value < 16 then value else value / 16)
  }

  /** `packet_header(size)`: the four nibbles `(size >> 12) & 15`,
      `(size >> 8) & 15`, `(size >> 4) & 15` and `size & 15`, most significant
      first. */
  function Header(size: nat): seq<Byte>
  {
    [ToHexChar((size / 0x1000) % 16), ToHexChar((size / 0x100) % 16),
     ToHexChar((size / 0x10) % 16), ToHexChar(size % 16)]
  }

  /** Value of a string of hexadecimal digits, most significant first. */
  function HexNumber(d: seq<Byte>): (v: nat)
    requires AllHexDigits(d)
    decreases |d|
  {
    if |d| == 0 then 0 else HexNumber(d[..|d| - 1]) * 16 + DigitValue(d[|d| - 1])
  }

  /** A prefix of a digit string is a digit string. */
  lemma DigitsPrefix(d: seq<Byte>, k: nat)
    requires AllHexDigits(d) && k <= |d|
    ensures AllHexDigits(d[..k])
  {
    assert forall i :: 0 <= i < k ==> d[..k][i] == d[i];
  }

  /** `n` hexadecimal digits stay below 16^n; four stay within 0xFFFF. */
  lemma {:induction false} HexNumberBound(d: seq<Byte>, bound: nat)
    requires AllHexDigits(d) && |d| <= 4
    requires bound == if |d| == 0 then 1 else if |d| == 1 then 16 else if |d| == 2 then 0x100 else if |d| == 3 then 0x1000 else 0x10000
    ensures HexNumber(d) < bound
  {
    if |d| > 0 {
      var p := d[..|d| - 1];
      DigitsPrefix(d, |d| - 1);
      HexNumberBound(p, bound / 16);
    }
  }

  /** The value of four digits, spelled out. */
  lemma HexNumberOfFour(a: Byte, b: Byte, c: Byte, d: Byte)
    requires IsHexDigit(a) && IsHexDigit(b) && IsHexDigit(c) && IsHexDigit(d)
    ensures AllHexDigits([a, b, c, d])
    ensures HexNumber([a, b, c, d])
            == ((DigitValue(a) * 16 + DigitValue(b)) * 16 + DigitValue(c)) * 16 + DigitValue(d)
  {
    assert [a][..0] == [];
    assert HexNumber([a]) == DigitValue(a);
    assert [a, b][..1] == [a];
    assert HexNumber([a, b]) == DigitValue(a) * 16 + DigitValue(b);
    assert [a, b, c][..2] == [a, b];
    assert HexNumber([a, b, c]) == (DigitValue(a) * 16 + DigitValue(b)) * 16 + DigitValue(c);
    assert [a, b, c, d][..3] == [a, b, c];
  }

  /** `usize::from_str_radix(s, 16)`: an optional leading `+`, then at least one
      hexadecimal digit of either case. (Only ever applied to four bytes, so
      the value fits a `usize`.) */
  function FromStrRadix16(s: seq<Byte>): (r: Outcome<nat>)
    ensures !r.Panic?
    ensures r.Ok? <==> (|s| > 0 && AllHexDigits(s)) || (|s| > 1 && s[0] == PLUS && AllHexDigits(s[1..]))
    ensures |s| > 0 && AllHexDigits(s) ==> r == Ok(HexNumber(s))
    ensures |s| > 1 && s[0] == PLUS && AllHexDigits(s[1..]) ==> r == Ok(HexNumber(s[1..]))
    ensures r.Err? ==> r.error == ParseIntError
  {
    if |s| == 0 then Err(ParseIntError)
    else
      var digits := if s[0] == PLUS then s[1..] else s;
      assert !IsHexDigit(PLUS);
      if |digits| == 0 || !AllHexDigits(digits) then Err(ParseIntError) else Ok(HexNumber(digits))
  }

  /** Reading a length header: the four bytes must be valid UTF-8 (as
      `str::from_utf8` checks) and then a hexadecimal number. */
  function ParseHeader(h: seq<Byte>): (r: Outcome<nat>)
    requires |h| == HEADER_SIZE
    ensures !r.Panic?
    ensures r.Ok? ==> r.value <= MAX_PACKET_SIZE
    ensures !ValidUtf8(h) ==> r == Err(Utf8Error)
    ensures AllHexDigits(h) ==> r == Ok(HexNumber(h))
    ensures r.Ok? <==> ValidUtf8(h) && (AllHexDigits(h) || (h[0] == PLUS && AllHexDigits(h[1..])))
    ensures ValidUtf8(h) && r.Err? ==> r.error == ParseIntError
    ensures ValidUtf8(h) && h[0] == PLUS && AllHexDigits(h[1..]) ==> r == Ok(HexNumber(h[1..]))
  {
    HexDigitsAreText(h);
    FourDigitsBound(h);
    if !ValidUtf8(h) then Err(Utf8Error) else FromStrRadix16(h)
  }

  lemma HexDigitsAreText(h: seq<Byte>)
    ensures AllHexDigits(h) ==> ValidUtf8(h)
  {
    if AllHexDigits(h) {
      assert IsAscii(h);
      AsciiIsValid(h);
    }
  }

  lemma FourDigitsBound(h: seq<Byte>)
    requires |h| == HEADER_SIZE
    ensures FromStrRadix16(h).Ok? ==> FromStrRadix16(h).value <= MAX_PACKET_SIZE
  {
    if FromStrRadix16(h).Ok? {
      if h[0] == PLUS { HexNumberBound(h[1..], 0x1000); } else { HexNumberBound(h, 0x10000); }
    }
  }

  /** The header's digits are lowercase, and their value is the size modulo
      0x10000. */
  lemma HeaderValue(size: nat)
    ensures AllHexDigits(Header(size))
    ensures forall i :: 0 <= i < HEADER_SIZE ==> IsLowerHexDigit(Header(size)[i])
    ensures HexNumber(Header(size)) == size % 0x10000
  {
    var n0, n1, n2, n3 := (size / 0x1000) % 16, (size / 0x100) % 16, (size / 0x10) % 16, size % 16;
    var c0, c1, c2, c3 := ToHexChar(n0), ToHexChar(n1), ToHexChar(n2), ToHexChar(n3);
    assert Header(size) == [c0, c1, c2, c3];
    assert DigitValue(c0) == n0 && DigitValue(c1) == n1 && DigitValue(c2) == n2 && DigitValue(c3) == n3;
    HexNumberOfFour(c0, c1, c2, c3);
    NibblesRecompose(size);
  }

  /** The header is four lowercase hexadecimal digits, and reading it back gives
      the size modulo 0x10000: exactly the size when it is at most 0xFFFF, and a
      silently wrapped one otherwise. */
  lemma HeaderRoundTrip(size: nat)
    ensures |Header(size)| == HEADER_SIZE
    ensures forall i :: 0 <= i < HEADER_SIZE ==> IsLowerHexDigit(Header(size)[i])
    ensures ParseHeader(Header(size)) == Ok(size % 0x10000)
    ensures ParseHeader(Header(size)) == Ok(size) <==> size <= MAX_PACKET_SIZE
  {
    HeaderValue(size);
  }

  /** The four low nibbles of a number make up its value modulo 0x10000. */
  lemma NibblesRecompose(x: nat)
    ensures (((x / 0x1000) % 16 * 16 + (x / 0x100) % 16) * 16 + (x / 0x10) % 16) * 16 + x % 16
            == x % 0x10000
  {
    var y1 := x / 16;
    var y2 := y1 / 16;
    var y3 := y2 / 16;
    var y4 := y3 / 16;
    assert x / 0x100 == y2;
    assert x / 0x1000 == y3;
    assert x / 0x10000 == y4;
    assert x == 16 * y1 + x % 16;
    assert y1 == 16 * y2 + y1 % 16;
    assert y2 == 16 * y3 + y2 % 16;
    assert y3 == 16 * y4 + y3 % 16;
  }
}
