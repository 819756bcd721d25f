/** The two pieces of Rust's text handling the V1 decoder relies on: the UTF-8
    check done by `String::from_utf8` / `str::from_utf8`, and `str::trim`. Text
    is kept as its UTF-8 bytes, as a Rust `String` is. */
module Utf8Text {
  import opened Wrappers

  const NEWLINE: Byte := 0x0A

  predicate IsContinuation(b: Byte) { 0x80 <= b <= 0xBF }

  /** Length of the well-formed UTF-8 sequence that starts `s` (one of the rows
      of Table 3-7 of the Unicode Standard), or 0 when `s` does not start with
      one. Overlong forms, surrogates and code points above U+10FFFF are not
      well formed. */
  function CharLength(s: seq<Byte>): (n: nat)
    ensures n <= |s| && n <= 4
  {
    if |s| == 0 then 0
    else if s[0] <= 0x7F then 1
    else if 0xC2 <= s[0] <= 0xDF then
      if |s| >= 2 && IsContinuation(s[1]) then 2 else 0
    else if s[0] == 0xE0 then
      if |s| >= 3 && 0xA0 <= s[1] <= 0xBF && IsContinuation(s[2]) then 3 else 0
    else if 0xE1 <= s[0] <= 0xEC || 0xEE <= s[0] <= 0xEF then
      if |s| >= 3 && IsContinuation(s[1]) && IsContinuation(s[2]) then 3 else 0
    else if s[0] == 0xED then
      if |s| >= 3 && 0x80 <= s[1] <= 0x9F && IsContinuation(s[2]) then 3 else 0
    else if s[0] == 0xF0 then
      if |s| >= 4 && 0x90 <= s[1] <= 0xBF && IsContinuation(s[2]) && IsContinuation(s[3]) then 4 else 0
    else if 0xF1 <= s[0] <= 0xF3 then
      if |s| >= 4 && IsContinuation(s[1]) && IsContinuation(s[2]) && IsContinuation(s[3]) then 4 else 0
    else if s[0] == 0xF4 then
      if |s| >= 4 && 0x80 <= s[1] <= 0x8F && IsContinuation(s[2]) && IsContinuation(s[3]) then 4 else 0
    else 0
  }

  /** A character is recognised from its own bytes only. */
  lemma CharLengthOfPrefix(s: seq<Byte>, t: seq<Byte>)
    requires CharLength(s) > 0
    ensures CharLength(s + t) == CharLength(s)
  {
    var u := s + t;
    assert u[0] == s[0];
    if |s| >= 2 { assert u[1] == s[1]; }
    if |s| >= 3 { assert u[2] == s[2]; }
    if |s| >= 4 { assert u[3] == s[3]; }
  }

  /** `s` is a sequence of well-formed UTF-8 characters: what `String::from_utf8`
      and `str::from_utf8` accept. */
  predicate ValidUtf8(s: seq<Byte>)
    decreases |s|
  {
    |s| == 0 || (CharLength(s) > 0 && ValidUtf8(s[CharLength(s)..]))
  }

  predicate IsAscii(s: seq<Byte>) { forall i :: 0 <= i < |s| ==> s[i] < 0x80 }

  /** Every ASCII byte sequence is valid UTF-8 (so are the six V1 tags and every
      length header the serializer writes). */
  lemma {:induction false} AsciiIsValid(s: seq<Byte>)
    requires IsAscii(s)
    ensures ValidUtf8(s)
  {
    if |s| > 0 {
      assert CharLength(s) == 1;
      assert IsAscii(s[1..]) by {
        forall i | 0 <= i < |s[1..]| ensures s[1..][i] < 0x80 { assert s[1..][i] == s[i + 1]; }
      }
      AsciiIsValid(s[1..]);
    }
  }

  lemma DropOfConcat(a: seq<Byte>, b: seq<Byte>, n: nat)
    requires n <= |a|
    ensures (a + b)[n..] == a[n..] + b
  {
  }

  /** The concatenation of two texts is a text. */
  lemma {:induction false} ConcatIsValid(a: seq<Byte>, b: seq<Byte>)
    requires ValidUtf8(a) && ValidUtf8(b)
    ensures ValidUtf8(a + b)
  {
    if |a| > 0 {
      var n := CharLength(a);
      assert n > 0 && ValidUtf8(a[n..]);
      CharLengthOfPrefix(a, b);
      DropOfConcat(a, b, n);
      ConcatIsValid(a[n..], b);
    } else {
      assert a + b == b;
    }
  }

  // ---------------------------------------------------------------------------
  // `str::trim`: strip the characters with the Unicode White_Space property
  // (U+0009..U+000D, U+0020, U+0085, U+00A0, U+1680, U+2000..U+200A, U+2028,
  // U+2029, U+202F, U+205F, U+3000) from both ends. On valid UTF-8 each of them
  // is recognised by its encoding: a lead byte never occurs inside another
  // character, so an encoding found at either end is a whole character there.
  // ---------------------------------------------------------------------------

  predicate IsAsciiSpace(b: Byte) { 0x09 <= b <= 0x0D || b == 0x20 }

  /** U+0085 and U+00A0. */
  predicate IsTwoByteSpace(b0: Byte, b1: Byte) { b0 == 0xC2 && (b1 == 0x85 || b1 == 0xA0) }

  /** U+1680, U+2000..U+200A, U+2028, U+2029, U+202F, U+205F and U+3000. */
  predicate IsThreeByteSpace(b0: Byte, b1: Byte, b2: Byte)
  {
    (b0 == 0xE1 && b1 == 0x9A && b2 == 0x80)
    || (b0 == 0xE2 && b1 == 0x80 && (0x80 <= b2 <= 0x8A || b2 == 0xA8 || b2 == 0xA9 || b2 == 0xAF))
    || (b0 == 0xE2 && b1 == 0x81 && b2 == 0x9F)
    || (b0 == 0xE3 && b1 == 0x80 && b2 == 0x80)
  }

  /** Byte length of the white-space character that starts `s`, or 0. */
  function LeadingSpaceLength(s: seq<Byte>): (n: nat)
    ensures n <= |s| && n <= 3
  {
    if |s| >= 1 && IsAsciiSpace(s[0]) then 1
    else if |s| >= 2 && IsTwoByteSpace(s[0], s[1]) then 2
    else if |s| >= 3 && IsThreeByteSpace(s[0], s[1], s[2]) then 3
    else 0
  }

  /** Byte length of the white-space character that ends `s`, or 0. */
  function TrailingSpaceLength(s: seq<Byte>): (n: nat)
    ensures n <= |s| && n <= 3
  {
    var k := |s|;
    if k >= 1 && IsAsciiSpace(s[k - 1]) then 1
    else if k >= 2 && IsTwoByteSpace(s[k - 2], s[k - 1]) then 2
    else if k >= 3 && IsThreeByteSpace(s[k - 3], s[k - 2], s[k - 1]) then 3
    else 0
  }

  predicate NoOuterSpace(s: seq<Byte>)
  {
    LeadingSpaceLength(s) == 0 && TrailingSpaceLength(s) == 0
  }

  /** How many bytes of white space `str::trim_start` removes from `s`. */
  function LeadingSpaceBytes(s: seq<Byte>): (k: nat)
    ensures k <= |s|
    decreases |s|
  {
    var n := LeadingSpaceLength(s);
    if n == 0 then 0 else n + LeadingSpaceBytes(s[n..])
  }

  /** How many bytes of white space `str::trim_end` removes from `s`. */
  function TrailingSpaceBytes(s: seq<Byte>): (k: nat)
    ensures k <= |s|
    decreases |s|
  {
    var n := TrailingSpaceLength(s);
    if n == 0 then 0 else n + TrailingSpaceBytes(s[..|s| - n])
  }

  /** After the leading white space, the rest does not start with white space. */
  lemma {:induction false} LeadingSpaceBytesStop(s: seq<Byte>)
    ensures LeadingSpaceLength(s[LeadingSpaceBytes(s)..]) == 0
    decreases |s|
  {
    var n := LeadingSpaceLength(s);
    if n != 0 {
      LeadingSpaceBytesStop(s[n..]);
      assert s[n..][LeadingSpaceBytes(s[n..])..] == s[LeadingSpaceBytes(s)..];
    }
  }

  /** Before the trailing white space, the rest does not end with white space. */
  lemma {:induction false} TrailingSpaceBytesStop(s: seq<Byte>)
    ensures TrailingSpaceLength(s[..|s| - TrailingSpaceBytes(s)]) == 0
    decreases |s|
  {
    var n := TrailingSpaceLength(s);
    if n != 0 {
      var t := s[..|s| - n];
      TrailingSpaceBytesStop(t);
      assert t[..|t| - TrailingSpaceBytes(t)] == s[..|s| - TrailingSpaceBytes(s)];
    }
  }

  /** `str::trim_start`. */
  function TrimStart(s: seq<Byte>): seq<Byte>
  {
    s[LeadingSpaceBytes(s)..]
  }

  /** `str::trim_end`. */
  function TrimEnd(s: seq<Byte>): seq<Byte>
  {
    s[..|s| - TrailingSpaceBytes(s)]
  }

  /** `p` is made of white-space characters only, read from the front. */
  predicate AllLeadingSpace(p: seq<Byte>)
    decreases |p|
  {
    p == [] || (LeadingSpaceLength(p) > 0 && AllLeadingSpace(p[LeadingSpaceLength(p)..]))
  }

  /** `p` is made of white-space characters only, read from the back. */
  predicate AllTrailingSpace(p: seq<Byte>)
    decreases |p|
  {
    p == [] || (TrailingSpaceLength(p) > 0 && AllTrailingSpace(p[..|p| - TrailingSpaceLength(p)]))
  }

  /** The white-space character at the front of `s` is recognised in any
      prefix of `s` long enough to hold it. */
  lemma LeadingSpaceLengthOfPrefix(s: seq<Byte>, k: nat)
    requires LeadingSpaceLength(s) <= k <= |s|
    ensures LeadingSpaceLength(s[..k]) == LeadingSpaceLength(s)
  {
    var p := s[..k];
    if |p| >= 1 { assert p[0] == s[0]; }
    if |p| >= 2 { assert p[1] == s[1]; }
    if |p| >= 3 { assert p[2] == s[2]; }
  }

  /** The white-space character at the back of `s` is recognised in any
      suffix of `s` long enough to hold it. */
  lemma TrailingSpaceLengthOfSuffix(s: seq<Byte>, k: nat)
    requires TrailingSpaceLength(s) <= k <= |s|
    ensures TrailingSpaceLength(s[|s| - k..]) == TrailingSpaceLength(s)
  {
    var t := s[|s| - k..];
    if |t| >= 1 { assert t[|t| - 1] == s[|s| - 1]; }
    if |t| >= 2 { assert t[|t| - 2] == s[|s| - 2]; }
    if |t| >= 3 { assert t[|t| - 3] == s[|s| - 3]; }
  }

  /** What `trim_start` removes is white space and nothing else. */
  lemma {:induction false} LeadingSpaceBytesAreSpace(s: seq<Byte>)
    ensures AllLeadingSpace(s[..LeadingSpaceBytes(s)])
    decreases |s|
  {
    var n := LeadingSpaceLength(s);
    if n == 0 {
      assert s[..0] == [];
    } else {
      var k := LeadingSpaceBytes(s);
      var p := s[..k];
      LeadingSpaceLengthOfPrefix(s, k);
      LeadingSpaceBytesAreSpace(s[n..]);
      assert p[n..] == s[n..][..LeadingSpaceBytes(s[n..])];
    }
  }

  /** What `trim_end` removes is white space and nothing else. */
  lemma {:induction false} TrailingSpaceBytesAreSpace(s: seq<Byte>)
    ensures AllTrailingSpace(s[|s| - TrailingSpaceBytes(s)..])
    decreases |s|
  {
    var n := TrailingSpaceLength(s);
    if n == 0 {
      assert s[|s|..] == [];
    } else {
      var k := TrailingSpaceBytes(s);
      var t := s[|s| - k..];
      var u := s[..|s| - n];
      TrailingSpaceLengthOfSuffix(s, k);
      TrailingSpaceBytesAreSpace(u);
      assert t[..|t| - n] == u[|u| - TrailingSpaceBytes(u)..];
    }
  }

  /** `str::trim`: white space removed from both ends. */
  function Trim(s: seq<Byte>): seq<Byte>
  {
    TrimEnd(TrimStart(s))
  }

  /** What `trim` returns is a piece of its input with white space at neither
      end. */
  lemma TrimIsInfix(s: seq<Byte>)
    ensures var r := Trim(s);
            |r| <= |s| && r == s[LeadingSpaceBytes(s)..][..|r|] && NoOuterSpace(r)
  {
    var t := TrimStart(s);
    LeadingSpaceBytesStop(s);
    TrailingSpaceBytesStop(t);
    LeadingSpaceLengthOfPrefix(t, |Trim(s)|);
  }

  /** The input of `trim` is what it cut at the front, its result, and what it
      cut at the back. */
  lemma TrimSplitsInput(s: seq<Byte>)
    ensures s == s[..LeadingSpaceBytes(s)] + Trim(s) + TrimStart(s)[|Trim(s)|..]
  {
    var k := LeadingSpaceBytes(s);
    var t := s[k..];
    var r := t[..|t| - TrailingSpaceBytes(t)];
    assert TrimStart(s) == t && Trim(s) == r;
    assert r + t[|r|..] == t;
    assert s[..k] + r + t[|r|..] == s[..k] + (r + t[|r|..]);
    assert s[..k] + t == s;
  }

  /** `trim` cuts white space, and only white space, from the two ends. */
  lemma TrimCutsOnlySpace(s: seq<Byte>)
    ensures AllLeadingSpace(s[..LeadingSpaceBytes(s)])
    ensures AllTrailingSpace(TrimStart(s)[|Trim(s)|..])
  {
    var k := LeadingSpaceBytes(s);
    var t := s[k..];
    var r := t[..|t| - TrailingSpaceBytes(t)];
    assert TrimStart(s) == t && Trim(s) == r;
    LeadingSpaceBytesAreSpace(s);
    TrailingSpaceBytesAreSpace(t);
  }

  /** Trimming text that has no outer white space, with the packet's trailing
      newline still attached, gives that text back. */
  lemma TrimDropsNewline(s: seq<Byte>)
    requires NoOuterSpace(s)
    ensures Trim(s + [NEWLINE]) == s
  {
    var t := s + [NEWLINE];
    if |s| == 0 {
      assert LeadingSpaceLength(t) == 1;
      assert t[1..] == [];
      assert LeadingSpaceBytes(t) == 1;
    } else {
      assert t[0] == s[0];
      if |s| >= 2 { assert t[1] == s[1]; }
      assert LeadingSpaceLength(t) == 0;
      assert TrimStart(t) == t;
      assert TrailingSpaceLength(t) == 1;
      assert t[..|t| - 1] == s;
      assert TrailingSpaceBytes(s) == 0;
      assert TrailingSpaceBytes(t) == 1;
    }
  }

  /** Trimming is idempotent. */
  lemma TrimIdempotent(s: seq<Byte>)
    ensures Trim(Trim(s)) == Trim(s)
  {
    var r := Trim(s);
    TrimIsInfix(s);
    assert LeadingSpaceBytes(r) == 0;
    assert TrimStart(r) == r;
    assert TrailingSpaceBytes(r) == 0;
  }
}
