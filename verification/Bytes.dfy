/** Bytes, fixed-width little-endian integers and UTF-8. */
module Bytes {

  type u8 = x: int | 0 <= x < 256

  function WrappingAdd(a: u8, b: u8): u8 { (a as int + b as int) % 256 }

  function WrappingSub(a: u8, b: u8): u8 { (a as int - b as int) % 256 }

  lemma AddSub(a: u8, b: u8)
    ensures WrappingAdd(WrappingSub(a, b), b) == a
  {
  }

  function Pow256(k: nat): (p: nat)
    ensures p >= 1
  {
    if k == 0 then 1 else 256 * Pow256(k - 1)
  }

  /** The little-endian integer in the `width` bytes at offset `i`. */
  function FromLE(b: seq<u8>, i: nat, width: nat): (n: nat)
    requires i + width <= |b|
    ensures n < Pow256(width)
    decreases |b| - i, width
  {
    if width == 0 then 0 else b[i] as int + 256 * FromLE(b, i + 1, width - 1)
  }

  function ToLE(n: nat, width: nat): (b: seq<u8>)
    ensures |b| == width
  {
    if width == 0 then [] else [n % 256] + ToLE(n / 256, width - 1)
  }

  lemma {:induction false} FromToLE(prefix: seq<u8>, n: nat, width: nat, suffix: seq<u8>)
    requires n < Pow256(width)
    ensures FromLE(prefix + ToLE(n, width) + suffix, |prefix|, width) == n
    decreases width
  {
    if width > 0 {
      FromToLE(prefix + [n % 256], n / 256, width - 1, suffix);
      assert prefix + ToLE(n, width) + suffix == (prefix + [n % 256]) + ToLE(n / 256, width - 1) + suffix;
    }
  }

  lemma Pow256Of8()
    ensures Pow256(8) == 0x1_0000_0000_0000_0000
  {
    assert Pow256(2) == 0x1_0000;
    assert Pow256(4) == 0x1_0000_0000;
    assert Pow256(6) == 0x1_0000_0000_0000;
  }

  /** The little-endian 64-bit integer at offset `i`. */
  function U64At(b: seq<u8>, i: nat): (n: nat)
    requires i + 8 <= |b|
    ensures n < 0x1_0000_0000_0000_0000
  {
    Pow256Of8();
    FromLE(b, i, 8)
  }

  lemma U64RoundTrip(prefix: seq<u8>, n: nat, suffix: seq<u8>)
    requires n < 0x1_0000_0000_0000_0000
    ensures U64At(prefix + ToLE(n, 8) + suffix, |prefix|) == n
  {
    Pow256Of8();
    FromToLE(prefix, n, 8, suffix);
  }

  lemma {:induction false} FromLELocal(a: seq<u8>, i: nat, b: seq<u8>, j: nat, width: nat)
    requires i + width <= |a| && j + width <= |b|
    requires a[i..i + width] == b[j..j + width]
    ensures FromLE(a, i, width) == FromLE(b, j, width)
    decreases width
  {
    if width > 0 {
      assert a[i] == a[i..i + width][0] == b[j..j + width][0] == b[j];
      assert a[i + 1..i + width] == a[i..i + width][1..] == b[j..j + width][1..] == b[j + 1..j + width];
      FromLELocal(a, i + 1, b, j + 1, width - 1);
    }
  }

  /* UTF-8 */

  function EncodeChar(c: char): (b: seq<u8>)
    ensures 1 <= |b| <= 4
  {
    var n := c as int;
    if n < 0x80 then [n]
    else if n < 0x800 then [0xC0 + n / 64, 0x80 + n % 64]
    else if n < 0x1_0000 then [0xE0 + n / 64 / 64, 0x80 + n / 64 % 64, 0x80 + n % 64]
    else [0xF0 + n / 64 / 64 / 64, 0x80 + n / 64 / 64 % 64, 0x80 + n / 64 % 64, 0x80 + n % 64]
  }

  function Utf8(s: string): seq<u8> {
    if s == "" then [] else EncodeChar(s[0]) + Utf8(s[1..])
  }

  /** The first byte tells how many bytes a character has. */
  lemma HeadGivesLength(c: char, d: char)
    requires EncodeChar(c)[0] == EncodeChar(d)[0]
    ensures |EncodeChar(c)| == |EncodeChar(d)|
  {
  }

  function Follow(n: int, b: u8): int {
    64 * n + (b as int - 0x80)
  }

  function DecodeChar(b: seq<u8>): int
    requires 1 <= |b| <= 4
  {
    if |b| == 1 then b[0]
    else if |b| == 2 then Follow(b[0] as int - 0xC0, b[1])
    else if |b| == 3 then Follow(Follow(b[0] as int - 0xE0, b[1]), b[2])
    else Follow(Follow(Follow(b[0] as int - 0xF0, b[1]), b[2]), b[3])
  }

  lemma DecodeEncoded(c: char)
    ensures DecodeChar(EncodeChar(c)) == c as int
  {
  }

  lemma CharInjective(c: char, d: char)
    requires EncodeChar(c) == EncodeChar(d)
    ensures c == d
  {
    DecodeEncoded(c);
    DecodeEncoded(d);
  }

  lemma {:induction false} Utf8Injective(s: string, t: string)
    requires Utf8(s) == Utf8(t)
    ensures s == t
    decreases |s|
  {
    if s != "" && t != "" {
      var a, b := EncodeChar(s[0]), EncodeChar(t[0]);
      assert Utf8(s)[0] == a[0] && Utf8(t)[0] == b[0];
      HeadGivesLength(s[0], t[0]);
      assert Utf8(s)[..|a|] == a && Utf8(t)[..|b|] == b;
      CharInjective(s[0], t[0]);
      assert Utf8(s)[|a|..] == Utf8(s[1..]) && Utf8(t)[|b|..] == Utf8(t[1..]);
      Utf8Injective(s[1..], t[1..]);
    }
  }

  /** ASCII text is encoded character by character. */
  lemma {:induction false} AsciiUtf8(s: string)
    requires forall i | 0 <= i < |s| :: s[i] < '\U{0080}'
    ensures |Utf8(s)| == |s| && forall i | 0 <= i < |s| :: Utf8(s)[i] == s[i] as int
    decreases |s|
  {
    if s != "" {
      AsciiUtf8(s[1..]);
    }
  }

  /** The first byte is the least significant. */
  lemma LowByteFirst(b: seq<u8>, i: nat)
    requires i + 8 <= |b| && forall j | i + 2 <= j < i + 8 :: b[j] == 0
    ensures U64At(b, i) == b[i] as int + 256 * b[i + 1] as int
  {
    assert FromLE(b, i + 8, 0) == 0;
    assert FromLE(b, i + 7, 1) == 0;
    assert FromLE(b, i + 6, 2) == 0;
    assert FromLE(b, i + 5, 3) == 0;
    assert FromLE(b, i + 4, 4) == 0;
    assert FromLE(b, i + 3, 5) == 0;
    assert FromLE(b, i + 2, 6) == 0;
    assert FromLE(b, i + 1, 7) == b[i + 1] as int;
  }
}
