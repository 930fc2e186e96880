/** Bytes, the target's 32-bit int, and its little-endian image in memory. */
module Bytes {

  type byte = x: int | 0 <= x < 0x100

  type int32 = x: int | -0x8000_0000 <= x < 0x8000_0000

  const INT_MIN: int32 := -0x8000_0000
  const INT_MAX: int32 := 0x7fff_ffff

  function Min(a: int, b: int): int {
    if a < b then a else b
  }

  /** Two's complement wrap-around of an arithmetic result. */
  function Wrap(x: int): (r: int32)
    ensures INT_MIN <= x <= INT_MAX ==> r == x
    ensures (x - r) % 0x1_0000_0000 == 0
  {
    var u := x % 0x1_0000_0000;
    if u < 0x8000_0000 then u else u - 0x1_0000_0000
  }

  /** The low n bytes of a number, least significant first. */
  function LittleEndian(u: nat, n: nat): (s: seq<byte>)
    ensures |s| == n
  {
    if n == 0 then [] else [u % 0x100] + LittleEndian(u / 0x100, n - 1)
  }

  /** The number that bytes stand for, least significant first. */
  function Unsigned(s: seq<byte>): nat {
    if s == [] then 0 else s[0] as int + 0x100 * Unsigned(s[1..])
  }

  /** 256 to the power n. */
  function Power(n: nat): (p: nat)
    ensures p > 0
  {
    if n == 0 then 1 else 0x100 * Power(n - 1)
  }

  lemma {:induction false} UnsignedLittleEndian(u: nat, n: nat)
    requires u < Power(n)
    ensures Unsigned(LittleEndian(u, n)) == u
  {
    if n > 0 {
      UnsignedLittleEndian(u / 0x100, n - 1);
      assert LittleEndian(u, n)[1..] == LittleEndian(u / 0x100, n - 1);
    }
  }

  lemma {:induction false} LittleEndianUnsigned(s: seq<byte>)
    ensures Unsigned(s) < Power(|s|)
    ensures LittleEndian(Unsigned(s), |s|) == s
  {
    if s != [] {
      LittleEndianUnsigned(s[1..]);
      assert s == [s[0]] + s[1..];
      assert Unsigned(s) % 0x100 == s[0] && Unsigned(s) / 0x100 == Unsigned(s[1..]);
    }
  }

  /** The least significant byte comes first. */
  lemma {:induction false} ByteOf(u: nat, n: nat, i: nat)
    requires i < n
    ensures LittleEndian(u, n)[i] == u / Power(i) % 0x100
    decreases n
  {
    if i > 0 {
      ByteOf(u / 0x100, n - 1, i - 1);
      DivTwice(u, Power(i - 1));
    } else {
      assert u / 1 == u;
    }
  }

  lemma DivTwice(u: nat, p: nat)
    requires p > 0
    ensures u / 0x100 / p == u / (0x100 * p)
  {
    var q, r := u / 0x100, u % 0x100;
    var d, e := q / p, q % p;
    assert u == 0x100 * (d * p + e) + r;
    assert u == d * (0x100 * p) + (0x100 * e + r);
    assert 0x100 * e + r < 0x100 * p;
    Quotient(u, 0x100 * p, d, 0x100 * e + r);
  }

  lemma Quotient(u: nat, m: nat, d: nat, r: nat)
    requires r < m && u == d * m + r
    ensures u / m == d
  {
    assert (u / m - d) * m == r - u % m;
    SmallMultiple(u / m - d, m);
  }

  /** The only multiple of size strictly between -size and size is 0. */
  lemma SmallMultiple(d: int, size: int)
    requires size > 0 && -size < d * size < size
    ensures d == 0
  {
  }

  /** The four bytes memcpy takes from an int, least significant first. */
  function EncodeInt(v: int32): (s: seq<byte>)
    ensures |s| == 4
  {
    LittleEndian(if v < 0 then v + 0x1_0000_0000 else v, 4)
  }

  function DecodeInt(s: seq<byte>): (v: int32)
    requires |s| == 4
  {
    Wrap(Unsigned(s))
  }

  lemma DecodeEncode(v: int32)
    ensures DecodeInt(EncodeInt(v)) == v
  {
    assert Power(4) == 0x1_0000_0000;
    UnsignedLittleEndian(if v < 0 then v + 0x1_0000_0000 else v, 4);
  }

  lemma EncodeDecode(s: seq<byte>)
    requires |s| == 4
    ensures EncodeInt(DecodeInt(s)) == s
  {
    assert Power(4) == 0x1_0000_0000;
    LittleEndianUnsigned(s);
  }

  /** The int stored at an offset of a buffer. */
  function ReadInt(buf: seq<byte>, offset: nat): (v: int32)
    requires offset + 4 <= |buf|
  {
    DecodeInt(buf[offset..offset + 4])
  }
}
