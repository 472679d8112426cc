/** Little-endian bytes, their bits, and machine integer arithmetic. */
module Bytes {

  type Byte = x: int | 0 <= x < 256

  const I32_MIN := -0x8000_0000
  const I32_MAX := 0x7FFF_FFFF
  const U16_MAX: nat := 0xFFFF
  const U64_MAX: nat := 0xFFFF_FFFF_FFFF_FFFF

  predicate FitsI32(x: int) {
    I32_MIN <= x <= I32_MAX
  }

  /** Division that truncates toward zero. */
  function TruncDiv(a: int, b: int): int
    requires b > 0
  {
    if a >= 0 then a / b else -((-a) / b)
  }

  /** The remainder of truncating division, which has the sign of the dividend. */
  function TruncMod(a: int, b: int): int
    requires b > 0
  {
    if a >= 0 then a % b else -((-a) % b)
  }

  function Abs(x: int): nat {
    if x < 0 then -x else x
  }

  function Pow2(n: nat): (r: nat)
    ensures r > 0
  {
    if n == 0 then 1 else 2 * Pow2(n - 1)
  }

  function Pow256(n: nat): (r: nat)
    ensures r > 0
  {
    if n == 0 then 1 else 256 * Pow256(n - 1)
  }

  function FromLe(bytes: seq<Byte>): nat {
    if bytes == [] then 0 else bytes[0] + 256 * FromLe(bytes[1..])
  }

  /** The lowest bytes of a number; higher ones are cut off. */
  function ToLe(n: nat, width: nat): (r: seq<Byte>)
    ensures |r| == width
  {
    if width == 0 then [] else [n % 256] + ToLe(n / 256, width - 1)
  }

  lemma {:induction false} FromLeBound(bytes: seq<Byte>)
    ensures FromLe(bytes) < Pow256(|bytes|)
  {
    if bytes != [] { FromLeBound(bytes[1..]); }
  }

  lemma {:induction false} DecodeEncode(n: nat, width: nat)
    requires n < Pow256(width)
    ensures FromLe(ToLe(n, width)) == n
  {
    if width != 0 {
      DecodeEncode(n / 256, width - 1);
      assert ToLe(n, width)[1..] == ToLe(n / 256, width - 1);
    }
  }

  lemma {:induction false} EncodeDecode(bytes: seq<Byte>)
    ensures ToLe(FromLe(bytes), |bytes|) == bytes
  {
    if bytes != [] {
      EncodeDecode(bytes[1..]);
      assert FromLe(bytes) % 256 == bytes[0] && FromLe(bytes) / 256 == FromLe(bytes[1..]);
      assert bytes == [bytes[0]] + bytes[1..];
    }
  }

  /** The lowest byte comes first. */
  lemma {:induction false} ByteOfLe(n: nat, width: nat, i: nat)
    requires i < width
    ensures ToLe(n, width)[i] == n / Pow256(i) % 256
  {
    if i > 0 {
      ByteOfLe(n / 256, width - 1, i - 1);
      DivideTwice(n / 256, n % 256, Pow256(i - 1));
      assert n == n % 256 + 256 * (n / 256);
      assert Pow256(i) == 256 * Pow256(i - 1);
    }
  }

  lemma Powers()
    ensures Pow256(1) == 0x100 && Pow256(2) == 0x1_0000 && Pow256(8) == 0x1_0000_0000_0000_0000
  {
    assert Pow256(2) == 256 * Pow256(1);
    assert Pow256(4) == 256 * Pow256(3) && Pow256(3) == 256 * Pow256(2);
    assert Pow256(6) == 256 * Pow256(5) && Pow256(5) == 256 * Pow256(4);
    assert Pow256(8) == 256 * Pow256(7) && Pow256(7) == 256 * Pow256(6);
  }

  // ---------- bits ----------

  predicate BitSet(word: nat, bit: nat) {
    (word / Pow2(bit)) % 2 == 1
  }

  lemma DivideTwice(r: nat, low: nat, p: nat)
    requires low < 256 && p > 0
    ensures (low + 256 * r) / (256 * p) == r / p
  {
    var q, m := r / p, r % p;
    assert r == q * p + m;
    assert low + 256 * r == q * (256 * p) + (low + 256 * m);
    assert low + 256 * m < 256 * p;
    QuotientIs(low + 256 * r, 256 * p, q, low + 256 * m);
  }

  lemma QuotientIs(n: nat, d: nat, q: nat, m: nat)
    requires d > 0 && n == q * d + m && m < d
    ensures n / d == q && n % d == m
  {
    var q', m' := n / d, n % d;
    assert n == q' * d + m';
    if q' > q {
      MultiplesApart(q, q', d);
    } else if q' < q {
      MultiplesApart(q', q, d);
    }
  }

  lemma MultiplesApart(a: nat, b: nat, d: nat)
    requires a < b && d > 0
    ensures b * d >= a * d + d
  {
    MulOrder(a + 1, b, d);
    assert (a + 1) * d == a * d + d;
  }

  lemma MulOrder(a: nat, b: nat, c: nat)
    requires a <= b
    ensures a * c <= b * c
  {}

  lemma Pow2Plus8(n: nat)
    ensures Pow2(n + 8) == 256 * Pow2(n)
  {
    assert Pow2(n + 2) == 2 * Pow2(n + 1);
    assert Pow2(n + 4) == 2 * Pow2(n + 3) && Pow2(n + 3) == 2 * Pow2(n + 2);
    assert Pow2(n + 6) == 2 * Pow2(n + 5) && Pow2(n + 5) == 2 * Pow2(n + 4);
    assert Pow2(n + 8) == 2 * Pow2(n + 7) && Pow2(n + 7) == 2 * Pow2(n + 6);
  }

  lemma ShiftOut(low: nat, k: nat, p: nat)
    requires p > 0
    ensures (low + (2 * k) * p) / p % 2 == low / p % 2
  {
    var q, m := low / p, low % p;
    assert low == q * p + m;
    assert low + (2 * k) * p == (q + 2 * k) * p + m;
    QuotientIs(low + (2 * k) * p, p, q + 2 * k, m);
  }

  lemma HighPart(p: nat, f: nat, r: nat)
    requires p * (2 * f) == 256
    ensures 256 * r == (2 * (f * r)) * p
  {
    assert (2 * (f * r)) * p == (p * (2 * f)) * r;
  }

  lemma LowBit(low: nat, r: nat, bit: nat)
    requires low < 256 && bit < 8
    ensures BitSet(low + 256 * r, bit) <==> BitSet(low, bit)
  {
    var p, f := Pow2(bit), Pow2(7 - bit);
    PowersBelow8(bit);
    HighPart(p, f, r);
    ShiftOut(low, f * r, p);
  }

  lemma PowersBelow8(bit: nat)
    requires bit < 8
    ensures Pow2(bit) * (2 * Pow2(7 - bit)) == 256
  {
    assert Pow2(0) == 1 && Pow2(1) == 2 && Pow2(2) == 4;
    assert Pow2(3) == 8 && Pow2(4) == 2 * Pow2(3) && Pow2(5) == 2 * Pow2(4);
    assert Pow2(6) == 2 * Pow2(5) && Pow2(7) == 2 * Pow2(6);
    if bit == 0 {} else if bit == 1 {} else if bit == 2 {} else if bit == 3 {}
    else if bit == 4 {} else if bit == 5 {} else if bit == 6 {} else { assert bit == 7; }
  }

  lemma HighBit(low: nat, r: nat, bit: nat)
    requires low < 256
    ensures BitSet(low + 256 * r, bit + 8) <==> BitSet(r, bit)
  {
    Pow2Plus8(bit);
    DivideTwice(r, low, Pow2(bit));
  }

  /** A bit of a little-endian word is a bit of one of its bytes. */
  lemma {:induction false} WordBitIsByteBit(bytes: seq<Byte>, bit: nat)
    requires bit < 8 * |bytes|
    ensures BitSet(FromLe(bytes), bit) <==> BitSet(bytes[bit / 8], bit % 8)
  {
    hide BitSet;
    var r := FromLe(bytes[1..]);
    if bit < 8 {
      LowBit(bytes[0], r, bit);
    } else {
      WordBitIsByteBit(bytes[1..], bit - 8);
      HighBit(bytes[0], r, bit - 8);
      assert bytes[1..][(bit - 8) / 8] == bytes[bit / 8];
    }
  }
}
