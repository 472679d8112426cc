/**
  Price arithmetic inside one liquidity range, over the reals.

  The two swap directions are mirror images: measured by the coordinate `1/s` for base input and by
  `s` for quote input, the pool always moves upward, input is liquidity times the coordinate gained,
  and output is liquidity times the inverse coordinate lost.
 */
module ClmmMath {

  lemma ProductPositive(a: real, b: real)
    requires a > 0.0 && b > 0.0
    ensures a * b > 0.0
  {}

  lemma ProductNonNegative(a: real, b: real)
    requires a >= 0.0 && b >= 0.0
    ensures a * b >= 0.0
  {}

  lemma QuotientPositive(a: real, b: real)
    requires a > 0.0 && b > 0.0
    ensures a / b > 0.0
  {}

  lemma SignOfProduct(m: real, d: real)
    requires m > 0.0
    ensures m * d > 0.0 <==> d > 0.0
    ensures m * d < 0.0 <==> d < 0.0
  {}

  /** Net input absorbed between price `s` and the boundary price `b`. */
  function MaxInBeforeBoundary(baseIn: bool, liquidity: real, s: real, b: real): real
    requires s > 0.0 && b > 0.0
  {
    ProductPositive(s, b);
    if baseIn then liquidity * (s - b) / (s * b) else liquidity * (b - s)
  }

  /** Price after a net input that stays inside the range. */
  function PriceAfter(baseIn: bool, liquidity: real, s: real, input: real): (next: real)
    requires liquidity > 0.0 && s > 0.0 && input >= 0.0
    ensures next > 0.0
  {
    ProductPositive(liquidity, s);
    ProductNonNegative(input, s);
    if baseIn then
      QuotientPositive(liquidity * s, liquidity + input * s);
      (liquidity * s) / (liquidity + input * s)
    else
      s + input / liquidity
  }

  /** Output paid while the price moves from `s` to `e`. */
  function OutBetween(baseIn: bool, liquidity: real, s: real, e: real): real
    requires s > 0.0 && e > 0.0
  {
    if baseIn then liquidity * (s - e) else liquidity * (1.0 / s - 1.0 / e)
  }

  function Coord(baseIn: bool, s: real): (x: real)
    requires s > 0.0
    ensures x > 0.0
  {
    if baseIn then 1.0 / s else s
  }

  /** Input absorbed while the coordinate rises from `x` to `y`. */
  function Gain(liquidity: real, x: real, y: real): real {
    liquidity * (y - x)
  }

  /** Output paid while the coordinate rises from `x` to `y`. */
  function Paid(liquidity: real, x: real, y: real): real
    requires x > 0.0 && y > 0.0
  {
    liquidity * (1.0 / x - 1.0 / y)
  }

  /** Coordinate reached from `x` by a net input. */
  function Reach(liquidity: real, x: real, input: real): real
    requires liquidity > 0.0
  {
    x + input / liquidity
  }

  lemma GainAdds(liquidity: real, x: real, y: real, z: real)
    ensures Gain(liquidity, x, y) + Gain(liquidity, y, z) == Gain(liquidity, x, z)
  {}

  lemma PaidAdds(liquidity: real, x: real, y: real, z: real)
    requires x > 0.0 && y > 0.0 && z > 0.0
    ensures Paid(liquidity, x, y) + Paid(liquidity, y, z) == Paid(liquidity, x, z)
  {
    var u, v, w := 1.0 / x, 1.0 / y, 1.0 / z;
    assert liquidity * (u - v) + liquidity * (v - w) == liquidity * (u - w);
  }

  lemma ReachAdds(liquidity: real, x: real, a: real, b: real)
    requires liquidity > 0.0
    ensures Reach(liquidity, Reach(liquidity, x, a), b) == Reach(liquidity, x, a + b)
  {
    var p, q := a / liquidity, b / liquidity;
    assert p * liquidity == a && q * liquidity == b;
    QuotientUnique(a + b, liquidity, p + q);
  }

  lemma GainOfReach(liquidity: real, x: real, input: real)
    requires liquidity > 0.0
    ensures Gain(liquidity, x, Reach(liquidity, x, input)) == input
    ensures input > 0.0 ==> x < Reach(liquidity, x, input)
  {
    var q := input / liquidity;
    assert q * liquidity == input;
  }

  lemma InverseOfInverse(s: real)
    requires s > 0.0
    ensures 1.0 / (1.0 / s) == s
  {
    var t := 1.0 / s;
    assert t * s == 1.0;
    assert s == 1.0 / t;
  }

  lemma InverseOrder(a: real, b: real)
    requires a > 0.0 && b > 0.0
    ensures a < b <==> 1.0 / b < 1.0 / a
  {
    var p, q := 1.0 / a, 1.0 / b;
    assert p * a == 1.0 && q * b == 1.0;
    assert p - q == (p * q) * (b - a) by {
      assert (p * q) * b == p * (q * b);
      assert (p * q) * a == q * (p * a);
    }
    ProductPositive(p, q);
    SignOfProduct(p * q, b - a);
  }

  lemma CoordInjective(baseIn: bool, a: real, b: real)
    requires a > 0.0 && b > 0.0 && Coord(baseIn, a) == Coord(baseIn, b)
    ensures a == b
  {
    InverseOfInverse(a);
    InverseOfInverse(b);
  }

  /** The boundary lies ahead exactly when its coordinate is larger. */
  lemma CoordOrder(baseIn: bool, s: real, b: real)
    requires s > 0.0 && b > 0.0
    ensures (if baseIn then b < s else b > s) <==> Coord(baseIn, b) > Coord(baseIn, s)
  {
    InverseOrder(b, s);
  }

  lemma MaxInByCoord(baseIn: bool, liquidity: real, s: real, b: real)
    requires s > 0.0 && b > 0.0
    ensures MaxInBeforeBoundary(baseIn, liquidity, s, b) == Gain(liquidity, Coord(baseIn, s), Coord(baseIn, b))
  {
    if baseIn {
      ProductPositive(s, b);
      var x, y := 1.0 / s, 1.0 / b;
      assert x * s == 1.0 && y * b == 1.0;
      assert (y - x) * (s * b) == s - b by {
        assert y * (s * b) == (y * b) * s;
        assert x * (s * b) == (x * s) * b;
      }
      QuotientUnique(liquidity * (s - b), s * b, liquidity * (y - x));
    }
  }

  lemma QuotientUnique(n: real, d: real, q: real)
    requires d != 0.0 && q * d == n
    ensures n / d == q
  {}

  lemma PriceAfterByCoord(baseIn: bool, liquidity: real, s: real, input: real)
    requires liquidity > 0.0 && s > 0.0 && input >= 0.0
    ensures Coord(baseIn, PriceAfter(baseIn, liquidity, s, input)) == Reach(liquidity, Coord(baseIn, s), input)
  {
    if baseIn {
      var e := PriceAfter(true, liquidity, s, input);
      ProductNonNegative(input, s);
      assert e * (liquidity + input * s) == liquidity * s;
      var x, q := 1.0 / s, input / liquidity;
      assert x * s == 1.0 && q * liquidity == input;
      assert (x + q) * (liquidity * s) == liquidity + input * s by {
        assert x * (liquidity * s) == (x * s) * liquidity;
        assert q * (liquidity * s) == (q * liquidity) * s;
      }
      ProductPositive(liquidity, s);
      Regroup(x + q, e, liquidity * s, liquidity + input * s);
      CancelToOne((x + q) * e, liquidity * s);
      QuotientUnique(1.0, e, x + q);
    }
  }

  lemma Regroup(a: real, e: real, m: real, n: real)
    requires a * m == n
    ensures (a * e) * m == e * n
  {
    assert (a * e) * m == e * (a * m);
  }

  lemma CancelToOne(a: real, m: real)
    requires m > 0.0 && a * m == m
    ensures a == 1.0
  {
    assert (a - 1.0) * m == 0.0;
  }

  lemma OutByCoord(baseIn: bool, liquidity: real, s: real, e: real)
    requires s > 0.0 && e > 0.0
    ensures OutBetween(baseIn, liquidity, s, e)
            == Paid(liquidity, Coord(baseIn, s), Coord(baseIn, e))
  {
    InverseOfInverse(s);
    InverseOfInverse(e);
  }

  /** An input stays inside the range exactly when its end coordinate is short of the boundary. */
  lemma InsideByCoord(liquidity: real, x: real, y: real, input: real)
    requires liquidity > 0.0
    ensures input < Gain(liquidity, x, y) <==> Reach(liquidity, x, input) < y
  {
    var q := input / liquidity;
    assert q * liquidity == input;
    if q < y - x { assert q * liquidity < (y - x) * liquidity; }
    if q >= y - x { assert q * liquidity >= (y - x) * liquidity; }
  }

  /** `input` pays for `output` at an inverse price between those at the coordinates `x` and `y`. */
  predicate PricedBetween(output: real, input: real, x: real, y: real) {
    output * (x * x) <= input <= output * (y * y)
  }

  /** Output over a stretch is priced between the marginal prices at its two ends. */
  lemma PaidBetweenMarginals(liquidity: real, x: real, y: real)
    requires liquidity > 0.0 && 0.0 < x < y
    ensures Paid(liquidity, x, y) > 0.0
    ensures PricedBetween(Paid(liquidity, x, y), Gain(liquidity, x, y), x, y)
  {
    var u, v := 1.0 / x, 1.0 / y;
    assert u * x == 1.0 && v * y == 1.0;
    InverseOrder(x, y);
    var out := liquidity * (u - v);
    ProductPositive(liquidity, u - v);
    assert out * (x * y) == liquidity * (y - x) by {
      assert (u - v) * (x * y) == y - x by {
        assert u * (x * y) == (u * x) * y;
        assert v * (x * y) == (v * y) * x;
      }
      assert out * (x * y) == liquidity * ((u - v) * (x * y));
    }
    ScaledOrder(x, y, x);
    ScaledOrder(x, y, y);
    ScaledOrder(x * x, x * y, out);
    ScaledOrder(x * y, y * y, out);
  }

  lemma ScaledOrder(a: real, b: real, m: real)
    requires a <= b && m >= 0.0
    ensures m * a <= m * b
  {}

  lemma SquareOrder(x: real, y: real)
    requires 0.0 < x <= y
    ensures x * x <= y * y
  {}

  /** A bound on a product read as a bound on a quotient. */
  lemma BoundsAsQuotients(out: real, input: real, lo: real, hi: real)
    requires lo > 0.0 && hi > 0.0 && out * lo <= input <= out * hi
    ensures input / hi <= out <= input / lo
  {
    var p, q := input / hi, input / lo;
    assert p * hi == input && q * lo == input;
    if p > out { ScaledStrict(out, p, hi); }
    if out > q { ScaledStrict(q, out, lo); }
  }

  lemma ScaledStrict(a: real, b: real, m: real)
    requires a < b && m > 0.0
    ensures a * m < b * m
  {}

  lemma StretchesAdd(o1: real, o2: real, i1: real, i2: real, x: real, mid: real, y: real)
    requires 0.0 < x < mid < y && o1 > 0.0 && o2 > 0.0
    requires PricedBetween(o1, i1, x, mid) && PricedBetween(o2, i2, mid, y)
    ensures PricedBetween(o1 + o2, i1 + i2, x, y)
  {
    SquareOrder(x, mid);
    SquareOrder(mid, y);
    ScaledOrder(x * x, mid * mid, o2);
    ScaledOrder(mid * mid, y * y, o1);
  }

  lemma SquareOfInverse(s: real, out: real, input: real)
    requires s > 0.0
    ensures var x := 1.0 / s; out * (x * x) <= input <==> out <= s * s * input
    ensures var x := 1.0 / s; out * (x * x) >= input <==> out >= s * s * input
  {
    var x := 1.0 / s;
    assert x * s == 1.0;
    ProductPositive(s, s);
    assert (x * x) * (s * s) == 1.0 by {
      assert (x * x) * (s * s) == (x * s) * (x * s);
    }
    var d := input - out * (x * x);
    assert d * (s * s) == s * s * input - out by {
      assert (out * (x * x)) * (s * s) == out * ((x * x) * (s * s));
    }
    SignOfProduct(s * s, d);
  }
}
