/** Integer fees of a bin-based pool: two differently rounded fee functions and the total fee rate. */
module DlmmFees {

  const U64_MAX: nat := 0xFFFF_FFFF_FFFF_FFFF
  const U128_MAX: nat := 0xFFFF_FFFF_FFFF_FFFF_FFFF_FFFF_FFFF_FFFF
  const FEE_PRECISION: nat := 1_000_000_000
  const MAX_FEE_RATE: nat := 100_000_000

  type U64 = x: nat | x <= U64_MAX

  function Sat64(x: nat): U64 {
    if x <= U64_MAX then x else U64_MAX
  }

  function Sat128(x: nat): (r: nat)
    ensures r <= U128_MAX
  {
    if x <= U128_MAX then x else U128_MAX
  }

  function Pow10(n: nat): nat {
    if n == 0 then 1 else 10 * Pow10(n - 1)
  }

  /** Fee parameters of a pool; absent ones count as zero, an absent bin step makes the rate zero. */
  datatype FeeParameters = FeeParameters(
    baseFactor: nat,
    variableFeeControl: nat,
    baseFeePowerFactor: nat,
    volatilityAccumulator: nat)

  /** The total fee rate never exceeds a tenth, so its complement is never zero. */
  function TotalFeeRate(f: FeeParameters, binStep: nat): (rate: nat)
    ensures rate <= MAX_FEE_RATE < FEE_PRECISION
  {
    var baseFee := Sat128(Sat128(Sat128(f.baseFactor * binStep) * 10) * Sat128(Pow10(f.baseFeePowerFactor)));
    var variableFee :=
      if f.variableFeeControl > 0 then
        var moved := Sat128(f.volatilityAccumulator * binStep);
        Sat128(Sat128(f.variableFeeControl * Sat128(moved * moved)) + 99_999_999_999) / 100_000_000_000
      else 0;
    var total := Sat128(baseFee + variableFee);
    if total <= MAX_FEE_RATE then total else MAX_FEE_RATE
  }

  /** Division rounded up, on saturating 128-bit arithmetic. */
  function CeilDiv128(a: nat, b: nat): nat
    requires b > 0
  {
    Sat128(a + (b - 1)) / b
  }

  /** The fee contained in a gross amount, rounded up. */
  function FeeFromGross(rate: U64, gross: U64): U64 {
    if rate == 0 || gross == 0 then 0
    else Sat64(CeilDiv128(gross * rate, FEE_PRECISION))
  }

  /** The fee to add to a net amount, rounded up. */
  function FeeForNet(rate: U64, net: U64): U64 {
    if rate == 0 || net == 0 then 0
    else Sat64(CeilDiv128(net * rate, if rate < FEE_PRECISION then FEE_PRECISION - rate else 1))
  }

  /** What is left of a gross amount. */
  function NetOf(rate: U64, gross: U64): U64 {
    if FeeFromGross(rate, gross) <= gross then gross - FeeFromGross(rate, gross) else 0
  }

  // ---------- rounding up ----------

  lemma RoundUp(a: nat, b: nat, q: nat)
    requires b > 0 && q == (a + (b - 1)) / b
    ensures a <= q * b < a + b
  {
    var r := (a + (b - 1)) % b;
    assert q * b + r == a + (b - 1);
  }

  lemma QuotientOrder(a: nat, b: nat, c: nat)
    requires c > 0
    ensures a * c < b * c <==> a < b
    ensures a * c <= b * c <==> a <= b
  {
    if a < b { assert (b - a) * c >= 1 * c by { MulOrder(1, b - a, c); } }
    if b < a { assert (a - b) * c >= 1 * c by { MulOrder(1, a - b, c); } }
  }

  lemma MulOrder(a: nat, b: nat, c: nat)
    requires a <= b
    ensures a * c <= b * c
  {}

  lemma ProductFits128(a: U64, b: U64, c: nat)
    requires c <= FEE_PRECISION
    ensures a * b + c <= U128_MAX
  {
    MulOrder(a, U64_MAX, b);
    MulOrder(b, U64_MAX, U64_MAX);
  }

  /** The fee of a gross amount is the least that covers the rate, and at most the amount itself. */
  lemma FeeFromGrossRounds(rate: U64, gross: U64)
    requires rate < FEE_PRECISION
    ensures var fee := FeeFromGross(rate, gross);
            fee <= gross && gross * rate <= fee * FEE_PRECISION < gross * rate + FEE_PRECISION
  {
    if rate != 0 && gross != 0 {
      ProductFits128(gross, rate, FEE_PRECISION);
      var q := (gross * rate + (FEE_PRECISION - 1)) / FEE_PRECISION;
      RoundUp(gross * rate, FEE_PRECISION, q);
      MulOrder(rate, FEE_PRECISION, gross);
      assert (gross + 1) * FEE_PRECISION == gross * FEE_PRECISION + FEE_PRECISION;
      QuotientOrder(q, gross + 1, FEE_PRECISION);
    }
  }

  /** Net amounts by multiplication: the net of a gross amount is its share, rounded down. */
  lemma NetRoundsDown(rate: U64, gross: U64)
    requires rate < FEE_PRECISION
    ensures var net := NetOf(rate, gross);
            && FeeFromGross(rate, gross) <= gross
            && net * FEE_PRECISION <= gross * (FEE_PRECISION - rate) < (net + 1) * FEE_PRECISION
  {
    FeeFromGrossRounds(rate, gross);
    var fee := FeeFromGross(rate, gross);
    assert gross * (FEE_PRECISION - rate) == gross * FEE_PRECISION - gross * rate;
    assert (gross - fee) * FEE_PRECISION == gross * FEE_PRECISION - fee * FEE_PRECISION;
  }

  /** A gross amount yields a net amount exactly when its share covers it. */
  lemma NetAtLeast(rate: U64, gross: U64, net: U64)
    requires rate < FEE_PRECISION
    ensures net <= NetOf(rate, gross) <==> net * FEE_PRECISION <= gross * (FEE_PRECISION - rate)
  {
    NetRoundsDown(rate, gross);
    var n := NetOf(rate, gross);
    if net <= n { MulOrder(net, n, FEE_PRECISION); }
    if net > n { MulOrder(n + 1, net, FEE_PRECISION); }
  }

  /** The gross amount for a net amount is the share's inverse, rounded up, when it can be represented. */
  lemma GrossRoundsUp(rate: U64, net: U64)
    requires rate < FEE_PRECISION && net + FeeForNet(rate, net) <= U64_MAX
    ensures var gross := net + FeeForNet(rate, net);
            net * FEE_PRECISION <= gross * (FEE_PRECISION - rate) < net * FEE_PRECISION + (FEE_PRECISION - rate)
  {
    var d := FEE_PRECISION - rate;
    var fee := FeeForNet(rate, net);
    if rate != 0 && net != 0 {
      ProductFits128(net, rate, d - 1);
      RoundUp(net * rate, d, fee);
    }
    assert (net + fee) * d == net * d + fee * d;
    assert net * d + net * rate == net * FEE_PRECISION;
  }

  // ---------- the two roundings undo each other ----------

  /** Charging the added fee gives back the net amount: both functions name the same fee. */
  lemma FeesAreInverse(rate: U64, net: U64)
    requires rate < FEE_PRECISION && net + FeeForNet(rate, net) <= U64_MAX
    ensures FeeFromGross(rate, net + FeeForNet(rate, net)) == FeeForNet(rate, net)
    ensures NetOf(rate, net + FeeForNet(rate, net)) == net
  {
    var gross := net + FeeForNet(rate, net);
    GrossRoundsUp(rate, net);
    NetRoundsDown(rate, gross);
    NetAtLeast(rate, gross, net);
    var n := NetOf(rate, gross);
    if n > net {
      MulOrder(net + 1, n, FEE_PRECISION);
      assert (net + 1) * FEE_PRECISION == net * FEE_PRECISION + FEE_PRECISION;
    }
  }

  /** No smaller gross amount nets as much. */
  lemma LeastGross(rate: U64, net: U64, gross: U64)
    requires rate < FEE_PRECISION && net + FeeForNet(rate, net) <= U64_MAX
    ensures net <= NetOf(rate, gross) <==> net + FeeForNet(rate, net) <= gross
  {
    var least := net + FeeForNet(rate, net);
    var d := FEE_PRECISION - rate;
    GrossRoundsUp(rate, net);
    NetAtLeast(rate, gross, net);
    if least <= gross { MulOrder(least, gross, d); }
    if gross < least {
      MulOrder(gross, least - 1, d);
      assert (least - 1) * d == least * d - d;
    }
  }

  lemma NetMonotone(rate: U64, a: U64, b: U64)
    requires rate < FEE_PRECISION && a <= b
    ensures NetOf(rate, a) <= NetOf(rate, b)
  {
    NetRoundsDown(rate, a);
    NetAtLeast(rate, b, NetOf(rate, a));
    MulOrder(a, b, FEE_PRECISION - rate);
  }

  /** Also when the gross amount for a net amount saturates, it never nets more than that amount. */
  lemma CapNeverExceeded(rate: U64, netCap: U64, gross: U64)
    requires rate < FEE_PRECISION && gross <= Sat64(netCap + FeeForNet(rate, netCap))
    ensures NetOf(rate, gross) <= netCap
  {
    if netCap + FeeForNet(rate, netCap) <= U64_MAX {
      FeesAreInverse(rate, netCap);
      NetMonotone(rate, gross, netCap + FeeForNet(rate, netCap));
    } else if NetOf(rate, gross) > netCap {
      var n: U64 := netCap + 1;
      NetAtLeast(rate, gross, n);
      SaturatedGrossIsShort(rate, netCap, gross);
      assert false;
    }
  }

  lemma SaturatedGrossIsShort(rate: U64, net: U64, gross: U64)
    requires rate < FEE_PRECISION && net + FeeForNet(rate, net) > U64_MAX
    ensures gross * (FEE_PRECISION - rate) < (net + 1) * FEE_PRECISION
  {
    var d := FEE_PRECISION - rate;
    assert net != 0 && rate != 0;
    ProductFits128(net, rate, d - 1);
    var q := (net * rate + (d - 1)) / d;
    RoundUp(net * rate, d, q);
    assert gross < net + q;
    MulOrder(gross + 1, net + q, d);
    assert (net + q) * d == net * d + q * d;
    assert net * d + net * rate == net * FEE_PRECISION;
    assert (gross + 1) * d == gross * d + d;
    assert (net + 1) * FEE_PRECISION == net * FEE_PRECISION + FEE_PRECISION;
  }

  // ---------- what the total rate is ----------

  /** The base fee without any bound. */
  function BaseRate(f: FeeParameters, binStep: nat): nat {
    f.baseFactor * binStep * Pow10(1 + f.baseFeePowerFactor)
  }

  /** A hundred billion times the variable fee without any bound or rounding. */
  function VariableLoad(f: FeeParameters, binStep: nat): nat {
    var moved := f.volatilityAccumulator * binStep;
    f.variableFeeControl * (moved * moved)
  }

  /** The least number that covers a load, in units of a hundred billion. */
  function Covering(load: nat): (v: nat)
    ensures load <= v * 100_000_000_000 < load + 100_000_000_000
  {
    (load + 99_999_999_999) / 100_000_000_000
  }

  /** The total rate as exact integers give it, up to the cap of a tenth. */
  function ExactRate(f: FeeParameters, binStep: nat): nat {
    AtMostATenth(BaseRate(f, binStep) + Covering(VariableLoad(f, binStep)))
  }

  function AtMostATenth(rate: nat): nat {
    if rate <= 100_000_000 then rate else 100_000_000
  }

  lemma Positive(a: nat, b: nat)
    ensures a > 0 && b > 0 ==> a <= a * b && b <= a * b
    ensures a * b == 0 <==> a == 0 || b == 0
  {
    if a > 0 && b > 0 {
      MulOrder(1, b, a);
      MulOrder(1, a, b);
    }
  }

  /** Saturating a factor first changes nothing once the product is saturated. */
  lemma SatProduct(a: nat, b: nat)
    ensures Sat128(Sat128(a) * Sat128(b)) == Sat128(a * b)
  {
    Positive(a, b);
    Positive(Sat128(a), Sat128(b));
  }

  lemma {:induction false} Pow10Positive(n: nat)
    ensures Pow10(n) > 0
  {
    if n > 0 { Pow10Positive(n - 1); }
  }

  lemma BaseSaturates(f: FeeParameters, binStep: nat)
    ensures Sat128(Sat128(Sat128(f.baseFactor * binStep) * 10) * Sat128(Pow10(f.baseFeePowerFactor)))
            == Sat128(BaseRate(f, binStep))
  {
    var a, p := f.baseFactor * binStep, Pow10(f.baseFeePowerFactor);
    SatProduct(a, 10);
    SatProduct(a * 10, p);
    assert Pow10(1 + f.baseFeePowerFactor) == 10 * p;
    assert a * 10 * p == a * (10 * p);
  }

  lemma VariableSaturates(f: FeeParameters, binStep: nat)
    ensures var moved := Sat128(f.volatilityAccumulator * binStep);
            Sat128(f.variableFeeControl * Sat128(moved * moved)) == Sat128(VariableLoad(f, binStep))
            || f.variableFeeControl > U128_MAX
  {
    var moved := f.volatilityAccumulator * binStep;
    SatProduct(moved, moved);
    if f.variableFeeControl <= U128_MAX { SatProduct(f.variableFeeControl, moved * moved); }
  }

  /** Widths of the parameters as the pool account stores them. */
  predicate Stored(f: FeeParameters) {
    && f.baseFactor <= 0xFFFF && f.variableFeeControl <= 0xFFFF_FFFF
    && f.baseFeePowerFactor <= 0xFF && f.volatilityAccumulator <= 0xFFFF_FFFF
  }

  /**
    The total rate is exactly `baseFactor * binStep * 10^(1 + power)` plus the least number that covers the
    variable load, or a tenth if that is less: whatever the parameters, saturation never shows.
   */
  lemma TotalRateExactly(f: FeeParameters, binStep: nat)
    requires Stored(f)
    ensures TotalFeeRate(f, binStep) == ExactRate(f, binStep)
  {
    hide BaseRate, VariableLoad, Pow10;
    BaseSaturates(f, binStep);
    VariableSaturates(f, binStep);
    if f.variableFeeControl == 0 { assert VariableLoad(f, binStep) == 0 by { NoControlNoLoad(f, binStep); } }
  }

  lemma NoControlNoLoad(f: FeeParameters, binStep: nat)
    requires f.variableFeeControl == 0
    ensures VariableLoad(f, binStep) == 0
  {}

  /** Without a power factor the base fee is ten times the product, and every power is another factor of ten. */
  lemma BaseRateByPower(f: FeeParameters, binStep: nat)
    ensures BaseRate(f.(baseFeePowerFactor := 0), binStep) == 10 * f.baseFactor * binStep
    ensures BaseRate(f.(baseFeePowerFactor := f.baseFeePowerFactor + 1), binStep) == 10 * BaseRate(f, binStep)
  {
    assert Pow10(1) == 10 * Pow10(0);
    var a, p := f.baseFactor * binStep, Pow10(1 + f.baseFeePowerFactor);
    assert Pow10(2 + f.baseFeePowerFactor) == 10 * p;
    assert a * (10 * p) == 10 * (a * p);
  }

  /**
    * At a rate of all or more of the input, an added fee is the product itself, and nothing is left of a gross
    * amount.
    */
  lemma WholeRate(rate: U64, amount: U64)
    requires rate >= 1_000_000_000
    ensures FeeForNet(rate, amount) == Sat64(amount * rate)
    ensures FeeFromGross(rate, amount) >= amount && NetOf(rate, amount) == 0
  {
    ProductFits128(amount, rate, FEE_PRECISION);
    if amount > 0 {
      MulOrder(FEE_PRECISION, rate, amount);
      RoundUp(amount * rate, FEE_PRECISION, (amount * rate + (FEE_PRECISION - 1)) / FEE_PRECISION);
      QuotientOrder(amount, (amount * rate + (FEE_PRECISION - 1)) / FEE_PRECISION, FEE_PRECISION);
    }
  }

  /** The rate is the cap exactly when the rate without a cap reaches it. */
  lemma CapExactly(f: FeeParameters, binStep: nat)
    requires Stored(f)
    ensures TotalFeeRate(f, binStep) == 100_000_000
            <==> BaseRate(f, binStep) + Covering(VariableLoad(f, binStep)) >= 100_000_000
  {
    hide BaseRate, VariableLoad, TotalFeeRate;
    TotalRateExactly(f, binStep);
  }

  predicate NoGreater(f: FeeParameters, g: FeeParameters) {
    && f.baseFactor <= g.baseFactor && f.variableFeeControl <= g.variableFeeControl
    && f.baseFeePowerFactor <= g.baseFeePowerFactor && f.volatilityAccumulator <= g.volatilityAccumulator
  }

  lemma MulBoth(a: nat, b: nat, c: nat, d: nat)
    requires a <= c && b <= d
    ensures a * b <= c * d
  {
    MulOrder(a, c, b);
    MulOrder(b, d, c);
  }

  lemma {:induction false} Pow10Order(m: nat, n: nat)
    requires m <= n
    ensures Pow10(m) <= Pow10(n)
    decreases n
  {
    if m < n { Pow10Order(m, n - 1); }
  }

  /** The rate is monotone in every parameter and in the bin step. */
  lemma RateMonotone(f: FeeParameters, g: FeeParameters, step: nat, wider: nat)
    requires Stored(f) && Stored(g) && NoGreater(f, g) && step <= wider
    ensures TotalFeeRate(f, step) <= TotalFeeRate(g, wider)
  {
    hide TotalFeeRate, Pow10;
    TotalRateExactly(f, step);
    TotalRateExactly(g, wider);
    MulBoth(f.baseFactor, step, g.baseFactor, wider);
    Pow10Order(1 + f.baseFeePowerFactor, 1 + g.baseFeePowerFactor);
    MulBoth(f.baseFactor * step, Pow10(1 + f.baseFeePowerFactor), g.baseFactor * wider,
        Pow10(1 + g.baseFeePowerFactor));
    var x, y := f.volatilityAccumulator * step, g.volatilityAccumulator * wider;
    MulBoth(f.volatilityAccumulator, step, g.volatilityAccumulator, wider);
    MulBoth(x, x, y, y);
    MulBoth(f.variableFeeControl, x * x, g.variableFeeControl, y * y);
    CoveringOrder(VariableLoad(f, step), VariableLoad(g, wider));
  }

  lemma CoveringOrder(a: nat, b: nat)
    requires a <= b
    ensures Covering(a) <= Covering(b)
  {}

  // ---------- the scale of the rate ----------

  /** A rate counts parts of a thousand million: a fee is that share of the gross amount, rounded up. */
  lemma RateScale(rate: U64, gross: U64)
    requires rate < 1_000_000_000
    ensures var fee := FeeFromGross(rate, gross);
            (fee as int - 1) * 1_000_000_000 < gross * rate <= fee * 1_000_000_000
  {
    FeeFromGrossRounds(rate, gross);
  }
}
