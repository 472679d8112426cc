/** Two-pool arbitrage between constant-product pools, quoted in USDC. */
module ConstantProduct {
  import opened Wrappers

  const SLIPPAGE_BUFFER_BPS: real := 50.0
  const GAS_COST_SOL: real := 0.001
  const WSOL_MINT := "So11111111111111111111111111111111111111112"
  const DEFAULT_TOKEN_SCALE: real := 1000000.0
  const USDC_SCALE: real := 1000000.0
  const SOL_SCALE: real := 1000000000.0

  datatype Venue = Pump | PumpSwap | Raydium

  datatype Pool = Pool(
    venue: Venue,
    tokenMint: string,
    quoteMint: string,
    tokenReserve: nat,
    quoteReserve: nat,
    feeBps: real)

  datatype SwapQuote = SwapQuote(
    venue: Venue,
    tokenIn: string,
    tokenOut: string,
    amountIn: real,
    amountOut: real,
    spotPrice: real,
    effectivePrice: real,
    feeBps: real,
    priceImpactBps: real)

  datatype Costs = Costs(grossProfit: real, slippageBuffer: real, gasCost: real, netProfit: real)

  datatype ArbitrageQuote = ArbitrageQuote(
    tokenMint: string,
    buyVenue: Venue,
    sellVenue: Venue,
    buyPriceUsdc: real,
    sellPriceUsdc: real,
    tradeSizeUsdc: real,
    finalAmountUsdc: real,
    profitPct: real,
    totalPriceImpactBps: real,
    buyLeg: SwapQuote,
    sellLeg: SwapQuote,
    costs: Costs)

  /** The mints that amounts can be valued in, and the USDC price of one SOL. */
  datatype Valuation = Valuation(usdcMint: string, solMint: string, solUsdcPrice: real)

  function AfterFee(amountIn: real, feeBps: real): real {
    amountIn * (1.0 - feeBps / 10000.0)
  }

  /** A swap against one pool; an output that is not positive, or not finite, is no quote. */
  function QuoteSwap(
    venue: Venue, tokenIn: string, tokenOut: string, reserveIn: nat, reserveOut: nat, amountIn: real, feeBps: real)
    : (r: Option<SwapQuote>)
    ensures r.Some? ==> reserveIn > 0 && reserveOut > 0 && amountIn > 0.0 && r.value.amountOut > 0.0
  {
    if reserveIn == 0 || reserveOut == 0 || amountIn <= 0.0 then None
    else
      var after := AfterFee(amountIn, feeBps);
      if reserveIn as real + after == 0.0 then None
      else
        var out := after * reserveOut as real / (reserveIn as real + after);
        if out <= 0.0 then None
        else
          var spotOut, effectiveOut := reserveOut as real / reserveIn as real, out / amountIn;
          SpotPositive(reserveOut as real, reserveIn as real);
          var impact := (spotOut - effectiveOut) / spotOut;
          Some(SwapQuote(venue, tokenIn, tokenOut, amountIn, out,
                         reserveIn as real / reserveOut as real, amountIn / out, feeBps,
                         (if impact > 0.0 then impact else 0.0) * 10000.0))
  }

  lemma SpotPositive(a: real, b: real)
    requires a > 0.0 && b > 0.0
    ensures a / b > 0.0
  {}

  function UsdcToRaw(mint: string, amountUsdc: real, v: Valuation): Option<real> {
    if mint == v.usdcMint then Some(amountUsdc * USDC_SCALE)
    else if mint == v.solMint then
      // Dividing by a zero price is infinite, and an infinite amount is not quoted.
      if v.solUsdcPrice == 0.0 then None else Some(amountUsdc / v.solUsdcPrice * SOL_SCALE)
    else None
  }

  function RawToUsdc(mint: string, amountRaw: real, v: Valuation): Option<real> {
    if mint == v.usdcMint then Some(amountRaw / USDC_SCALE)
    else if mint == v.solMint then Some(amountRaw / SOL_SCALE * v.solUsdcPrice)
    else None
  }

  function TokenScale(mint: string): (s: real)
    ensures s > 0.0
  {
    if mint == WSOL_MINT then SOL_SCALE else DEFAULT_TOKEN_SCALE
  }

  function BuildQuote(tokenMint: string, buyVenue: Venue, sellVenue: Venue, buy: SwapQuote, sell: SwapQuote,
                      tradeSize: real, final: real, solUsdcPrice: real): Option<ArbitrageQuote>
    requires tradeSize != 0.0 && buy.amountOut > 0.0
  {
    if final <= 0.0 then None
    else
      var gross := final - tradeSize;
      var slippage := final * (SLIPPAGE_BUFFER_BPS / 10000.0);
      var gas := GAS_COST_SOL * solUsdcPrice;
      var net := gross - slippage - gas;
      SpotPositive(buy.amountOut, TokenScale(buy.tokenOut));
      var tokens := buy.amountOut / TokenScale(buy.tokenOut);
      Some(ArbitrageQuote(tokenMint, buyVenue, sellVenue, tradeSize / tokens, final / tokens, tradeSize, final,
                          net / tradeSize * 100.0, buy.priceImpactBps + sell.priceImpactBps, buy, sell,
                          Costs(gross, slippage, gas, net)))
  }

  /** Buying the token in one pool and selling it in the other. */
  function QuotePath(buyPool: Pool, sellPool: Pool, v: Valuation, tradeSize: real): Option<ArbitrageQuote> {
    var amountIn := UsdcToRaw(buyPool.quoteMint, tradeSize, v);
    if amountIn.None? then None else
    var buy := QuoteSwap(buyPool.venue, buyPool.quoteMint, buyPool.tokenMint,
                         buyPool.quoteReserve, buyPool.tokenReserve, amountIn.value, buyPool.feeBps);
    if buy.None? then None else
    var sell := QuoteSwap(sellPool.venue, sellPool.tokenMint, sellPool.quoteMint,
                          sellPool.tokenReserve, sellPool.quoteReserve, buy.value.amountOut, sellPool.feeBps);
    if sell.None? then None else
    var final := RawToUsdc(sell.value.tokenOut, sell.value.amountOut, v);
    if final.None? then None else
    BuildQuote(buyPool.tokenMint, buyPool.venue, sellPool.venue, buy.value, sell.value, tradeSize,
        final.value, v.solUsdcPrice)
  }

  function QuoteBest(left: Pool, right: Pool, v: Valuation, tradeSize: real): Option<ArbitrageQuote> {
    if left.tokenMint != right.tokenMint || left.tokenMint == left.quoteMint then None
    else
      var lr, rl := QuotePath(left, right, v, tradeSize), QuotePath(right, left, v, tradeSize);
      if lr.Some? && rl.Some? then (if lr.value.costs.netProfit >= rl.value.costs.netProfit then lr else rl)
      else if lr.Some? then lr
      else rl
  }

  // ---------- one swap ----------

  /** With `out` the output for `after` net of fee, the reserves' product is kept exactly. */
  lemma ProductKept(rin: real, rout: real, after: real)
    requires rin + after != 0.0
    ensures (rin + after) * (rout - after * rout / (rin + after)) == rin * rout
  {
    var d := rin + after;
    var out := after * rout / d;
    assert out * d == after * rout;
    assert d * (rout - out) == d * rout - out * d;
  }

  /** A quoted output stays below the reserve exactly when the fee is below the whole input. */
  lemma OutputBelowReserveExactly(
    venue: Venue, tokenIn: string, tokenOut: string, reserveIn: nat, reserveOut: nat, amountIn: real, feeBps: real)
    requires QuoteSwap(venue, tokenIn, tokenOut, reserveIn, reserveOut, amountIn, feeBps).Some?
    ensures QuoteSwap(venue, tokenIn, tokenOut, reserveIn, reserveOut, amountIn, feeBps).value.amountOut
            < reserveOut as real
            <==> feeBps < 10000.0
  {
    var rin, rout, after := reserveIn as real, reserveOut as real, AfterFee(amountIn, feeBps);
    SignOfAfterFee(amountIn, feeBps);
    BelowReserve(rin, rout, after, after * rout / (rin + after));
  }

  lemma SignOfAfterFee(amountIn: real, feeBps: real)
    requires amountIn > 0.0
    ensures AfterFee(amountIn, feeBps) > 0.0 <==> feeBps < 10000.0
    ensures AfterFee(amountIn, feeBps) <= amountIn <==> feeBps >= 0.0
  {
    var f := 1.0 - feeBps / 10000.0;
    if f > 0.0 { assert amountIn * f > 0.0; }
    if f <= 0.0 { assert amountIn * f <= 0.0; }
    if f <= 1.0 { assert amountIn * (1.0 - f) >= 0.0; }
    if f > 1.0 { assert amountIn * (f - 1.0) > 0.0; }
  }

  lemma BelowReserve(rin: real, rout: real, after: real, out: real)
    requires rin > 0.0 && rout > 0.0 && rin + after != 0.0
    requires out == after * rout / (rin + after) && out > 0.0
    ensures out < rout <==> after > 0.0
  {
    ProductKept(rin, rout, after);
    var d, gap := rin + after, rout - out;
    assert d * gap == rin * rout > 0.0 by { assert rin * rout > 0.0; }
    assert out * d == after * rout;
    PositiveFactor(out, d);
    PositiveFactor(rout, after);
    SameSign(d, gap);
  }

  lemma PositiveFactor(m: real, a: real)
    requires m > 0.0
    ensures m * a > 0.0 <==> a > 0.0
  {}

  lemma SameSign(a: real, b: real)
    requires a * b > 0.0
    ensures a > 0.0 <==> b > 0.0
  {
    if a > 0.0 { PositiveFactor(a, b); }
    if b > 0.0 { PositiveFactor(b, a); }
  }

  /** The product of the reserves never falls, exactly when the fee is not negative. */
  lemma ProductNeverFallsExactly(
    venue: Venue, tokenIn: string, tokenOut: string, reserveIn: nat, reserveOut: nat, amountIn: real, feeBps: real)
    requires QuoteSwap(venue, tokenIn, tokenOut, reserveIn, reserveOut, amountIn, feeBps).Some? && feeBps < 10000.0
    ensures var out := QuoteSwap(venue, tokenIn, tokenOut, reserveIn, reserveOut, amountIn, feeBps).value.amountOut;
            (reserveIn as real + amountIn) * (reserveOut as real - out) >= reserveIn as real * reserveOut as real
            <==> feeBps >= 0.0
  {
    var rin, rout, after := reserveIn as real, reserveOut as real, AfterFee(amountIn, feeBps);
    var out := after * rout / (rin + after);
    SignOfAfterFee(amountIn, feeBps);
    BelowReserve(rin, rout, after, out);
    ProductKept(rin, rout, after);
    var gap := rout - out;
    assert (rin + amountIn) * gap == (rin + after) * gap + (amountIn - after) * gap;
    if amountIn >= after { assert (amountIn - after) * gap >= 0.0; }
    if amountIn < after { assert (amountIn - after) * gap < 0.0; }
  }

  /** With a fee from zero up to the whole input, a swap is worse than the spot price. */
  lemma WorseThanSpot(
    venue: Venue, tokenIn: string, tokenOut: string, reserveIn: nat, reserveOut: nat, amountIn: real, feeBps: real)
    requires QuoteSwap(venue, tokenIn, tokenOut, reserveIn, reserveOut, amountIn, feeBps).Some?
        && 0.0 <= feeBps < 10000.0
    ensures QuoteSwap(venue, tokenIn, tokenOut, reserveIn, reserveOut, amountIn, feeBps).value.amountOut
            * reserveIn as real
            < amountIn * reserveOut as real
  {
    var rin, rout, after := reserveIn as real, reserveOut as real, AfterFee(amountIn, feeBps);
    SignOfAfterFee(amountIn, feeBps);
    BelowSpot(rin, rout, amountIn, after, after * rout / (rin + after));
  }

  lemma BelowSpot(rin: real, rout: real, amountIn: real, after: real, out: real)
    requires rin > 0.0 && rout > 0.0 && 0.0 < after <= amountIn
    requires out == after * rout / (rin + after) && out > 0.0
    ensures out * rin < amountIn * rout
  {
    var d := rin + after;
    assert out * d == after * rout;
    assert out * d == out * rin + out * after;
    PositiveFactor(out, after);
    assert (amountIn - after) * rout >= 0.0;
    assert (amountIn - after) * rout == amountIn * rout - after * rout;
  }

  // ---------- two swaps ----------

  predicate SensibleFee(p: Pool) {
    0.0 <= p.feeBps < 10000.0
  }

  /** USDC value of one raw unit of a mint, if it has one. */
  function UnitValue(mint: string, v: Valuation): (u: Option<real>)
    ensures v.solUsdcPrice > 0.0 && u.Some? ==> u.value > 0.0
  {
    if mint == v.usdcMint then Some(1.0 / USDC_SCALE)
    else if mint == v.solMint then Some(v.solUsdcPrice / SOL_SCALE)
    else None
  }

  /** USDC price of one raw unit of a pool's token at the margin. */
  function SpotPriceUsdc(p: Pool, v: Valuation): real
    requires p.tokenReserve > 0 && UnitValue(p.quoteMint, v).Some?
  {
    UnitValue(p.quoteMint, v).value * p.quoteReserve as real / p.tokenReserve as real
  }

  lemma ConversionsByUnit(mint: string, amount: real, v: Valuation)
    requires v.solUsdcPrice > 0.0
    ensures UsdcToRaw(mint, amount, v).Some? <==> UnitValue(mint, v).Some?
    ensures RawToUsdc(mint, amount, v).Some? <==> UnitValue(mint, v).Some?
    ensures UnitValue(mint, v).Some? ==>
              && UsdcToRaw(mint, amount, v).value * UnitValue(mint, v).value == amount
              && RawToUsdc(mint, amount, v).value == amount * UnitValue(mint, v).value
  {
    if mint != v.usdcMint && mint == v.solMint {
      var q := amount / v.solUsdcPrice;
      assert q * v.solUsdcPrice == amount;
      assert (q * SOL_SCALE) * (v.solUsdcPrice / SOL_SCALE) == q * v.solUsdcPrice;
    }
  }

  /** What a quoted path is made of. */
  lemma PathParts(buyPool: Pool, sellPool: Pool, v: Valuation, tradeSize: real)
    requires QuotePath(buyPool, sellPool, v, tradeSize).Some? && v.solUsdcPrice > 0.0
    ensures var q := QuotePath(buyPool, sellPool, v, tradeSize).value;
            && UnitValue(buyPool.quoteMint, v).Some? && UnitValue(sellPool.quoteMint, v).Some?
            && q.buyLeg.amountIn * UnitValue(buyPool.quoteMint, v).value == tradeSize > 0.0
            && q.sellLeg.amountOut * UnitValue(sellPool.quoteMint, v).value == q.finalAmountUsdc
            && QuoteSwap(buyPool.venue, buyPool.quoteMint, buyPool.tokenMint, buyPool.quoteReserve,
                buyPool.tokenReserve,
                         q.buyLeg.amountIn, buyPool.feeBps) == Some(q.buyLeg)
            && QuoteSwap(sellPool.venue, sellPool.tokenMint, sellPool.quoteMint, sellPool.tokenReserve,
                sellPool.quoteReserve,
                         q.buyLeg.amountOut, sellPool.feeBps) == Some(q.sellLeg)
            && q.costs.grossProfit == q.finalAmountUsdc - tradeSize
            && q.costs.netProfit < q.costs.grossProfit
  {
    hide QuoteSwap, UsdcToRaw, RawToUsdc, UnitValue, BuildQuote;
    ConversionsByUnit(buyPool.quoteMint, tradeSize, v);
    var x := UsdcToRaw(buyPool.quoteMint, tradeSize, v).value;
    var buy := QuoteSwap(buyPool.venue, buyPool.quoteMint, buyPool.tokenMint, buyPool.quoteReserve,
        buyPool.tokenReserve, x, buyPool.feeBps).value;
    var sell := QuoteSwap(sellPool.venue, sellPool.tokenMint, sellPool.quoteMint, sellPool.tokenReserve,
        sellPool.quoteReserve,
                          buy.amountOut, sellPool.feeBps).value;
    SwapNames(buyPool.venue, buyPool.quoteMint, buyPool.tokenMint, buyPool.quoteReserve, buyPool.tokenReserve,
        x, buyPool.feeBps);
    SwapNames(sellPool.venue, sellPool.tokenMint, sellPool.quoteMint, sellPool.tokenReserve,
        sellPool.quoteReserve, buy.amountOut, sellPool.feeBps);
    PositiveFactor(UnitValue(buyPool.quoteMint, v).value, x);
    ConversionsByUnit(sellPool.quoteMint, sell.amountOut, v);
    BuildQuoteParts(buyPool.tokenMint, buyPool.venue, sellPool.venue, buy, sell, tradeSize,
                    RawToUsdc(sell.tokenOut, sell.amountOut, v).value, v.solUsdcPrice);
  }

  lemma SwapNames(
    venue: Venue, tokenIn: string, tokenOut: string, reserveIn: nat, reserveOut: nat, amountIn: real, feeBps: real)
    requires QuoteSwap(venue, tokenIn, tokenOut, reserveIn, reserveOut, amountIn, feeBps).Some?
    ensures var q := QuoteSwap(venue, tokenIn, tokenOut, reserveIn, reserveOut, amountIn, feeBps).value;
            q.tokenIn == tokenIn && q.tokenOut == tokenOut && q.amountIn == amountIn
  {}

  lemma BuildQuoteParts(tokenMint: string, buyVenue: Venue, sellVenue: Venue, buy: SwapQuote, sell: SwapQuote,
                        tradeSize: real, final: real, solUsdcPrice: real)
    requires tradeSize != 0.0 && buy.amountOut > 0.0 && solUsdcPrice > 0.0
    requires BuildQuote(tokenMint, buyVenue, sellVenue, buy, sell, tradeSize, final, solUsdcPrice).Some?
    ensures var q := BuildQuote(tokenMint, buyVenue, sellVenue, buy, sell, tradeSize, final, solUsdcPrice).value;
            && q.buyLeg == buy && q.sellLeg == sell && q.finalAmountUsdc == final
            && q.costs.grossProfit == final - tradeSize
            && q.costs.netProfit < q.costs.grossProfit
  {}

  /** A path with gross profit leads to the pool with the strictly higher spot price. */
  lemma ProfitOnlyTowardHigherPrice(buyPool: Pool, sellPool: Pool, v: Valuation, tradeSize: real)
    requires SensibleFee(buyPool) && SensibleFee(sellPool) && v.solUsdcPrice > 0.0
    requires QuotePath(buyPool, sellPool, v, tradeSize).Some?
    requires QuotePath(buyPool, sellPool, v, tradeSize).value.costs.grossProfit > 0.0
    ensures UnitValue(buyPool.quoteMint, v).Some? && UnitValue(sellPool.quoteMint, v).Some?
    ensures buyPool.tokenReserve > 0 && sellPool.tokenReserve > 0
    ensures SpotPriceUsdc(buyPool, v) < SpotPriceUsdc(sellPool, v)
  {
    hide QuotePath, QuoteSwap;
    PathParts(buyPool, sellPool, v, tradeSize);
    var q := QuotePath(buyPool, sellPool, v, tradeSize).value;
    var x, t, y := q.buyLeg.amountIn, q.buyLeg.amountOut, q.sellLeg.amountOut;
    WorseThanSpot(buyPool.venue, buyPool.quoteMint, buyPool.tokenMint, buyPool.quoteReserve,
        buyPool.tokenReserve, x, buyPool.feeBps);
    WorseThanSpot(sellPool.venue, sellPool.tokenMint, sellPool.quoteMint, sellPool.tokenReserve,
        sellPool.quoteReserve, t, sellPool.feeBps);
    PricesApart(UnitValue(buyPool.quoteMint, v).value, UnitValue(sellPool.quoteMint, v).value, x, t, y,
                buyPool.quoteReserve as real, buyPool.tokenReserve as real,
                sellPool.quoteReserve as real, sellPool.tokenReserve as real);
  }

  lemma PricesApart(ua: real, ub: real, x: real, t: real, y: real, qa: real, ta: real, qb: real, tb: real)
    requires ua > 0.0 && ub > 0.0 && x > 0.0 && t > 0.0 && y > 0.0 && qa > 0.0 && ta > 0.0 && qb > 0.0 && tb > 0.0
    requires t * qa < x * ta && y * tb < t * qb && x * ua < y * ub
    ensures ua * qa / ta < ub * qb / tb
  {
    var a, b := ua * qa / ta, ub * qb / tb;
    assert a * ta == ua * qa && b * tb == ub * qb;
    // Per token bought, buying costs more than the spot price and selling earns less.
    assert a * t < x * ua by {
      assert (a * t) * ta == ua * (t * qa);
      Times(t * qa, x * ta, ua);
      assert ua * (x * ta) == (x * ua) * ta;
      Cancel(a * t, x * ua, ta);
    }
    assert y * ub < b * t by {
      assert (b * t) * tb == ub * (t * qb);
      Times(y * tb, t * qb, ub);
      assert ub * (y * tb) == (y * ub) * tb;
      Cancel(y * ub, b * t, tb);
    }
    Cancel(a, b, t);
  }

  lemma Times(a: real, b: real, m: real)
    requires a < b && m > 0.0
    ensures m * a < m * b
  {}

  lemma Cancel(a: real, b: real, m: real)
    requires a * m < b * m && m > 0.0
    ensures a < b
  {
    PositiveFactor(m, b - a);
    assert m * (b - a) == b * m - a * m;
  }

  /** At most one direction between two pools makes a gross profit. */
  lemma OneProfitableDirection(left: Pool, right: Pool, v: Valuation, tradeSize: real)
    requires SensibleFee(left) && SensibleFee(right) && v.solUsdcPrice > 0.0
    ensures var lr, rl := QuotePath(left, right, v, tradeSize), QuotePath(right, left, v, tradeSize);
            !(lr.Some? && rl.Some? && lr.value.costs.grossProfit > 0.0 && rl.value.costs.grossProfit > 0.0)
  {
    hide QuotePath;
    var lr, rl := QuotePath(left, right, v, tradeSize), QuotePath(right, left, v, tradeSize);
    if lr.Some? && lr.value.costs.grossProfit > 0.0 { ProfitOnlyTowardHigherPrice(left, right, v, tradeSize); }
    if rl.Some? && rl.value.costs.grossProfit > 0.0 { ProfitOnlyTowardHigherPrice(right, left, v, tradeSize); }
  }

  /** If the best quote makes a net profit, it buys in the cheaper pool. */
  lemma BestBuysCheaper(left: Pool, right: Pool, v: Valuation, tradeSize: real)
    requires SensibleFee(left) && SensibleFee(right) && v.solUsdcPrice > 0.0
    requires QuoteBest(left, right, v, tradeSize).Some?
        && QuoteBest(left, right, v, tradeSize).value.costs.netProfit > 0.0
    ensures left.tokenReserve > 0 && right.tokenReserve > 0
    ensures UnitValue(left.quoteMint, v).Some? && UnitValue(right.quoteMint, v).Some?
    ensures QuoteBest(left, right, v, tradeSize)
            == (if SpotPriceUsdc(left, v) < SpotPriceUsdc(right, v) then QuotePath(left, right, v, tradeSize)
                else QuotePath(right, left, v, tradeSize))
    ensures SpotPriceUsdc(left, v) != SpotPriceUsdc(right, v)
  {
    hide QuotePath, SpotPriceUsdc;
    var lr, rl := QuotePath(left, right, v, tradeSize), QuotePath(right, left, v, tradeSize);
    if lr.Some? {
      PathParts(left, right, v, tradeSize);
      if lr.value.costs.netProfit > 0.0 { ProfitOnlyTowardHigherPrice(left, right, v, tradeSize); }
    }
    if rl.Some? {
      PathParts(right, left, v, tradeSize);
      if rl.value.costs.netProfit > 0.0 { ProfitOnlyTowardHigherPrice(right, left, v, tradeSize); }
    }
  }

  // ---------- order of the pools ----------

  function BestNet(left: Pool, right: Pool, v: Valuation, tradeSize: real): Option<real> {
    var best := QuoteBest(left, right, v, tradeSize);
    if best.None? then None else Some(best.value.costs.netProfit)
  }

  /** A pool that quotes a token in itself. */
  predicate Degenerate(p: Pool) {
    p.tokenMint == p.quoteMint
  }

  /** A path makes a quote exactly from such pools, mints and amounts. */
  predicate Quotable(buyPool: Pool, sellPool: Pool, v: Valuation, tradeSize: real) {
    && buyPool.tokenReserve > 0 && buyPool.quoteReserve > 0
    && sellPool.tokenReserve > 0 && sellPool.quoteReserve > 0
    && UnitValue(buyPool.quoteMint, v).Some? && UnitValue(sellPool.quoteMint, v).Some?
    && tradeSize * UnitValue(buyPool.quoteMint, v).value > 0.0
    && UnitValue(sellPool.quoteMint, v).value > 0.0
  }

  /** A swap with a fee below the whole input is quoted exactly for positive reserves and a positive input. */
  lemma SwapExistsExactly(
    venue: Venue, tokenIn: string, tokenOut: string, reserveIn: nat, reserveOut: nat, amountIn: real, feeBps: real)
    requires feeBps < 10000.0
    ensures QuoteSwap(venue, tokenIn, tokenOut, reserveIn, reserveOut, amountIn, feeBps).Some?
            <==> reserveIn > 0 && reserveOut > 0 && amountIn > 0.0
  {
    if reserveIn > 0 && reserveOut > 0 && amountIn > 0.0 {
      var after := AfterFee(amountIn, feeBps);
      SignOfAfterFee(amountIn, feeBps);
      PositiveFactor(after, reserveOut as real);
      SpotPositive(after * reserveOut as real, reserveIn as real + after);
    }
  }

  lemma ConversionSigns(mint: string, amount: real, v: Valuation)
    ensures UsdcToRaw(mint, amount, v).Some? && UsdcToRaw(mint, amount, v).value > 0.0
            <==> UnitValue(mint, v).Some? && amount * UnitValue(mint, v).value > 0.0
    ensures RawToUsdc(mint, amount, v).Some? <==> UnitValue(mint, v).Some?
    ensures amount > 0.0 && UnitValue(mint, v).Some? ==>
              (RawToUsdc(mint, amount, v).value > 0.0 <==> UnitValue(mint, v).value > 0.0)
  {
    if mint == v.usdcMint {
    } else if mint == v.solMint {
      var price := v.solUsdcPrice;
      SignOfQuotient(price, SOL_SCALE);
      if amount > 0.0 {
        PositiveFactor(amount, price / SOL_SCALE);
        PositiveFactor(amount / SOL_SCALE, price);
      }
      SignsOfProductAndQuotient(amount, price);
    }
  }

  lemma SignOfQuotient(a: real, scale: real)
    requires scale > 0.0
    ensures a / scale > 0.0 <==> a > 0.0
    ensures a / scale < 0.0 <==> a < 0.0
  {}

  lemma SignsOfProductAndQuotient(a: real, p: real)
    ensures p != 0.0 ==> (a / p * SOL_SCALE > 0.0 <==> a * (p / SOL_SCALE) > 0.0)
    ensures p == 0.0 ==> a * (p / SOL_SCALE) == 0.0
  {
    var u := p / SOL_SCALE;
    assert u * SOL_SCALE == p;
    if p != 0.0 {
      var q := a / p;
      assert q * p == a;
      assert a * u == q * (p * u);
      assert p * u == SOL_SCALE * (u * u);
      NonZeroSquare(u);
      PositiveFactor(p * u, q);
      assert (p * u) * q == a * u;
    }
  }

  lemma NonZeroSquare(u: real)
    requires u != 0.0
    ensures u * u > 0.0
  {}

  /** A path is quoted exactly for positive reserves, mints that can be valued, and a positive purchase. */
  lemma PathExistsExactly(buyPool: Pool, sellPool: Pool, v: Valuation, tradeSize: real)
    requires buyPool.feeBps < 10000.0 && sellPool.feeBps < 10000.0
    ensures QuotePath(buyPool, sellPool, v, tradeSize).Some? <==> Quotable(buyPool, sellPool, v, tradeSize)
  {
    hide QuoteSwap, UsdcToRaw, RawToUsdc, UnitValue;
    ConversionSigns(buyPool.quoteMint, tradeSize, v);
    var amountIn := UsdcToRaw(buyPool.quoteMint, tradeSize, v);
    if amountIn.Some? {
      SwapExistsExactly(buyPool.venue, buyPool.quoteMint, buyPool.tokenMint,
                        buyPool.quoteReserve, buyPool.tokenReserve, amountIn.value, buyPool.feeBps);
      var buy := QuoteSwap(buyPool.venue, buyPool.quoteMint, buyPool.tokenMint,
                           buyPool.quoteReserve, buyPool.tokenReserve, amountIn.value, buyPool.feeBps);
      if buy.Some? {
        SwapExistsExactly(sellPool.venue, sellPool.tokenMint, sellPool.quoteMint,
                          sellPool.tokenReserve, sellPool.quoteReserve, buy.value.amountOut, sellPool.feeBps);
        var sell := QuoteSwap(sellPool.venue, sellPool.tokenMint, sellPool.quoteMint,
                              sellPool.tokenReserve, sellPool.quoteReserve, buy.value.amountOut, sellPool.feeBps);
        if sell.Some? {
          SwapNames(sellPool.venue, sellPool.tokenMint, sellPool.quoteMint,
                    sellPool.tokenReserve, sellPool.quoteReserve, buy.value.amountOut, sellPool.feeBps);
          ConversionSigns(sellPool.quoteMint, sell.value.amountOut, v);
        }
      }
    }
  }

  /**
    Swapping the pools leaves the best net profit unchanged, except when exactly one of them quotes
    its token in itself and some path between them is quoted: only the first pool is checked for that.
   */
  lemma OrderByPaths(left: Pool, right: Pool, v: Valuation, tradeSize: real)
    ensures BestNet(left, right, v, tradeSize) == BestNet(right, left, v, tradeSize) <==>
            || left.tokenMint != right.tokenMint
            || (Degenerate(left) <==> Degenerate(right))
            || (QuotePath(left, right, v, tradeSize).None? && QuotePath(right, left, v, tradeSize).None?)
  {
    hide QuotePath;
  }

  /** The same from the pools, the mints and the trade size alone, for fees below the whole input. */
  lemma OrderOfPoolsExactly(left: Pool, right: Pool, v: Valuation, tradeSize: real)
    requires left.feeBps < 10000.0 && right.feeBps < 10000.0
    ensures BestNet(left, right, v, tradeSize) == BestNet(right, left, v, tradeSize) <==>
            || left.tokenMint != right.tokenMint
            || (Degenerate(left) <==> Degenerate(right))
            || (!Quotable(left, right, v, tradeSize) && !Quotable(right, left, v, tradeSize))
  {
    hide QuotePath, Quotable, BestNet, Degenerate;
    OrderByPaths(left, right, v, tradeSize);
    PathExistsExactly(left, right, v, tradeSize);
    PathExistsExactly(right, left, v, tradeSize);
  }

  /** At a positive SOL price a quotable path has a positive size, and is quotable in both directions. */
  lemma QuotableBothWays(left: Pool, right: Pool, v: Valuation, tradeSize: real)
    requires v.solUsdcPrice > 0.0
    ensures Quotable(left, right, v, tradeSize) <==> Quotable(right, left, v, tradeSize)
    ensures Quotable(left, right, v, tradeSize) ==> tradeSize > 0.0
  {
    hide UnitValue;
    if UnitValue(left.quoteMint, v).Some? { PositiveFactor(UnitValue(left.quoteMint, v).value, tradeSize); }
    if UnitValue(right.quoteMint, v).Some? { PositiveFactor(UnitValue(right.quoteMint, v).value, tradeSize); }
  }

  /** A pool of SOL against USDC and one of SOL against itself: quoted in one order and not in the other. */
  lemma OrderCanMatter(venue: Venue)
    ensures var v := Valuation("USDC", "SOL", 100.0);
            var good, odd := Pool(venue, "SOL", "USDC", 1000, 1000, 0.0), Pool(venue, "SOL", "SOL", 1000, 1000, 0.0);
            BestNet(good, odd, v, 1.0) != BestNet(odd, good, v, 1.0)
  {
    hide BestNet;
    var v := Valuation("USDC", "SOL", 100.0);
    var good, odd := Pool(venue, "SOL", "USDC", 1000, 1000, 0.0), Pool(venue, "SOL", "SOL", 1000, 1000, 0.0);
    OrderOfPoolsExactly(good, odd, v, 1.0);
  }

  // ---------- what the amounts are ----------

  /** Net of its fee, a swap keeps the product of the reserves exactly, and its prices are those of its amounts. */
  lemma SwapLaw(
    venue: Venue, tokenIn: string, tokenOut: string, reserveIn: nat, reserveOut: nat, amountIn: real, feeBps: real)
    requires QuoteSwap(venue, tokenIn, tokenOut, reserveIn, reserveOut, amountIn, feeBps).Some?
    ensures var q := QuoteSwap(venue, tokenIn, tokenOut, reserveIn, reserveOut, amountIn, feeBps).value;
            var net := amountIn * (1.0 - feeBps / 10000.0);
            && q.venue == venue && q.tokenIn == tokenIn && q.tokenOut == tokenOut
            && q.amountIn == amountIn && q.feeBps == feeBps
            && (reserveIn as real + net) * (reserveOut as real - q.amountOut) == reserveIn as real * reserveOut as real
            && q.spotPrice * reserveOut as real == reserveIn as real
            && q.effectivePrice * q.amountOut == amountIn
  {
    ProductKept(reserveIn as real, reserveOut as real, AfterFee(amountIn, feeBps));
  }

  /**
    The price impact is what the swap falls short of the spot price, in basis points: with a fee from zero
    up to the whole input it is positive and below all of it.
   */
  lemma ImpactIsShortfall(
    venue: Venue, tokenIn: string, tokenOut: string, reserveIn: nat, reserveOut: nat, amountIn: real, feeBps: real)
    requires QuoteSwap(venue, tokenIn, tokenOut, reserveIn, reserveOut, amountIn, feeBps).Some?
    requires 0.0 <= feeBps < 10000.0
    ensures var q := QuoteSwap(venue, tokenIn, tokenOut, reserveIn, reserveOut, amountIn, feeBps).value;
            && 0.0 < q.priceImpactBps < 10000.0
            && q.amountOut * reserveIn as real
               == amountIn * reserveOut as real * (1.0 - q.priceImpactBps / 10000.0)
  {
    hide AfterFee;
    WorseThanSpot(venue, tokenIn, tokenOut, reserveIn, reserveOut, amountIn, feeBps);
    var q := QuoteSwap(venue, tokenIn, tokenOut, reserveIn, reserveOut, amountIn, feeBps).value;
    Shortfall(reserveIn as real, reserveOut as real, amountIn, q.amountOut);
  }

  /** A swap that is no worse than the spot price has no impact, and any other has a positive one. */
  lemma NoImpactExactly(
    venue: Venue, tokenIn: string, tokenOut: string, reserveIn: nat, reserveOut: nat, amountIn: real, feeBps: real)
    requires QuoteSwap(venue, tokenIn, tokenOut, reserveIn, reserveOut, amountIn, feeBps).Some?
    ensures var q := QuoteSwap(venue, tokenIn, tokenOut, reserveIn, reserveOut, amountIn, feeBps).value;
            && q.priceImpactBps >= 0.0
            && (q.priceImpactBps == 0.0 <==> q.amountOut * reserveIn as real >= amountIn * reserveOut as real)
  {
    hide AfterFee;
    var q := QuoteSwap(venue, tokenIn, tokenOut, reserveIn, reserveOut, amountIn, feeBps).value;
    if q.amountOut * reserveIn as real < amountIn * reserveOut as real {
      Shortfall(reserveIn as real, reserveOut as real, amountIn, q.amountOut);
    } else {
      NoShortfall(reserveIn as real, reserveOut as real, amountIn, q.amountOut);
    }
  }

  lemma NoShortfall(rin: real, rout: real, x: real, out: real)
    requires rin > 0.0 && rout > 0.0 && x > 0.0 && out > 0.0 && out * rin >= x * rout
    ensures rout / rin > 0.0 && (rout / rin - out / x) / (rout / rin) <= 0.0
  {
    var spot, paid := rout / rin, out / x;
    assert spot * rin == rout && paid * x == out;
    SpotPositive(rout, rin);
    var impact := (spot - paid) / spot;
    assert impact * spot == spot - paid;
    PositiveFactor(x, rin);
    PositiveFactor(x * rin, spot - paid);
    assert (x * rin) * (spot - paid) == x * (spot * rin) - (paid * x) * rin;
    PositiveFactor(spot, impact);
  }

  lemma Shortfall(rin: real, rout: real, x: real, out: real)
    requires rin > 0.0 && rout > 0.0 && x > 0.0 && out > 0.0 && out * rin < x * rout
    ensures var spot := rout / rin;
            && spot > 0.0
            && var impact := (spot - out / x) / spot;
               && 0.0 < impact < 1.0
               && out * rin == x * rout * (1.0 - impact)
  {
    var spot, paid := rout / rin, out / x;
    assert spot * rin == rout && paid * x == out;
    SpotPositive(rout, rin);
    SpotPositive(out, x);
    var ratio := paid / spot;
    assert ratio * spot == paid;
    SpotPositive(paid, spot);
    var impact := (spot - paid) / spot;
    assert impact * spot == spot - paid;
    assert (impact + ratio) * spot == impact * spot + ratio * spot;
    SameProduct(impact + ratio, 1.0, spot);
    assert out * rin == (x * rout) * ratio by {
      assert out * rin == (ratio * spot) * x * rin;
      assert (ratio * spot) * x * rin == ratio * x * (spot * rin);
    }
    PositiveFactor(x, rout);
    PositiveFactor(x * rout, 1.0 - ratio);
    assert (x * rout) * (1.0 - ratio) == x * rout - (x * rout) * ratio;
  }

  lemma SameProduct(a: real, b: real, m: real)
    requires m > 0.0 && a * m == b * m
    ensures a == b
  {
    if a < b { Times(a, b, m); }
    if b < a { Times(b, a, m); }
  }

  lemma NoSizeNoAmount(mint: string, v: Valuation)
    ensures UsdcToRaw(mint, 0.0, v).Some? ==> UsdcToRaw(mint, 0.0, v).value == 0.0
  {}

  /** What a quote reports: costs, percentages and prices per whole token, in USDC. */
  lemma QuoteReports(buyPool: Pool, sellPool: Pool, v: Valuation, tradeSize: real)
    requires QuotePath(buyPool, sellPool, v, tradeSize).Some?
    ensures var q := QuotePath(buyPool, sellPool, v, tradeSize).value;
            var scale := if buyPool.tokenMint == "So11111111111111111111111111111111111111112" then 1000000000.0
                         else 1000000.0;
            var tokens := q.buyLeg.amountOut / scale;
            && q.tokenMint == buyPool.tokenMint && q.buyVenue == buyPool.venue && q.sellVenue == sellPool.venue
            && q.tradeSizeUsdc == tradeSize
            && q.costs.grossProfit == q.finalAmountUsdc - tradeSize
            && q.costs.slippageBuffer == q.finalAmountUsdc * 0.005
            && q.costs.gasCost == 0.001 * v.solUsdcPrice
            && q.costs.netProfit == q.costs.grossProfit - q.costs.slippageBuffer - q.costs.gasCost
            && q.profitPct * tradeSize == 100.0 * q.costs.netProfit
            && q.buyPriceUsdc * tokens == tradeSize
            && q.sellPriceUsdc * tokens == q.finalAmountUsdc
            && q.totalPriceImpactBps == q.buyLeg.priceImpactBps + q.sellLeg.priceImpactBps
  {
    hide QuoteSwap, UsdcToRaw, RawToUsdc;
    var x := UsdcToRaw(buyPool.quoteMint, tradeSize, v).value;
    NoSizeNoAmount(buyPool.quoteMint, v);
    SwapNames(buyPool.venue, buyPool.quoteMint, buyPool.tokenMint,
              buyPool.quoteReserve, buyPool.tokenReserve, x, buyPool.feeBps);
    var q := QuotePath(buyPool, sellPool, v, tradeSize).value;
    SpotPositive(q.buyLeg.amountOut, TokenScale(buyPool.tokenMint));
    var share := q.costs.netProfit / tradeSize;
    assert share * tradeSize == q.costs.netProfit;
  }

  /** A USDC unit is a millionth of a dollar, and a lamport a billionth of a SOL. */
  lemma UnitsAre(mint: string, v: Valuation)
    ensures mint == v.usdcMint ==> UnitValue(mint, v) == Some(0.000001)
    ensures mint != v.usdcMint && mint == v.solMint ==> UnitValue(mint, v) == Some(v.solUsdcPrice / 1000000000.0)
    ensures mint != v.usdcMint && mint != v.solMint ==> UnitValue(mint, v) == None
  {}

  // ---------- the better of two paths ----------

  /** The best quote is one of the two paths, no path nets more, and a tie goes from the first pool to the second. */
  lemma BestIsBest(left: Pool, right: Pool, v: Valuation, tradeSize: real)
    requires QuoteBest(left, right, v, tradeSize).Some?
    ensures var best := QuoteBest(left, right, v, tradeSize);
            var lr, rl := QuotePath(left, right, v, tradeSize), QuotePath(right, left, v, tradeSize);
            && (best == lr || best == rl)
            && (lr.Some? ==> lr.value.costs.netProfit <= best.value.costs.netProfit)
            && (rl.Some? ==> rl.value.costs.netProfit <= best.value.costs.netProfit)
            && (lr.Some? && lr.value.costs.netProfit == best.value.costs.netProfit ==> best == lr)
  {
    hide QuotePath;
  }

  /** There is a best quote exactly for pools of one token, the first quoting it in another, with some path. */
  lemma BestExistsExactly(left: Pool, right: Pool, v: Valuation, tradeSize: real)
    requires left.feeBps < 10000.0 && right.feeBps < 10000.0
    ensures QuoteBest(left, right, v, tradeSize).Some? <==>
              && left.tokenMint == right.tokenMint && !Degenerate(left)
              && (Quotable(left, right, v, tradeSize) || Quotable(right, left, v, tradeSize))
  {
    hide QuotePath, Quotable;
    PathExistsExactly(left, right, v, tradeSize);
    PathExistsExactly(right, left, v, tradeSize);
  }
}
