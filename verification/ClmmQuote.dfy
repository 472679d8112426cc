/** The two exact-input quotes of a concentrated-liquidity pool. */
module ClmmQuote {
  import opened Wrappers
  import opened ClmmTicks
  import opened ClmmMath
  import opened ClmmWalk
  import opened ClmmTheorems

  const Q64: real := 18446744073709551616.0
  const U128_MAX: nat := 0xFFFF_FFFF_FFFF_FFFF_FFFF_FFFF_FFFF_FFFF
  const MAX_ITERATIONS: nat := 128

  datatype Pool = Pool(
    baseMint: string,
    quoteMint: string,
    sqrtPriceX64: Option<nat>,
    liquidity: nat,
    tickCurrent: Option<int>,
    tickSpacing: Option<nat>,
    feeBps: real)

  datatype Quote = Quote(
    amountIn: real,
    amountOut: real,
    feeAmount: real,
    sqrtPriceNextX64: nat,
    crossedTick: bool,
    touchedStarts: seq<int>)

  /** A positive price as a 64.64 fixed-point number; the conversion saturates. */
  function ToX64(s: real): nat
    requires s > 0.0
  {
    var x := (s * Q64).Floor;
    if x > U128_MAX then U128_MAX else x
  }

  function PushUnique(s: seq<int>, x: int): (r: seq<int>) {
    if x in s then s else s + [x]
  }

  /** Distinct elements in order of first appearance. */
  function Distinct(s: seq<int>): (r: seq<int>)
    ensures forall x :: x in r <==> x in s
    ensures forall i, j :: 0 <= i < j < |r| ==> r[i] != r[j]
  {
    if s == [] then []
    else
      assert s == s[..|s| - 1] + [s[|s| - 1]];
      PushUnique(Distinct(s[..|s| - 1]), s[|s| - 1])
  }

  function FeeAmount(pool: Pool, amountIn: real): real {
    amountIn * (pool.feeBps / 10000.0)
  }

  function NetOfFee(pool: Pool, amountIn: real): real {
    amountIn - FeeAmount(pool, amountIn)
  }

  /** The checks made before the first iteration, in the order of the multi-range quote. */
  function Open(pool: Pool, arrays: seq<TickArrayState>, inputMint: string, amountIn: real, sqrtPriceAt: int -> real)
    : (r: Result<(Market, Position), QuoteError>)
    ensures r.Ok? ==> Live(r.value.1) && amountIn > 0.0
  {
    if amountIn <= 0.0 then Err(InvalidAmount)
    else if pool.sqrtPriceX64.None? || pool.tickCurrent.None? || pool.tickSpacing.None? then Err(MissingPoolFields)
    else if inputMint != pool.baseMint && inputMint != pool.quoteMint then Err(UnsupportedMint)
    else if pool.liquidity == 0 then Err(InvalidLiquidity)
    else if pool.sqrtPriceX64.value == 0 then Err(InvalidPrice)
    else Ok((Market(AllTicks(arrays), sqrtPriceAt, inputMint == pool.baseMint),
             Position(pool.tickCurrent.value, pool.sqrtPriceX64.value as real / Q64, pool.liquidity as real)))
  }

  /** The multi-range quote: the trip of the whole net input within the iteration limit. */
  function MultiRange(
    pool: Pool, arrays: seq<TickArrayState>, inputMint: string, amountIn: real, sqrtPriceAt: int -> real)
    : Result<Quote, QuoteError>
  {
    match Open(pool, arrays, inputMint, amountIn, sqrtPriceAt)
    case Err(e) => Err(e)
    case Ok((m, p)) =>
      match Walk(m, p, NetOfFee(pool, amountIn), MAX_ITERATIONS)
      case Err(e) => Err(e)
      case Ok(t) =>
        if t.amountOut <= 0.0 then Err(InvalidPrice)
        else Ok(Quote(amountIn, t.amountOut, FeeAmount(pool, amountIn), ToX64(t.end.sqrtPrice),
                      t.crossed != [], Distinct(Consulted(t))))
  }

  /** What the loop leaves behind: final price, total output, and the ticks it dealt with. */
  datatype LoopResult = LoopResult(sqrtPrice: real, amountOut: real, crossedTick: bool, touched: seq<int>)

  method QuoteExactInput(
    pool: Pool, arrays: seq<TickArrayState>, inputMint: string, amountIn: real, sqrtPriceAt: int -> real)
    returns (r: Result<Quote, QuoteError>)
    ensures r == MultiRange(pool, arrays, inputMint, amountIn, sqrtPriceAt)
  {
    hide AllTicks, FeeAmount, ToX64, Walk, Distinct, Consulted;
    if amountIn <= 0.0 { return Err(InvalidAmount); }
    if pool.sqrtPriceX64.None? || pool.tickCurrent.None? || pool.tickSpacing.None? { return Err(MissingPoolFields); }
    var baseIn: bool;
    if inputMint == pool.baseMint {
      baseIn := true;
    } else if inputMint == pool.quoteMint {
      baseIn := false;
    } else {
      return Err(UnsupportedMint);
    }
    var liquidity := pool.liquidity as real;
    if liquidity <= 0.0 { return Err(InvalidLiquidity); }
    var sqrtPrice := pool.sqrtPriceX64.value as real / Q64;
    if sqrtPrice <= 0.0 { return Err(InvalidPrice); }
    var feeAmount := FeeAmount(pool, amountIn);
    var loop := CrossTicks(AllTicks(arrays), sqrtPriceAt, baseIn, pool.tickCurrent.value, sqrtPrice,
        liquidity, amountIn - feeAmount);
    if loop.Err? { return Err(loop.error); }
    if loop.value.amountOut <= 0.0 || loop.value.sqrtPrice <= 0.0 { return Err(InvalidPrice); }
    return Ok(Quote(amountIn, loop.value.amountOut, feeAmount, ToX64(loop.value.sqrtPrice),
        loop.value.crossedTick, loop.value.touched));
  }

  /** The loop: at most `MAX_ITERATIONS` ticks, until the input is spent. */
  method CrossTicks(ticks: seq<Candidate>, sqrtPriceAt: int -> real, baseIn: bool,
                    tickStart: int, priceStart: real, liquidityStart: real, net: real)
    returns (r: Result<LoopResult, QuoteError>)
    requires priceStart > 0.0 && liquidityStart > 0.0
    ensures match Walk(Market(ticks, sqrtPriceAt, baseIn), Position(tickStart, priceStart, liquidityStart),
        net, MAX_ITERATIONS)
            case Err(e) => r == Err(e)
            case Ok(t) => r == Ok(LoopResult(t.end.sqrtPrice, t.amountOut, t.crossed != [], Distinct(Consulted(t))))
  {
    hide MaxInBeforeBoundary, PriceAfter, OutBetween, Distinct, Consulted, PushUnique, Walk, NextTick;
    var tickCurrent, sqrtPrice, liquidity, remaining := tickStart, priceStart, liquidityStart, net;
    var amountOut := 0.0;
    var crossedTick := false;
    var touched: seq<int> := [];
    ghost var m := Market(ticks, sqrtPriceAt, baseIn);
    ghost var trip := Stay(Position(tickCurrent, sqrtPrice, liquidity));
    ghost var whole := Walk(m, trip.end, remaining, MAX_ITERATIONS);
    ghost var left := MAX_ITERATIONS;
    JoinStay(trip.end, whole);
    NothingConsulted(trip.end);
    for i := 0 to MAX_ITERATIONS
      invariant sqrtPrice > 0.0 && liquidity > 0.0
      invariant trip.end == Position(tickCurrent, sqrtPrice, liquidity)
      invariant trip.amountOut == amountOut
      invariant trip.inside.None?
      invariant touched == Distinct(Consulted(trip))
      invariant crossedTick <==> trip.crossed != []
      invariant left == MAX_ITERATIONS - i
      invariant whole == Join(trip, Walk(m, trip.end, remaining, left))
    {
      if remaining <= 0.0 { break; }
      ghost var step := StepOnce(m, trip.end, remaining);
      WalkOneStep(m, trip, remaining, left);
      var next := NextTick(ticks, tickCurrent, baseIn);
      if next.None? { return Err(MissingBoundaryTick); }
      touched := PushUnique(touched, next.value.start);
      var boundary := sqrtPriceAt(next.value.state.tick);
      if boundary <= 0.0 { return Err(InvalidPrice); }
      var maxIn: real;
      if baseIn {
        if boundary >= sqrtPrice { return Err(InvalidPrice); }
        maxIn := MaxInBeforeBoundary(true, liquidity, sqrtPrice, boundary);
        if remaining < maxIn {
          var price := PriceAfter(true, liquidity, sqrtPrice, remaining);
          amountOut := amountOut + OutBetween(true, liquidity, sqrtPrice, price);
          sqrtPrice := price;
          remaining := 0.0;
          trip := Extended(trip, step);
          break;
        }
        amountOut := amountOut + OutBetween(true, liquidity, sqrtPrice, boundary);
        remaining := remaining - maxIn;
        sqrtPrice := boundary;
        liquidity := liquidity - next.value.state.liquidityNet as real;
        tickCurrent := next.value.state.tick - 1;
      } else {
        if boundary <= sqrtPrice { return Err(InvalidPrice); }
        maxIn := MaxInBeforeBoundary(false, liquidity, sqrtPrice, boundary);
        if remaining < maxIn {
          var price := PriceAfter(false, liquidity, sqrtPrice, remaining);
          amountOut := amountOut + OutBetween(false, liquidity, sqrtPrice, price);
          sqrtPrice := price;
          remaining := 0.0;
          trip := Extended(trip, step);
          break;
        }
        amountOut := amountOut + OutBetween(false, liquidity, sqrtPrice, boundary);
        remaining := remaining - maxIn;
        sqrtPrice := boundary;
        liquidity := liquidity + next.value.state.liquidityNet as real;
        tickCurrent := next.value.state.tick;
      }
      crossedTick := true;
      if liquidity <= 0.0 { return Err(InvalidLiquidity); }
      trip := Extended(trip, step);
      left := left - 1;
    }
    if trip.inside.None? { WalkOver(m, trip, remaining, left); }
    if remaining > 0.0 { return Err(MissingBoundaryTick); }
    assert whole == Ok(trip);
    return Ok(LoopResult(sqrtPrice, amountOut, crossedTick, touched));
  }

  /** A trip lengthened by one iteration. */
  ghost function Extended(t: Trip, step: Step): Trip
    requires !step.Fail?
  {
    match step
    case Stop(end, out, at) => Trip(end, t.amountOut + out, t.crossed, Some(at))
    case Cross(end, out, used, at) => Trip(end, t.amountOut + out, t.crossed + [at], None)
  }

  lemma WalkOneStep(m: Market, t: Trip, remaining: real, budget: nat)
    requires Live(t.end) && remaining > 0.0 && budget > 0 && t.inside.None?
    ensures var step, whole := StepOnce(m, t.end, remaining), Join(t, Walk(m, t.end, remaining, budget));
            match step
            case Fail(e) => whole == Err(e)
            case Stop(_, _, at) =>
              && whole == Ok(Extended(t, step))
              && Distinct(Consulted(Extended(t, step))) == PushUnique(Distinct(Consulted(t)), at.start)
            case Cross(end, _, used, at) =>
              && whole == Join(Extended(t, step), Walk(m, end, remaining - used, budget - 1))
              && Distinct(Consulted(Extended(t, step))) == PushUnique(Distinct(Consulted(t)), at.start)
  {
    hide StepOnce, Distinct, Consulted, PushUnique;
    var step := StepOnce(m, t.end, remaining);
    match step {
      case Fail(_) =>
      case Stop(end, out, at) =>
        assert t.crossed + [] == t.crossed;
        OneMoreConsulted(t, step, at);
      case Cross(end, out, used, at) =>
        JoinAssociative(t, Trip(end, out, [at], None), Walk(m, end, remaining - used, budget - 1));
        OneMoreConsulted(t, step, at);
    }
  }

  lemma OneMoreConsulted(t: Trip, step: Step, at: Candidate)
    requires t.inside.None? && !step.Fail? && step.at == at
    ensures Distinct(Consulted(Extended(t, step))) == PushUnique(Distinct(Consulted(t)), at.start)
  {
    assert Consulted(Extended(t, step)) == Consulted(t) + [at.start];
    assert Consulted(Extended(t, step))[..|Consulted(t)|] == Consulted(t);
  }

  lemma NothingConsulted(p: Position)
    ensures Distinct(Consulted(Stay(p))) == []
  {
    assert Consulted(Stay(p)) == [];
  }

  lemma JoinStay(p: Position, r: Result<Trip, QuoteError>)
    ensures Join(Stay(p), r) == r
  {
    if r.Ok? { assert [] + r.value.crossed == r.value.crossed; }
  }

  lemma WalkOver(m: Market, t: Trip, remaining: real, budget: nat)
    requires Live(t.end) && (remaining <= 0.0 || budget == 0) && t.inside.None?
    ensures Join(t, Walk(m, t.end, remaining, budget)) == if remaining <= 0.0 then Ok(t) else Err(MissingBoundaryTick)
  {
    assert t.crossed + [] == t.crossed;
  }

  // ---------- the single-range quote ----------

  /** The quote that refuses to leave the current range, with its own order of checks. */
  function SingleRange(
    pool: Pool, arrays: seq<TickArrayState>, inputMint: string, amountIn: real, sqrtPriceAt: int -> real)
    : Result<Quote, QuoteError>
  {
    if amountIn <= 0.0 then Err(InvalidAmount)
    else if pool.liquidity == 0 then Err(InvalidLiquidity)
    else if pool.sqrtPriceX64.None? || pool.tickCurrent.None? || pool.tickSpacing.None? then Err(MissingPoolFields)
    else if inputMint != pool.baseMint && inputMint != pool.quoteMint then Err(UnsupportedMint)
    else
      var baseIn := inputMint == pool.baseMint;
      var nextTick := NextTickValue(AllTicks(arrays), pool.tickCurrent.value, baseIn);
      if nextTick.None? then Err(MissingBoundaryTick)
      else
        var start := FirstListing(arrays, nextTick.value);
        if start.None? then Err(MissingTickArray)
        else
          var s, b := pool.sqrtPriceX64.value as real / Q64, sqrtPriceAt(nextTick.value);
          if s <= 0.0 || b <= 0.0 || !Ahead(baseIn, s, b) then Err(InvalidPrice)
          else
            var net := amountIn * (1.0 - pool.feeBps / 10000.0);
            if net >= MaxInBeforeBoundary(baseIn, pool.liquidity as real, s, b) then Err(TickCrossingRequired)
            else
              // A net amount that is not positive yields no output or a price that is not positive;
              // the final check rejects both, and the infinities of a zero divisor.
              if net <= 0.0 then Err(InvalidPrice)
              else
                var next := PriceAfter(baseIn, pool.liquidity as real, s, net);
                var out := OutBetween(baseIn, pool.liquidity as real, s, next);
                if out <= 0.0 then Err(InvalidPrice)
                else Ok(Quote(amountIn, out, amountIn - net, ToX64(next), false, [start.value]))
  }

  /** The first iteration of the multi-range quote would reach the boundary of the current range. */
  predicate ReachesBoundary(m: Market, p: Position, net: real)
    requires Live(p)
  {
    var next := NextTick(m.ticks, p.tick, m.baseIn);
    && next.Some?
    && m.sqrtPriceAt(next.value.state.tick) > 0.0
    && Ahead(m.baseIn, p.sqrtPrice, m.sqrtPriceAt(next.value.state.tick))
    && net >= MaxInBeforeBoundary(m.baseIn, p.liquidity, p.sqrtPrice, m.sqrtPriceAt(next.value.state.tick))
  }

  lemma NetBothWays(pool: Pool, amountIn: real)
    ensures amountIn * (1.0 - pool.feeBps / 10000.0) == NetOfFee(pool, amountIn)
  {
    var f := pool.feeBps / 10000.0;
    assert amountIn * (1.0 - f) == amountIn - amountIn * f;
  }

  /** The single-range quote asks for a crossing exactly when the multi-range walk would make one. */
  lemma CrossingRequiredExactly(
    pool: Pool, arrays: seq<TickArrayState>, inputMint: string, amountIn: real, sqrtPriceAt: int -> real)
    ensures var setup := Open(pool, arrays, inputMint, amountIn, sqrtPriceAt);
            SingleRange(pool, arrays, inputMint, amountIn, sqrtPriceAt) == Err(TickCrossingRequired) <==>
              setup.Ok? && ReachesBoundary(setup.value.0, setup.value.1, NetOfFee(pool, amountIn))
  {
    hide MaxInBeforeBoundary, PriceAfter, OutBetween, ToX64, AllTicks, NextTick, NextTickValue, FirstListing, FeeAmount;
    NetBothWays(pool, amountIn);
    if pool.tickCurrent.Some? {
      BoundaryFound(arrays, pool.tickCurrent.value, inputMint == pool.baseMint);
    }
  }

  /** The boundary tick of either search is listed in some array. */
  lemma BoundaryFound(arrays: seq<TickArrayState>, tickCurrent: int, baseIn: bool)
    ensures var a, b := NextTick(AllTicks(arrays), tickCurrent, baseIn),
        NextTickValue(AllTicks(arrays), tickCurrent, baseIn);
            && (a.Some? <==> b.Some?)
            && (a.Some? ==> a.value.state.tick == b.value && FirstListing(arrays, b.value).Some?)
  {
    SearchesAgree(AllTicks(arrays), tickCurrent, baseIn);
    var a := NextTick(AllTicks(arrays), tickCurrent, baseIn);
    if a.Some? { ListedIffIterated(arrays, a.value.state.tick); }
  }

  /** The two quotes name the same array for a boundary tick unless it is base input listed twice over. */
  predicate SameArrayNamed(arrays: seq<TickArrayState>, tick: int, baseIn: bool) {
    !baseIn || FirstListing(arrays, tick) == LastListing(arrays, tick)
  }

  function ListingFor(arrays: seq<TickArrayState>, tick: int, baseIn: bool): Option<int> {
    if baseIn then LastListing(arrays, tick) else FirstListing(arrays, tick)
  }

  /** Which listing of its tick either direction consults. */
  lemma ListingConsulted(arrays: seq<TickArrayState>, tickCurrent: int, baseIn: bool)
    ensures var next := NextTick(AllTicks(arrays), tickCurrent, baseIn);
            next.Some? ==> ListingFor(arrays, next.value.state.tick, baseIn) == Some(next.value.start)
  {
    hide NextTick, AllTicks, FirstListing, LastListing;
    if baseIn { DownwardSearchNamesLastListing(arrays, AllTicks(arrays), tickCurrent); }
    else { UpwardSearchNamesFirstListing(arrays, AllTicks(arrays), tickCurrent); }
  }

  /**
    A single-range quote is also the multi-range quote, in every field but possibly the touched array:
    the single-range quote names the first array that lists the boundary tick, the multi-range quote
    the last one for base input. They are equal exactly for quote input or when those are the same.
   */
  lemma SingleRangeRefined(
    pool: Pool, arrays: seq<TickArrayState>, inputMint: string, amountIn: real, sqrtPriceAt: int -> real)
    requires SingleRange(pool, arrays, inputMint, amountIn, sqrtPriceAt).Ok?
    ensures pool.tickCurrent.Some?
    ensures NextTickValue(AllTicks(arrays), pool.tickCurrent.value, inputMint == pool.baseMint).Some?
    ensures var single, multi := SingleRange(pool, arrays, inputMint, amountIn, sqrtPriceAt),
                                 MultiRange(pool, arrays, inputMint, amountIn, sqrtPriceAt);
            var baseIn := inputMint == pool.baseMint;
            var tick := NextTickValue(AllTicks(arrays), pool.tickCurrent.value, baseIn).value;
            var named, consulted := FirstListing(arrays, tick), ListingFor(arrays, tick, baseIn);
            && multi.Ok?
            && named.Some? && single.value.touchedStarts == [named.value]
            && consulted.Some? && multi.value.touchedStarts == [consulted.value]
            && multi.value.(touchedStarts := single.value.touchedStarts) == single.value
            && (multi == single <==> SameArrayNamed(arrays, tick, baseIn))
  {
    hide MaxInBeforeBoundary, PriceAfter, OutBetween, FirstListing, LastListing, NextTickValue, AllTicks, NextTick;
    NetBothWays(pool, amountIn);
    BoundaryFound(arrays, pool.tickCurrent.value, inputMint == pool.baseMint);
    ListingConsulted(arrays, pool.tickCurrent.value, inputMint == pool.baseMint);
    var (m, p) := Open(pool, arrays, inputMint, amountIn, sqrtPriceAt).value;
    var step := StepOnce(m, p, NetOfFee(pool, amountIn));
    assert step.Stop?;
    var trip := Trip(step.end, step.out, [], Some(step.at));
    assert Walk(m, p, NetOfFee(pool, amountIn), MAX_ITERATIONS) == Ok(trip);
    assert Consulted(trip) == [step.at.start];
    assert Distinct([step.at.start]) == [step.at.start] by {
      assert [step.at.start][..0] == [];
    }
  }

  /** Where every tick is listed once, a single-range quote always is the multi-range quote. */
  lemma OneListingAgrees(
    pool: Pool, arrays: seq<TickArrayState>, inputMint: string, amountIn: real, sqrtPriceAt: int -> real)
    requires OneListingPerTick(AllTicks(arrays))
    requires SingleRange(pool, arrays, inputMint, amountIn, sqrtPriceAt).Ok?
    ensures MultiRange(pool, arrays, inputMint, amountIn, sqrtPriceAt)
            == SingleRange(pool, arrays, inputMint, amountIn, sqrtPriceAt)
  {
    hide SingleRange, MultiRange, FirstListing, LastListing;
    SingleRangeRefined(pool, arrays, inputMint, amountIn, sqrtPriceAt);
    OneListing(arrays, NextTickValue(AllTicks(arrays), pool.tickCurrent.value, inputMint == pool.baseMint).value);
  }

  /** For quote input the two quotes always agree, also when a tick is listed in several arrays. */
  lemma QuoteInputAgrees(pool: Pool, arrays: seq<TickArrayState>, amountIn: real, sqrtPriceAt: int -> real)
    requires pool.baseMint != pool.quoteMint
    requires SingleRange(pool, arrays, pool.quoteMint, amountIn, sqrtPriceAt).Ok?
    ensures MultiRange(pool, arrays, pool.quoteMint, amountIn, sqrtPriceAt)
            == SingleRange(pool, arrays, pool.quoteMint, amountIn, sqrtPriceAt)
  {
    hide SingleRange, MultiRange, NextTickValue;
    SingleRangeRefined(pool, arrays, pool.quoteMint, amountIn, sqrtPriceAt);
  }

  /** A pool of one unit of liquidity at price one, with its current tick given. */
  function UnitPool(tickCurrent: int): Pool {
    Pool("base", "quote", Some(0x1_0000_0000_0000_0000), 1, Some(tickCurrent), Some(1), 0.0)
  }

  function ListedTwice(first: int, second: int, tick: TickState): seq<TickArrayState> {
    [TickArrayState(first, [tick])] + [TickArrayState(second, [tick])]
  }

  /** One tick listed by two arrays, and any swap of base input within the range above it. */
  lemma ListedTwiceDiffers(first: int, second: int, tick: TickState, sqrtPriceAt: int -> real, amount: real)
    requires first != second && 0.0 < sqrtPriceAt(tick.tick) < 1.0
    requires 0.0 < amount && amount * sqrtPriceAt(tick.tick) < 1.0 - sqrtPriceAt(tick.tick)
    ensures var pool, arrays := UnitPool(tick.tick), ListedTwice(first, second, tick);
            var single, multi := SingleRange(pool, arrays, "base", amount, sqrtPriceAt),
                                 MultiRange(pool, arrays, "base", amount, sqrtPriceAt);
            && single.Ok? && multi.Ok?
            && single.value.touchedStarts == [first] && multi.value.touchedStarts == [second]
  {
    hide NextTickValue, NextTick, AllTicks, FirstListing, LastListing, MultiRange, ToX64, ListedTwice,
         MaxInBeforeBoundary, PriceAfter, OutBetween;
    TwoListings(first, second, tick);
    BoundaryFound(ListedTwice(first, second, tick), tick.tick, true);
    WithinUnitRange(sqrtPriceAt(tick.tick), amount);
    SingleRangeRefined(UnitPool(tick.tick), ListedTwice(first, second, tick), "base", amount, sqrtPriceAt);
  }

  lemma WithinUnitRange(b: real, amount: real)
    requires 0.0 < b < 1.0 && 0.0 < amount && amount * b < 1.0 - b
    ensures amount < MaxInBeforeBoundary(true, 1.0, 1.0, b)
    ensures OutBetween(true, 1.0, 1.0, PriceAfter(true, 1.0, 1.0, amount)) > 0.0
  {
    var q := (1.0 - b) / b;
    assert q * b == 1.0 - b;
    if amount >= q { ScaledOrder(q, amount, b); }
    var e := 1.0 / (1.0 + amount);
    assert e * (1.0 + amount) == 1.0;
    if e >= 1.0 { ScaledOrder(1.0, e, 1.0 + amount); }
  }

  lemma TwoListings(first: int, second: int, tick: TickState)
    ensures var arrays := ListedTwice(first, second, tick);
            && NextTick(AllTicks(arrays), tick.tick, true) == Some(Candidate(tick, second))
            && FirstListing(arrays, tick.tick) == Some(first)
            && LastListing(arrays, tick.tick) == Some(second)
  {
    var a, b := TickArrayState(first, [tick]), TickArrayState(second, [tick]);
    var arrays := [a] + [b];
    assert tick in a.initializedTicks && tick in b.initializedTicks;
    assert AllTicks(arrays[1..]) == [Candidate(tick, second)]
      by { assert arrays[1..] == [b] && AllTicks([b][1..]) == []; }
    assert AllTicks(arrays) == [Candidate(tick, first), Candidate(tick, second)];
  }

  // ---------- consequences for a whole quote ----------

  /** A successful multi-range quote spends exactly the net input, between the marginal prices. */
  lemma QuoteBetweenMarginalPrices(
    pool: Pool, arrays: seq<TickArrayState>, inputMint: string, amountIn: real, sqrtPriceAt: int -> real,
    m: Market, p: Position, q: Quote)
    requires Open(pool, arrays, inputMint, amountIn, sqrtPriceAt) == Ok((m, p))
    requires MultiRange(pool, arrays, inputMint, amountIn, sqrtPriceAt) == Ok(q)
    ensures q.amountIn == amountIn && q.feeAmount < amountIn
    ensures Walk(m, p, amountIn - q.feeAmount, MAX_ITERATIONS).Ok?
    ensures var end := Walk(m, p, amountIn - q.feeAmount, MAX_ITERATIONS).value.end;
            && q.sqrtPriceNextX64 == ToX64(end.sqrtPrice)
            && BetweenMarginalPrices(m.baseIn, p.sqrtPrice, end.sqrtPrice, q.amountOut, amountIn - q.feeAmount)
  {
    hide BetweenMarginalPrices, ToX64, FeeAmount, StepOnce, Distinct, Consulted;
    var net := NetOfFee(pool, amountIn);
    if net > 0.0 { OutputBetweenMarginalPrices(m, p, net, MAX_ITERATIONS); }
  }

  // ---------- when a quote exists, and what it says ----------

  /** A walk of the net input through at most 128 ticks is quoted, field by field. */
  lemma WalkIsQuoted(
    pool: Pool, arrays: seq<TickArrayState>, inputMint: string, amountIn: real, sqrtPriceAt: int -> real,
    m: Market, p: Position, n: nat, t: Trip)
    requires Open(pool, arrays, inputMint, amountIn, sqrtPriceAt) == Ok((m, p))
    requires n <= 128 && Walk(m, p, amountIn * (1.0 - pool.feeBps / 10000.0), n) == Ok(t) && t.amountOut > 0.0
    ensures var r := MultiRange(pool, arrays, inputMint, amountIn, sqrtPriceAt);
            && r.Ok?
            && r.value.amountIn == amountIn
            && r.value.amountOut == t.amountOut
            && r.value.feeAmount == amountIn * pool.feeBps / 10000.0
            && r.value.sqrtPriceNextX64 == ToX64(t.end.sqrtPrice)
            && (r.value.crossedTick <==> t.crossed != [])
            && var touched := r.value.touchedStarts;
               && (forall x :: x in touched <==> x in Consulted(t))
               && forall i, j :: 0 <= i < j < |touched| ==> touched[i] != touched[j]
  {
    hide Open, Walk, ToX64, Consulted, Distinct;
    NetBothWays(pool, amountIn);
    MoreBudget(m, p, NetOfFee(pool, amountIn), n, MAX_ITERATIONS);
    FeeShare(pool, amountIn);
  }

  lemma FeeShare(pool: Pool, amountIn: real)
    ensures FeeAmount(pool, amountIn) == amountIn * pool.feeBps / 10000.0
  {
    var f := pool.feeBps / 10000.0;
    assert f * 10000.0 == pool.feeBps;
    assert (amountIn * f) * 10000.0 == amountIn * pool.feeBps;
  }

  /** Every quote is of such a walk, so it crosses at most 128 ticks. */
  lemma QuoteIsOfAWalk(
      pool: Pool, arrays: seq<TickArrayState>, inputMint: string, amountIn: real, sqrtPriceAt: int -> real)
    returns (m: Market, p: Position, t: Trip)
    requires MultiRange(pool, arrays, inputMint, amountIn, sqrtPriceAt).Ok?
    ensures Open(pool, arrays, inputMint, amountIn, sqrtPriceAt) == Ok((m, p))
    ensures Walk(m, p, amountIn * (1.0 - pool.feeBps / 10000.0), 128) == Ok(t)
    ensures t.amountOut > 0.0 && |t.crossed| <= 128
  {
    hide Open, ToX64, Consulted, Distinct, StepOnce;
    NetBothWays(pool, amountIn);
    var start := Open(pool, arrays, inputMint, amountIn, sqrtPriceAt).value;
    m, p := start.0, start.1;
    t := Walk(m, p, NetOfFee(pool, amountIn), MAX_ITERATIONS).value;
  }

  /** A walk that needs more than 128 iterations is refused for want of a boundary. */
  lemma TooManyCrossings(
    pool: Pool, arrays: seq<TickArrayState>, inputMint: string, amountIn: real, sqrtPriceAt: int -> real,
    m: Market, p: Position, n: nat, t: Trip)
    requires Open(pool, arrays, inputMint, amountIn, sqrtPriceAt) == Ok((m, p))
    requires Walk(m, p, amountIn * (1.0 - pool.feeBps / 10000.0), n) == Ok(t)
    requires |t.crossed| + (if t.inside.Some? then 1 else 0) > 128
    ensures MultiRange(pool, arrays, inputMint, amountIn, sqrtPriceAt) == Err(MissingBoundaryTick)
  {
    hide Open, ToX64, Consulted, Distinct, Walk;
    NetBothWays(pool, amountIn);
    ShortOfBudget(m, p, NetOfFee(pool, amountIn), n, MAX_ITERATIONS, t);
  }

  lemma {:induction false} ShortOfBudget(m: Market, p: Position, r: real, n: nat, k: nat, t: Trip)
    requires Live(p) && Walk(m, p, r, n) == Ok(t) && |t.crossed| + (if t.inside.Some? then 1 else 0) > k
    ensures Walk(m, p, r, k) == Err(MissingBoundaryTick)
    decreases n
  {
    hide StepOnce;
    var step := StepOnce(m, p, r);
    if step.Cross? && k > 0 {
      var rest := Walk(m, step.end, r - step.used, n - 1).value;
      assert t.crossed == [step.at] + rest.crossed;
      ShortOfBudget(m, step.end, r - step.used, n - 1, k - 1, rest);
    }
  }

  /** What a quote starts from, as the pool spells it. */
  lemma OpenExactly(
      pool: Pool, arrays: seq<TickArrayState>, inputMint: string, amountIn: real, sqrtPriceAt: int -> real)
    ensures var r := Open(pool, arrays, inputMint, amountIn, sqrtPriceAt);
            && (r.Ok? <==>
                  && amountIn > 0.0
                  && pool.sqrtPriceX64.Some? && pool.sqrtPriceX64.value > 0
                  && pool.tickCurrent.Some? && pool.tickSpacing.Some? && pool.liquidity > 0
                  && (inputMint == pool.baseMint || inputMint == pool.quoteMint))
            && (r.Ok? ==>
                  var (m, p) := r.value;
                  && m == Market(AllTicks(arrays), sqrtPriceAt, inputMint == pool.baseMint)
                  && p.tick == pool.tickCurrent.value
                  && p.sqrtPrice * 18446744073709551616.0 == pool.sqrtPriceX64.value as real
                  && p.liquidity == pool.liquidity as real)
  {}

  /** The end price is reported in units of 2^-64, rounded down, up to the largest 128-bit number. */
  lemma ReportedPrice(s: real)
    requires s > 0.0
    ensures var x := ToX64(s) as real;
            if s * 18446744073709551616.0 < 340282366920938463463374607431768211456.0
            then x <= s * 18446744073709551616.0 < x + 1.0
            else ToX64(s) == 340282366920938463463374607431768211455
  {}

  /**
    All that the single-range quote refuses, but a crossing, the multi-range quote refuses too, and with the
    same error unless the pool has no liquidity or no price, which the two check at different points.
   */
  lemma RefusalsAgree(
    pool: Pool, arrays: seq<TickArrayState>, inputMint: string, amountIn: real, sqrtPriceAt: int -> real, e: QuoteError)
    requires SingleRange(pool, arrays, inputMint, amountIn, sqrtPriceAt) == Err(e) && e != TickCrossingRequired
    requires pool.feeBps < 10000.0
    ensures MultiRange(pool, arrays, inputMint, amountIn, sqrtPriceAt).Err?
    ensures pool.liquidity > 0 && pool.sqrtPriceX64 != Some(0) ==>
              MultiRange(pool, arrays, inputMint, amountIn, sqrtPriceAt) == Err(e)
  {
    hide MaxInBeforeBoundary, OutBetween, PriceAfter, AllTicks, NextTick, NextTickValue, FirstListing,
        Consulted, Distinct;
    NetBothWays(pool, amountIn);
    if Open(pool, arrays, inputMint, amountIn, sqrtPriceAt).Ok? {
      var (m, p) := Open(pool, arrays, inputMint, amountIn, sqrtPriceAt).value;
      BoundaryFound(arrays, p.tick, m.baseIn);
      PositiveShare(pool, amountIn);
      var net := NetOfFee(pool, amountIn);
      StopPaysSomething(m, p, net);
      assert Walk(m, p, net, MAX_ITERATIONS) == Err(e);
    }
  }

  lemma PositiveShare(pool: Pool, amountIn: real)
    requires amountIn > 0.0 && pool.feeBps < 10000.0
    ensures NetOfFee(pool, amountIn) > 0.0
  {
    NetBothWays(pool, amountIn);
    ProductPositive(amountIn, 1.0 - pool.feeBps / 10000.0);
  }

  lemma StopPaysSomething(m: Market, p: Position, r: real)
    requires Live(p) && r > 0.0
    ensures StepOnce(m, p, r).Stop? ==> StepOnce(m, p, r).out > 0.0
  {
    hide StepOnce, PricedBetween;
    if StepOnce(m, p, r).Stop? {
      var step := StepOnce(m, p, r);
      assert Walk(m, p, r, 1) == Ok(Trip(step.end, step.out, [], Some(step.at)));
      TripByCoord(m, p, r, 1);
    }
  }
}
