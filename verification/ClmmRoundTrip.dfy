/**
  Swapping back: apart from fees, a swap of everything received returns exactly what was spent and
  restores price and liquidity, across any number of crossings.
 */
module ClmmRoundTrip {
  import opened Wrappers
  import opened ClmmTicks
  import opened ClmmMath
  import opened ClmmWalk
  import opened ClmmTheorems

  /** The same market in the other direction. */
  function Reversed(m: Market): Market {
    m.(baseIn := !m.baseIn)
  }

  // ---------- one range, backward ----------

  lemma CoordOfReversed(baseIn: bool, s: real)
    requires s > 0.0
    ensures Coord(!baseIn, s) == 1.0 / Coord(baseIn, s)
  {
    InverseOfInverse(s);
  }

  /** Paying back what a stretch paid out moves the inverse coordinate back over the stretch. */
  lemma StretchBackward(liquidity: real, x: real, y: real)
    requires liquidity > 0.0 && 0.0 < x < y
    ensures 1.0 / x > 0.0 && 1.0 / y > 0.0
    ensures Reach(liquidity, 1.0 / y, Paid(liquidity, x, y)) == 1.0 / x
    ensures Gain(liquidity, 1.0 / y, 1.0 / x) == Paid(liquidity, x, y)
    ensures Paid(liquidity, 1.0 / y, 1.0 / x) == Gain(liquidity, x, y)
  {
    InverseOfInverse(x);
    InverseOfInverse(y);
    var u, v := 1.0 / x, 1.0 / y;
    QuotientUnique(liquidity * (u - v), liquidity, u - v);
  }

  /** Price and liquidity to which a full swap back from `q` over the range of `p` leads. */
  function ReturnStep(m: Market, p: Position, q: Position, c: Candidate): Step
    requires Live(p) && Live(q)
  {
    var back, input := Reversed(m), Gain(p.liquidity, At(m, p), At(m, q));
    if m.sqrtPriceAt(c.state.tick) == p.sqrtPrice
    then Cross(PositionBehind(back, p, c), input, Paid(p.liquidity, At(m, p), At(m, q)), c)
    else Stop(q.(sqrtPrice := p.sqrtPrice), input, c)
  }

  /** Tick `c` bounds the range of `p` from behind, at or beyond its price. */
  predicate BoundedBehind(m: Market, p: Position, c: Candidate)
    requires Live(p)
  {
    && NextTick(m.ticks, p.tick, !m.baseIn) == Some(c)
    && m.sqrtPriceAt(c.state.tick) > 0.0
    && !Ahead(m.baseIn, p.sqrtPrice, m.sqrtPriceAt(c.state.tick))
    && (m.sqrtPriceAt(c.state.tick) == p.sqrtPrice ==> PositionBehind(Reversed(m), p, c).liquidity > 0.0)
  }

  /** One backward iteration over the rest of the range of `p`, from a position `q` ahead in it. */
  lemma StepBackward(m: Market, p: Position, q: Position, c: Candidate)
    requires Live(p) && Live(q) && q.liquidity == p.liquidity && At(m, p) < At(m, q)
    requires BoundedBehind(m, p, c)
    requires NextTick(m.ticks, q.tick, !m.baseIn) == Some(c)
    ensures Paid(p.liquidity, At(m, p), At(m, q)) > 0.0
    ensures StepOnce(Reversed(m), q, Paid(p.liquidity, At(m, p), At(m, q))) == ReturnStep(m, p, q, c)
  {
    hide MaxInBeforeBoundary, PriceAfter, OutBetween, Coord, Gain, Paid, Reach, NextTick;
    var back, b := Reversed(m), m.sqrtPriceAt(c.state.tick);
    var x, y, out := At(m, p), At(m, q), Paid(p.liquidity, At(m, p), At(m, q));
    PaidBetweenMarginals(p.liquidity, x, y);
    CoordOfReversed(m.baseIn, p.sqrtPrice);
    CoordOfReversed(m.baseIn, q.sqrtPrice);
    StretchBackward(p.liquidity, x, y);
    InverseOrder(x, y);
    StepKind(back, q, out, c);
    CoordOrder(back.baseIn, p.sqrtPrice, b);
    if b != p.sqrtPrice {
      StepByCoord(back, q, out);
      var step := StepOnce(back, q, out);
      CoordInjective(back.baseIn, step.end.sqrtPrice, p.sqrtPrice);
      StepBoundary(back, q, out);
    }
  }

  // ---------- neighbouring ticks ----------

  /** Right behind a crossed tick, the next tick backward is that tick. */
  lemma CrossedTickIsBehind(m: Market, p: Position, c: Candidate)
    requires OneListingPerTick(m.ticks) && c in m.ticks
    ensures NextTick(m.ticks, PositionBehind(m, p, c).tick, !m.baseIn) == Some(c)
  {}

  /** Having crossed back, the next tick backward is the one behind the range started in. */
  lemma SameTickBehind(m: Market, p: Position, q: Position, c: Candidate)
    requires OneListingPerTick(m.ticks)
    requires NextTick(m.ticks, p.tick, m.baseIn) == Some(c)
    ensures NextTick(m.ticks, PositionBehind(Reversed(m), q, c).tick, !m.baseIn) == NextTick(m.ticks, p.tick, !m.baseIn)
  {
    var t := PositionBehind(Reversed(m), q, c).tick;
    var a, b := NextTick(m.ticks, t, !m.baseIn), NextTick(m.ticks, p.tick, !m.baseIn);
    forall d | d in m.ticks
      ensures Eligible(d.state.tick, t, !m.baseIn) <==> Eligible(d.state.tick, p.tick, !m.baseIn) {
      if Eligible(d.state.tick, p.tick, m.baseIn) { assert NoFarther(c.state.tick, d.state.tick, m.baseIn); }
    }
  }

  // ---------- the whole way back ----------

  /** Crossings of a swap back from a trip that started at `p`. */
  function CrossingsBack(m: Market, p: Position, t: Trip, c: Candidate): nat {
    |t.crossed| + if m.sqrtPriceAt(c.state.tick) == p.sqrtPrice then 1 else 0
  }

  lemma {:induction false} WayBack(m: Market, p: Position, r: real, budget: nat, c: Candidate)
    requires OneListingPerTick(m.ticks)
    requires Live(p) && r > 0.0 && BoundedBehind(m, p, c)
    requires Walk(m, p, r, budget).Ok? && Walk(m, p, r, budget).value.inside.Some?
    ensures var t := Walk(m, p, r, budget).value;
            var back := Walk(Reversed(m), t.end, t.amountOut, |t.crossed| + 1);
            && t.amountOut > 0.0
            && back.Ok?
            && back.value.amountOut == r
            && back.value.end.sqrtPrice == p.sqrtPrice
            && |back.value.crossed| == CrossingsBack(m, p, t, c)
            && (if m.sqrtPriceAt(c.state.tick) == p.sqrtPrice
                then back.value.end == PositionBehind(Reversed(m), p, c) && back.value.inside.None?
                else back.value.end.liquidity == p.liquidity && back.value.inside == Some(c))
    decreases budget
  {
    hide StepOnce, Coord, Gain, Paid, Reach, PricedBetween, NextTick;
    var m', t, step := Reversed(m), Walk(m, p, r, budget).value, StepOnce(m, p, r);
    StepByCoord(m, p, r);
    StepBoundary(m, p, r);
    GainOfReach(p.liquidity, At(m, p), r);
    if step.Stop? {
      StepBackward(m, p, t.end, c);
      OneStepWalk(m', t.end, t.amountOut, ReturnStep(m, p, t.end, c));
    } else {
      var r1 := r - step.used;
      var rest := Walk(m, step.end, r1, budget - 1).value;
      CrossedTickIsBehind(m, p, step.at);
      assert PositionBehind(m', step.end, step.at).liquidity == p.liquidity;
      WayBack(m, step.end, r1, budget - 1, step.at);
      var first := Walk(m', t.end, rest.amountOut, |rest.crossed| + 1).value;
      var q := first.end;
      assert q == PositionBehind(m', step.end, step.at);
      SameTickBehind(m, p, step.end, step.at);
      StepBackward(m, p, q, c);
      OneStepWalk(m', q, step.out, ReturnStep(m, p, q, c));
      assert rest.amountOut + step.out == t.amountOut;
      var second := Walk(m', q, step.out, 1).value;
      ThenOneMore(m', t.end, rest.amountOut, step.out, first, second, |rest.crossed| + 1);
    }
  }

  /** A walk that ended on a crossing, lengthened by one iteration. */
  lemma ThenOneMore(m: Market, p: Position, a: real, b: real, first: Trip, second: Trip, budget: nat)
    requires Live(p) && a > 0.0 && b > 0.0
    requires Walk(m, p, a, budget) == Ok(first) && |first.crossed| == budget
    requires Walk(m, first.end, b, 1) == Ok(second)
    ensures Walk(m, p, a + b, budget + 1) == Join(first, Ok(second))
  {
    hide StepOnce, Walk;
    MoreBudget(m, p, a, budget, budget + 1);
    SplitSwap(m, p, a, b, budget + 1);
  }

  /** A walk of one iteration that uses up its input. */
  lemma OneStepWalk(m: Market, q: Position, amount: real, step: Step)
    requires Live(q) && amount > 0.0 && StepOnce(m, q, amount) == step
    requires step.Stop? || (step.Cross? && step.used == amount)
    ensures Walk(m, q, amount, 1)
            == Ok(if step.Stop? then Trip(step.end, step.out, [], Some(step.at))
                else Trip(step.end, step.out, [step.at], None))
  {
    if step.Cross? {
      assert Walk(m, step.end, amount - step.used, 0) == Ok(Stay(step.end));
      assert [step.at] + [] == [step.at];
    }
  }

  /**
    A swap that ends inside a range, followed by a swap of its whole output the other way, returns
    exactly the input and ends at the price and liquidity it started from, in as many iterations. The
    start must lie strictly within its range, and every tick be listed once.
   */
  lemma SwapBackRestores(m: Market, p: Position, r: real, budget: nat, c: Candidate)
    requires OneListingPerTick(m.ticks)
    requires Live(p) && r > 0.0
    requires NextTick(m.ticks, p.tick, !m.baseIn) == Some(c)
    requires m.sqrtPriceAt(c.state.tick) > 0.0 && Ahead(!m.baseIn, p.sqrtPrice, m.sqrtPriceAt(c.state.tick))
    requires Walk(m, p, r, budget).Ok? && Walk(m, p, r, budget).value.inside.Some?
    ensures var t := Walk(m, p, r, budget).value;
            var back := Walk(Reversed(m), t.end, t.amountOut, budget);
            && back.Ok?
            && back.value.amountOut == r
            && back.value.end.sqrtPrice == p.sqrtPrice
            && back.value.end.liquidity == p.liquidity
            && |back.value.crossed| == |t.crossed|
  {
    hide NextTick, StepOnce;
    WayBack(m, p, r, budget, c);
    InsideLeavesBudget(m, p, r, budget);
    var t := Walk(m, p, r, budget).value;
    MoreBudget(Reversed(m), t.end, t.amountOut, |t.crossed| + 1, budget);
  }

  lemma {:induction false} InsideLeavesBudget(m: Market, p: Position, r: real, budget: nat)
    requires Live(p) && Walk(m, p, r, budget).Ok? && Walk(m, p, r, budget).value.inside.Some?
    ensures |Walk(m, p, r, budget).value.crossed| < budget
    decreases budget
  {
    hide StepOnce;
    var step := StepOnce(m, p, r);
    if step.Cross? { InsideLeavesBudget(m, step.end, r - step.used, budget - 1); }
  }

  /**
    Stopping exactly on a tick is different: the pool then stands on the boundary it would have to
    cross back over, and the quote the other way is refused however small it is.
   */
  lemma NoWayBackFromATick(m: Market, p: Position, r: real, budget: nat, z: real, n: nat)
    requires OneListingPerTick(m.ticks)
    requires Live(p) && r > 0.0 && z > 0.0 && n > 0
    requires Walk(m, p, r, budget).Ok? && Walk(m, p, r, budget).value.inside.None?
    ensures Walk(Reversed(m), Walk(m, p, r, budget).value.end, z, n) == Err(InvalidPrice)
    decreases budget
  {
    hide StepOnce, NextTick;
    var step := StepOnce(m, p, r);
    StepBoundary(m, p, r);
    if r - step.used > 0.0 {
      NoWayBackFromATick(m, step.end, r - step.used, budget - 1, z, n);
    } else {
      RefusedOnATick(m, p, step.at, z);
      assert Walk(m, p, r, budget).value.end == step.end;
    }
  }

  lemma RefusedOnATick(m: Market, p: Position, c: Candidate, z: real)
    requires OneListingPerTick(m.ticks) && c in m.ticks
    requires Live(PositionBehind(m, p, c)) && z > 0.0
    ensures StepOnce(Reversed(m), PositionBehind(m, p, c), z) == Fail(InvalidPrice)
  {
    hide MaxInBeforeBoundary, PriceAfter, OutBetween;
    CrossedTickIsBehind(m, p, c);
  }

  // ---------- exactly when the way back is open ----------

  /** A price at which some tick is listed. */
  predicate OnATick(m: Market, s: real) {
    exists c :: c in m.ticks && m.sqrtPriceAt(c.state.tick) == s
  }

  lemma {:induction false} InsideFacesAhead(m: Market, p: Position, r: real, budget: nat)
    requires Live(p) && Walk(m, p, r, budget).Ok? && Walk(m, p, r, budget).value.inside.Some?
    ensures Facing(m, Walk(m, p, r, budget).value.end)
    decreases budget
  {
    hide StepOnce, NextTick;
    var step := StepOnce(m, p, r);
    StepBoundary(m, p, r);
    if step.Cross? { InsideFacesAhead(m, step.end, r - step.used, budget - 1); }
  }

  lemma {:induction false} OutsideEndsOnATick(m: Market, p: Position, r: real, budget: nat)
    requires Live(p) && r > 0.0 && Walk(m, p, r, budget).Ok? && Walk(m, p, r, budget).value.inside.None?
    ensures OnATick(m, Walk(m, p, r, budget).value.end.sqrtPrice)
    decreases budget
  {
    hide StepOnce;
    var step := StepOnce(m, p, r);
    StepBoundary(m, p, r);
    if r - step.used > 0.0 {
      OutsideEndsOnATick(m, step.end, r - step.used, budget - 1);
    } else {
      assert step.at in m.ticks;
    }
  }

  /** Between two ticks that are both ahead in their direction, the price is that of no tick. */
  lemma FacingBothWaysIsOffTicks(m: Market, q: Position)
    requires Increasing(m) && Positive(m)
    requires Facing(m, q) && Facing(Reversed(m), q)
    ensures !OnATick(m, q.sqrtPrice)
  {
    forall c | c in m.ticks ensures m.sqrtPriceAt(c.state.tick) != q.sqrtPrice {
      var baseIn := Eligible(c.state.tick, q.tick, true);
      var d := NextTick(m.ticks, q.tick, baseIn).value;
      assert NoFarther(d.state.tick, c.state.tick, baseIn);
    }
  }

  /**
    Swapping everything back returns the input and restores price and liquidity exactly when the first
    swap did not stop at the price of a tick; if it did, the quote the other way is refused.
   */
  lemma SwapBackExactly(m: Market, p: Position, r: real, budget: nat, c: Candidate)
    requires OneListingPerTick(m.ticks) && Increasing(m) && Positive(m)
    requires Live(p) && r > 0.0 && Walk(m, p, r, budget).Ok?
    requires NextTick(m.ticks, p.tick, !m.baseIn) == Some(c)
    requires Ahead(!m.baseIn, p.sqrtPrice, m.sqrtPriceAt(c.state.tick))
    ensures var t := Walk(m, p, r, budget).value;
            var back := Walk(Reversed(m), t.end, t.amountOut, budget);
            && (back.Ok? && back.value.amountOut == r && back.value.end.sqrtPrice == p.sqrtPrice
                && back.value.end.liquidity == p.liquidity
                <==> !OnATick(m, t.end.sqrtPrice))
            && (back == Err(InvalidPrice) <==> OnATick(m, t.end.sqrtPrice))
            && (Facing(Reversed(m), t.end) <==> !OnATick(m, t.end.sqrtPrice))
  {
    hide Walk, NextTick, StepOnce, Facing, OnATick, Increasing, Positive;
    var t := Walk(m, p, r, budget).value;
    assert budget > 0 && t.amountOut > 0.0 by { SpendingTakesAnIteration(m, p, r, budget); }
    ReversedKeepsPrices(m);
    InvalidPriceOnlyAtStart(Reversed(m), t.end, t.amountOut, budget);
    if t.inside.Some? {
      SwapBackRestores(m, p, r, budget, c);
      InsideFacesAhead(m, p, r, budget);
      FacingBothWaysIsOffTicks(m, t.end);
    } else {
      NoWayBackFromATick(m, p, r, budget, t.amountOut, budget);
      OutsideEndsOnATick(m, p, r, budget);
    }
  }

  /**
    From a start at the price of the tick behind, where every crossing of quote input ends, swapping
    everything back returns the input and the price and steps behind that tick, with the liquidity of the
    range there, exactly when the first swap did not stop at the price of a tick.
   */
  lemma SwapBackToATickExactly(m: Market, p: Position, r: real, budget: nat, c: Candidate)
    requires OneListingPerTick(m.ticks) && Increasing(m) && Positive(m)
    requires Live(p) && r > 0.0 && Walk(m, p, r, budget).Ok?
    requires NextTick(m.ticks, p.tick, !m.baseIn) == Some(c)
    requires m.sqrtPriceAt(c.state.tick) == p.sqrtPrice && PositionBehind(Reversed(m), p, c).liquidity > 0.0
    ensures var t := Walk(m, p, r, budget).value;
            var back := Walk(Reversed(m), t.end, t.amountOut, budget);
            && (back.Ok? && back.value.amountOut == r && back.value.end == PositionBehind(Reversed(m), p, c)
                <==> !OnATick(m, t.end.sqrtPrice))
            && (back == Err(InvalidPrice) <==> OnATick(m, t.end.sqrtPrice))
  {
    hide Walk, NextTick, StepOnce, Facing, OnATick, Increasing, Positive;
    var t := Walk(m, p, r, budget).value;
    assert budget > 0 && t.amountOut > 0.0 by { SpendingTakesAnIteration(m, p, r, budget); }
    ReversedKeepsPrices(m);
    InvalidPriceOnlyAtStart(Reversed(m), t.end, t.amountOut, budget);
    if t.inside.Some? {
      WayBack(m, p, r, budget, c);
      InsideLeavesBudget(m, p, r, budget);
      MoreBudget(Reversed(m), t.end, t.amountOut, |t.crossed| + 1, budget);
      InsideFacesAhead(m, p, r, budget);
      FacingBothWaysIsOffTicks(m, t.end);
    } else {
      NoWayBackFromATick(m, p, r, budget, t.amountOut, budget);
      OutsideEndsOnATick(m, p, r, budget);
    }
  }

  lemma SpendingTakesAnIteration(m: Market, p: Position, r: real, budget: nat)
    requires Live(p) && r > 0.0 && Walk(m, p, r, budget).Ok?
    ensures budget > 0 && Walk(m, p, r, budget).value.amountOut > 0.0
  {
    hide PricedBetween, StepOnce;
    TripByCoord(m, p, r, budget);
  }

  lemma ReversedKeepsPrices(m: Market)
    requires Increasing(m) && Positive(m)
    ensures Increasing(Reversed(m)) && Positive(Reversed(m))
  {}

  /** Spending exactly what the current range absorbs stops on its boundary tick. */
  lemma BoundaryInputStopsOnATick(m: Market, p: Position, budget: nat, c: Candidate)
    requires Live(p) && budget > 0
    requires NextTick(m.ticks, p.tick, m.baseIn) == Some(c)
    requires m.sqrtPriceAt(c.state.tick) > 0.0 && Ahead(m.baseIn, p.sqrtPrice, m.sqrtPriceAt(c.state.tick))
    requires PositionBehind(m, p, c).liquidity > 0.0
    ensures var r := MaxInBeforeBoundary(m.baseIn, p.liquidity, p.sqrtPrice, m.sqrtPriceAt(c.state.tick));
            && r > 0.0
            && Walk(m, p, r, budget).Ok?
            && Walk(m, p, r, budget).value.end == PositionBehind(m, p, c)
            && OnATick(m, Walk(m, p, r, budget).value.end.sqrtPrice)
  {
    hide MaxInBeforeBoundary, PriceAfter, OutBetween, Coord, Gain, Paid, NextTick, PricedBetween;
    var b := m.sqrtPriceAt(c.state.tick);
    var r := MaxInBeforeBoundary(m.baseIn, p.liquidity, p.sqrtPrice, b);
    CoordOrder(m.baseIn, p.sqrtPrice, b);
    MaxInByCoord(m.baseIn, p.liquidity, p.sqrtPrice, b);
    GainPositive(p.liquidity, At(m, p), Coord(m.baseIn, b));
    assert Walk(m, PositionBehind(m, p, c), r - r, budget - 1) == Ok(Stay(PositionBehind(m, p, c)));
    assert c in m.ticks;
  }

  lemma GainPositive(liquidity: real, x: real, y: real)
    requires liquidity > 0.0 && x < y
    ensures Gain(liquidity, x, y) > 0.0
  {}
}
