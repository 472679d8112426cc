/** What the tick-crossing walk guarantees, in both directions and across any number of crossings. */
module ClmmTheorems {
  import opened Wrappers
  import opened ClmmTicks
  import opened ClmmMath
  import opened ClmmWalk

  // ---------- splitting a swap ----------

  /**
    Spending `a + b` is spending `a` and then `b` from where `a` ended: the same final position, the
    same total output, the same crossings, and the same error if there is one. The iterations that
    `a` used for crossings are the only ones that `b` does not have.
   */
  lemma {:induction false} SplitSwap(m: Market, p: Position, a: real, b: real, budget: nat)
    requires Live(p) && a > 0.0 && b > 0.0
    requires Walk(m, p, a, budget).Ok?
    ensures var first := Walk(m, p, a, budget).value;
            Walk(m, p, a + b, budget) == Join(first, Walk(m, first.end, b, budget - |first.crossed|))
    decreases budget
  {
    hide StepOnce;
    var step := StepOnce(m, p, a);
    var first := Walk(m, p, a, budget).value;
    if step.Stop? {
      SplitInside(m, p, a, b, budget);
    } else {
      CrossAgain(m, p, a, b);
      var left := a - step.used;
      var rest := Walk(m, step.end, left, budget - 1).value;
      var tail := Walk(m, rest.end, b, budget - 1 - |rest.crossed|);
      if left > 0.0 {
        SplitSwap(m, step.end, left, b, budget - 1);
      } else if tail.Ok? {
        assert rest.crossed + tail.value.crossed == tail.value.crossed;
      }
      assert Walk(m, step.end, left + b, budget - 1) == Join(rest, tail);
      assert left + b == a + b - step.used;
      var head := Trip(step.end, step.out, [step.at], None);
      JoinAssociative(head, rest, tail);
      assert first.crossed == [step.at] + rest.crossed;
    }
  }

  lemma CrossAgain(m: Market, p: Position, a: real, b: real)
    requires Live(p) && a > 0.0 && b > 0.0 && StepOnce(m, p, a).Cross?
    ensures StepOnce(m, p, a).used <= a && StepOnce(m, p, a + b) == StepOnce(m, p, a)
  {
    hide MaxInBeforeBoundary, PriceAfter, OutBetween;
  }

  /** The case in which `a` stops inside the first range. */
  lemma SplitInside(m: Market, p: Position, a: real, b: real, budget: nat)
    requires Live(p) && a > 0.0 && b > 0.0 && budget > 0
    requires StepOnce(m, p, a).Stop?
    ensures var first := Walk(m, p, a, budget).value;
            Walk(m, p, a + b, budget) == Join(first, Walk(m, first.end, b, budget))
  {
    hide StepOnce;
    ResumeInside(m, p, a, b);
    var step := StepOnce(m, p, a);
    var whole, resumed := StepOnce(m, p, a + b), StepOnce(m, step.end, b);
    var first := Trip(step.end, step.out, [], Some(step.at));
    assert Walk(m, p, a, budget) == Ok(first);
    if whole.Stop? {
      assert Walk(m, p, a + b, budget) == Ok(Trip(whole.end, whole.out, [], Some(whole.at)));
      assert Walk(m, step.end, b, budget) == Ok(Trip(whole.end, resumed.out, [], Some(whole.at)));
      assert first.crossed + first.crossed == first.crossed;
    } else if whole.Fail? {
      assert Walk(m, p, a + b, budget) == Err(whole.error);
      assert Walk(m, step.end, b, budget) == Err(whole.error);
    } else {
      var rest := Walk(m, whole.end, a + b - whole.used, budget - 1);
      assert a + b - whole.used == b - resumed.used;
      assert [] + [resumed.at] == [whole.at];
      JoinAssociative(first, Trip(resumed.end, resumed.out, [resumed.at], None), rest);
    }
  }

  lemma JoinAssociative(s: Trip, t: Trip, rest: Result<Trip, QuoteError>)
    ensures Join(s, Join(t, rest))
        == Join(Trip(t.end, s.amountOut + t.amountOut, s.crossed + t.crossed, t.inside), rest)
  {
    if rest.Ok? {
      assert s.crossed + (t.crossed + rest.value.crossed) == (s.crossed + t.crossed) + rest.value.crossed;
    }
  }

  /** If a larger input is quoted, so is every smaller one. */
  lemma {:induction false} SmallerInputSucceeds(m: Market, p: Position, a: real, b: real, budget: nat)
    requires Live(p) && a > 0.0 && b > 0.0
    requires Walk(m, p, a + b, budget).Ok?
    ensures Walk(m, p, a, budget).Ok?
    decreases budget
  {
    hide MaxInBeforeBoundary, PriceAfter, OutBetween;
    var step := StepOnce(m, p, a);
    if step.Cross? {
      CrossAgain(m, p, a, b);
      if a - step.used > 0.0 {
        assert (a - step.used) + b == a + b - step.used;
        SmallerInputSucceeds(m, step.end, a - step.used, b, budget - 1);
      }
    }
  }

  lemma {:induction false} MoreBudget(m: Market, p: Position, r: real, n: nat, k: nat)
    requires Live(p) && n <= k && Walk(m, p, r, n).Ok?
    ensures Walk(m, p, r, k) == Walk(m, p, r, n)
    decreases n
  {
    if r > 0.0 {
      var step := StepOnce(m, p, r);
      if step.Cross? { MoreBudget(m, step.end, r - step.used, n - 1, k - 1); }
    }
  }

  /** With a full set of iterations for each part, both parts succeed and together make the whole. */
  lemma PartsMakeTheWhole(m: Market, p: Position, a: real, b: real, budget: nat)
    requires Live(p) && a > 0.0 && b > 0.0
    requires Walk(m, p, a + b, budget).Ok?
    ensures Walk(m, p, a, budget).Ok?
    ensures var first := Walk(m, p, a, budget).value;
            && Walk(m, first.end, b, budget).Ok?
            && Walk(m, p, a + b, budget) == Join(first, Walk(m, first.end, b, budget))
  {
    hide Walk, StepOnce;
    SmallerInputSucceeds(m, p, a, b, budget);
    SplitSwap(m, p, a, b, budget);
    var first := Walk(m, p, a, budget).value;
    MoreBudget(m, first.end, b, budget - |first.crossed|, budget);
  }

  // ---------- price bounds ----------

  lemma {:induction false} TripByCoord(m: Market, p: Position, r: real, budget: nat)
    requires Live(p) && r > 0.0 && Walk(m, p, r, budget).Ok?
    ensures var t := Walk(m, p, r, budget).value;
            var x, y := At(m, p), At(m, t.end);
            && x < y
            && t.amountOut > 0.0
            && PricedBetween(t.amountOut, r, x, y)
    decreases budget
  {
    hide MaxInBeforeBoundary, PriceAfter, OutBetween, Coord, Gain, Paid, Reach, PricedBetween;
    var step := StepOnce(m, p, r);
    var t := Walk(m, p, r, budget).value;
    var x, mid, y := At(m, p), At(m, step.end), At(m, t.end);
    StepByCoord(m, p, r);
    GainOfReach(p.liquidity, x, r);
    PaidBetweenMarginals(p.liquidity, x, mid);
    if step.Cross? && r - step.used > 0.0 {
      TripByCoord(m, step.end, r - step.used, budget - 1);
      var rest := Walk(m, step.end, r - step.used, budget - 1).value;
      StretchesAdd(step.out, rest.amountOut, step.used, r - step.used, x, mid, y);
    }
  }

  /** Base input is paid at the price, the square of `s`; quote input at its inverse. */
  predicate BetweenMarginalPrices(baseIn: bool, s0: real, s1: real, out: real, r: real)
    requires s0 > 0.0 && s1 > 0.0
  {
    ProductPositive(s0, s0);
    ProductPositive(s1, s1);
    if baseIn then s1 * s1 * r <= out <= s0 * s0 * r
    else r / (s1 * s1) <= out <= r / (s0 * s0)
  }

  /**
    The output of a net input `r` lies between `r` at the marginal price where the swap ends and `r`
    at the marginal price where it starts, and the price moves strictly in the swap's direction.
   */
  lemma OutputBetweenMarginalPrices(m: Market, p: Position, r: real, budget: nat)
    requires Live(p) && r > 0.0 && Walk(m, p, r, budget).Ok?
    ensures var t := Walk(m, p, r, budget).value;
            var s0, s1 := p.sqrtPrice, t.end.sqrtPrice;
            && t.amountOut > 0.0
            && Ahead(m.baseIn, s0, s1)
            && BetweenMarginalPrices(m.baseIn, s0, s1, t.amountOut, r)
  {
    hide Walk, PricedBetween, BetweenMarginalPrices;
    var t := Walk(m, p, r, budget).value;
    var s0, s1 := p.sqrtPrice, t.end.sqrtPrice;
    TripByCoord(m, p, r, budget);
    CoordOrder(m.baseIn, s0, s1);
    MarginalPrices(m.baseIn, s0, s1, t.amountOut, r);
  }

  lemma MarginalPrices(baseIn: bool, s0: real, s1: real, out: real, r: real)
    requires s0 > 0.0 && s1 > 0.0
    requires PricedBetween(out, r, Coord(baseIn, s0), Coord(baseIn, s1))
    ensures BetweenMarginalPrices(baseIn, s0, s1, out, r)
  {
    ProductPositive(s0, s0);
    ProductPositive(s1, s1);
    if baseIn {
      SquareOfInverse(s0, out, r);
      SquareOfInverse(s1, out, r);
    } else {
      BoundsAsQuotients(out, r, s0 * s0, s1 * s1);
    }
  }

  /** Output per unit of input is no better for the larger swap. */
  predicate NoBetterOnAverage(large: real, whole: real, small: real, part: real)
    requires whole > 0.0 && part > 0.0
  {
    large / whole <= small / part
  }

  /** Larger swaps get more output, but at no better an average price. */
  lemma AveragePriceWorsens(m: Market, p: Position, a: real, b: real, budget: nat)
    requires Live(p) && a > 0.0 && b > 0.0
    requires Walk(m, p, a + b, budget).Ok?
    ensures Walk(m, p, a, budget).Ok?
    ensures var small, large := Walk(m, p, a, budget).value.amountOut, Walk(m, p, a + b, budget).value.amountOut;
            small < large && NoBetterOnAverage(large, a + b, small, a)
  {
    hide Walk, NoBetterOnAverage, PricedBetween, Coord;
    PartsMakeTheWhole(m, p, a, b, budget);
    var first := Walk(m, p, a, budget).value;
    var second := Walk(m, first.end, b, budget).value;
    TripByCoord(m, p, a, budget);
    TripByCoord(m, first.end, b, budget);
    AverageFalls(first.amountOut, second.amountOut, a, b, At(m, p), At(m, first.end), At(m, second.end));
  }

  lemma AverageFalls(o1: real, o2: real, a: real, b: real, x: real, y: real, z: real)
    requires a > 0.0 && b > 0.0 && y > 0.0
    requires PricedBetween(o1, a, x, y) && PricedBetween(o2, b, y, z)
    ensures NoBetterOnAverage(o1 + o2, a + b, o1, a)
  {
    ProductPositive(y, y);
    AveragesCompared(o1, o2, a, b, y * y);
  }

  lemma AveragesCompared(o1: real, o2: real, a: real, b: real, q: real)
    requires a > 0.0 && b > 0.0 && q > 0.0 && a <= o1 * q && o2 * q <= b
    ensures (o1 + o2) / (a + b) <= o1 / a
  {
    var avg := o1 / a;
    assert avg * a == o1;
    assert (avg * q) * a == o1 * q;
    assert avg * q >= 1.0 by { if avg * q < 1.0 { ScaledStrict(avg * q, 1.0, a); } }
    assert o2 <= avg * b by {
      ScaledOrder(1.0, avg * q, b);
      assert b * (avg * q) == (avg * b) * q;
      if o2 > avg * b { ScaledStrict(avg * b, o2, q); }
    }
    var whole := (o1 + o2) / (a + b);
    assert whole * (a + b) == o1 + o2 <= avg * (a + b);
    if whole > avg { ScaledStrict(avg, whole, a + b); }
  }

  // ---------- the crossed ticks ----------

  /** `t` lies on the way from tick `from` to the tick `to` where a walk ended. */
  predicate OnTheWay(baseIn: bool, from: int, to: int, t: int) {
    if baseIn then to < t <= from else from < t <= to
  }

  /** Ticks in strictly monotone order, in the swap's direction. */
  predicate Onward(baseIn: bool, cs: seq<Candidate>) {
    forall i, j :: 0 <= i < j < |cs| ==>
      if baseIn then cs[j].state.tick < cs[i].state.tick else cs[i].state.tick < cs[j].state.tick
  }

  lemma OnwardCons(baseIn: bool, from: int, to: int, c: Candidate, rest: seq<Candidate>)
    requires Onward(baseIn, rest)
    requires forall d :: d in rest ==> OnTheWay(baseIn, from, to, d.state.tick)
    requires from == if baseIn then c.state.tick - 1 else c.state.tick
    ensures Onward(baseIn, [c] + rest)
  {
    var cs := [c] + rest;
    forall i, j | 0 <= i < j < |cs|
      ensures if baseIn then cs[j].state.tick < cs[i].state.tick else cs[i].state.tick < cs[j].state.tick
    {
      assert cs[j] == rest[j - 1] && rest[j - 1] in rest;
      if i > 0 { assert cs[i] == rest[i - 1]; }
    }
  }

  function NetCrossed(cs: seq<Candidate>): int {
    if cs == [] then 0 else cs[0].state.liquidityNet + NetCrossed(cs[1..])
  }

  /**
    A trip from `p` crosses only initialized ticks on its way, in strictly monotone order, and its
    liquidity changes by exactly what they carry.
   */
  predicate CrossesInOrder(m: Market, p: Position, t: Trip) {
    && NoFarther(p.tick, t.end.tick, m.baseIn)
    && (forall c :: c in t.crossed ==> c in m.ticks && OnTheWay(m.baseIn, p.tick, t.end.tick, c.state.tick))
    && Onward(m.baseIn, t.crossed)
    && var net := NetCrossed(t.crossed);
       t.end.liquidity == p.liquidity + (if m.baseIn then -net else net) as real
  }

  lemma {:induction false} CrossedInOrder(m: Market, p: Position, r: real, budget: nat)
    requires Live(p) && Walk(m, p, r, budget).Ok?
    ensures CrossesInOrder(m, p, Walk(m, p, r, budget).value)
    decreases budget
  {
    hide StepOnce, CrossesInOrder, NextTick;
    var t := Walk(m, p, r, budget).value;
    if r > 0.0 {
      var step := StepOnce(m, p, r);
      StepBoundary(m, p, r);
      if step.Cross? {
        CrossedInOrder(m, step.end, r - step.used, budget - 1);
        OneMoreCrossed(m, p, step.at, Walk(m, step.end, r - step.used, budget - 1).value, t);
      } else {
        NothingCrossed(m, p, t);
      }
    } else {
      NothingCrossed(m, p, t);
    }
  }

  lemma NothingCrossed(m: Market, p: Position, t: Trip)
    requires t.crossed == [] && t.end.tick == p.tick && t.end.liquidity == p.liquidity
    ensures CrossesInOrder(m, p, t)
  {}

  lemma OneMoreCrossed(m: Market, p: Position, c: Candidate, rest: Trip, t: Trip)
    requires NextTick(m.ticks, p.tick, m.baseIn) == Some(c)
    requires CrossesInOrder(m, PositionBehind(m, p, c), rest)
    requires t.end == rest.end && t.crossed == [c] + rest.crossed
    ensures CrossesInOrder(m, p, t)
  {
    hide NextTick, Onward;
    OnwardCons(m.baseIn, PositionBehind(m, p, c).tick, t.end.tick, c, rest.crossed);
    assert t.crossed[1..] == rest.crossed;
    assert Eligible(c.state.tick, p.tick, m.baseIn);
  }

  /** No initialized tick on the way is skipped. */
  lemma {:induction false} NoTickSkipped(m: Market, p: Position, r: real, budget: nat, c: Candidate)
    requires Live(p) && Walk(m, p, r, budget).Ok?
    requires c in m.ticks
    requires OnTheWay(m.baseIn, p.tick, Walk(m, p, r, budget).value.end.tick, c.state.tick)
    ensures exists d :: d in Walk(m, p, r, budget).value.crossed && d.state.tick == c.state.tick
    decreases budget
  {
    hide StepOnce, Ahead;
    if r > 0.0 {
      var step := StepOnce(m, p, r);
      StepBoundary(m, p, r);
      if step.Cross? {
        var t, rest := Walk(m, p, r, budget).value, Walk(m, step.end, r - step.used, budget - 1).value;
        if OnTheWay(m.baseIn, step.end.tick, t.end.tick, c.state.tick) {
          NoTickSkipped(m, step.end, r - step.used, budget - 1, c);
          var d :| d in rest.crossed && d.state.tick == c.state.tick;
          assert d in t.crossed;
        } else {
          assert step.at in t.crossed;
        }
      }
    }
  }

  lemma {:induction false} WalkKeepsDirection(m: Market, p: Position, r: real, budget: nat)
    requires Live(p) && Walk(m, p, r, budget).Ok?
    ensures var t := Walk(m, p, r, budget).value;
            && NoFarther(p.tick, t.end.tick, m.baseIn)
            && At(m, p) <= At(m, t.end)
    decreases budget
  {
    hide StepOnce, Coord;
    if r > 0.0 {
      var step := StepOnce(m, p, r);
      TripByCoord(m, p, r, budget);
      StepBoundary(m, p, r);
      if step.Cross? { WalkKeepsDirection(m, step.end, r - step.used, budget - 1); }
    }
  }

  // ---------- ticks and prices ----------

  /** Square-root prices of the listed ticks increase wherever they are positive. */
  predicate Increasing(m: Market) {
    forall c, d :: c in m.ticks && d in m.ticks && c.state.tick < d.state.tick && m.sqrtPriceAt(c.state.tick) > 0.0
                   ==> m.sqrtPriceAt(c.state.tick) < m.sqrtPriceAt(d.state.tick)
  }

  predicate Positive(m: Market) {
    forall c :: c in m.ticks ==> m.sqrtPriceAt(c.state.tick) > 0.0
  }

  /** Price `s1`, reached in the swap's direction, is at or beyond that of tick `t`. */
  predicate Reached(m: Market, s1: real, t: int) {
    if m.baseIn then s1 <= m.sqrtPriceAt(t) else m.sqrtPriceAt(t) <= s1
  }

  predicate Crossed(t: Trip, tick: int) {
    exists d :: d in t.crossed && d.state.tick == tick
  }

  /** An initialized tick ahead of the start was crossed exactly when the final price reached its price. */
  lemma CrossedIffReached(m: Market, p: Position, r: real, budget: nat, c: Candidate)
    requires Increasing(m)
    requires Live(p) && r > 0.0 && Walk(m, p, r, budget).Ok?
    requires c in m.ticks && Eligible(c.state.tick, p.tick, m.baseIn)
    ensures var t := Walk(m, p, r, budget).value;
            Crossed(t, c.state.tick) <==> Reached(m, t.end.sqrtPrice, c.state.tick)
  {
    hide Walk, Reached, Increasing, Onward;
    var t := Walk(m, p, r, budget).value;
    OnTheWayIffReached(m, p, r, budget, c);
    if OnTheWay(m.baseIn, p.tick, t.end.tick, c.state.tick) {
      NoTickSkipped(m, p, r, budget, c);
    }
    CrossedInOrder(m, p, r, budget);
  }

  lemma {:induction false} OnTheWayIffReached(m: Market, p: Position, r: real, budget: nat, c: Candidate)
    requires Increasing(m)
    requires Live(p) && r > 0.0 && Walk(m, p, r, budget).Ok?
    requires c in m.ticks && Eligible(c.state.tick, p.tick, m.baseIn)
    ensures var end := Walk(m, p, r, budget).value.end;
            OnTheWay(m.baseIn, p.tick, end.tick, c.state.tick) <==> Reached(m, end.sqrtPrice, c.state.tick)
    decreases budget
  {
    hide StepOnce, Coord;
    var step := StepOnce(m, p, r);
    var end := Walk(m, p, r, budget).value.end;
    StepBoundary(m, p, r);
    if step.Cross? {
      WalkKeepsDirection(m, step.end, r - step.used, budget - 1);
      CoordOrder(m.baseIn, end.sqrtPrice, step.end.sqrtPrice);
      if Eligible(c.state.tick, step.end.tick, m.baseIn) && r - step.used > 0.0 {
        OnTheWayIffReached(m, step.end, r - step.used, budget - 1, c);
      }
    }
  }

  /** The boundary of an iteration is the nearest tick; a stop is short of it and a crossing is at it. */
  lemma StepBoundary(m: Market, p: Position, r: real)
    requires Live(p) && r > 0.0 && !StepOnce(m, p, r).Fail?
    ensures var step := StepOnce(m, p, r);
            var boundary := m.sqrtPriceAt(step.at.state.tick);
            && NextTick(m.ticks, p.tick, m.baseIn) == Some(step.at)
            && boundary > 0.0
            && (step.Stop?
                ==> step.end == p.(sqrtPrice := step.end.sqrtPrice) && Ahead(m.baseIn, step.end.sqrtPrice, boundary))
            && (step.Cross? ==> step.end == PositionBehind(m, p, step.at) && step.used <= r)
  {
    hide MaxInBeforeBoundary, PriceAfter, OutBetween, Coord, Gain, Paid, Reach;
    var step := StepOnce(m, p, r);
    if step.Stop? {
      StepByCoord(m, p, r);
      StepKind(m, p, r, step.at);
      CoordOrder(m.baseIn, step.end.sqrtPrice, m.sqrtPriceAt(step.at.state.tick));
    }
  }

  /** The next initialized tick, if there is one, is ahead in price. */
  predicate Facing(m: Market, p: Position) {
    var next := NextTick(m.ticks, p.tick, m.baseIn);
    next.Some? ==> Ahead(m.baseIn, p.sqrtPrice, m.sqrtPriceAt(next.value.state.tick))
  }

  /** Only the starting position can have its boundary on the wrong side. */
  lemma {:induction false} InvalidPriceOnlyAtStart(m: Market, p: Position, r: real, budget: nat)
    requires Increasing(m) && Positive(m)
    requires Live(p) && budget > 0
    ensures Walk(m, p, r, budget) == Err(InvalidPrice) <==> r > 0.0 && !Facing(m, p)
    decreases budget
  {
    if r > 0.0 {
      var step := StepOnce(m, p, r);
      if step.Cross? {
        assert Facing(m, step.end);
        if budget > 1 { InvalidPriceOnlyAtStart(m, step.end, r - step.used, budget - 1); }
      }
    }
  }
}
