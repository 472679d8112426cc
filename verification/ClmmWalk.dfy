/**
  The tick-crossing walk of a concentrated-liquidity swap: what one loop iteration does, and the
  trip that a bounded number of iterations makes.
 */
module ClmmWalk {
  import opened Wrappers
  import opened ClmmTicks
  import opened ClmmMath

  datatype QuoteError =
    | MissingPoolFields
    | InvalidAmount
    | InvalidLiquidity
    | MissingTickArray
    | MissingBoundaryTick
    | TickCrossingRequired
    | InvalidPrice
    | UnsupportedMint

  /** What stays fixed during a walk. The square-root price of a tick is a parameter. */
  datatype Market = Market(ticks: seq<Candidate>, sqrtPriceAt: int -> real, baseIn: bool)

  datatype Position = Position(tick: int, sqrtPrice: real, liquidity: real)

  predicate Live(p: Position) {
    p.sqrtPrice > 0.0 && p.liquidity > 0.0
  }

  datatype Step =
    | Fail(error: QuoteError)
    | Stop(end: Position, out: real, at: Candidate)
    | Cross(end: Position, out: real, used: real, at: Candidate)

  predicate Ahead(baseIn: bool, s: real, boundary: real) {
    if baseIn then boundary < s else boundary > s
  }

  function PositionBehind(m: Market, p: Position, c: Candidate): Position {
    if m.baseIn
    then Position(c.state.tick - 1, m.sqrtPriceAt(c.state.tick), p.liquidity - c.state.liquidityNet as real)
    else Position(c.state.tick, m.sqrtPriceAt(c.state.tick), p.liquidity + c.state.liquidityNet as real)
  }

  /** One iteration of the loop, entered with input still to spend. */
  function StepOnce(m: Market, p: Position, remaining: real): (step: Step)
    requires Live(p) && remaining > 0.0
    ensures step.Stop? || step.Cross? ==> Live(step.end)
  {
    var next := NextTick(m.ticks, p.tick, m.baseIn);
    if next.None? then Fail(MissingBoundaryTick)
    else
      var boundary := m.sqrtPriceAt(next.value.state.tick);
      if boundary <= 0.0 || !Ahead(m.baseIn, p.sqrtPrice, boundary) then Fail(InvalidPrice)
      else
        var maxIn := MaxInBeforeBoundary(m.baseIn, p.liquidity, p.sqrtPrice, boundary);
        if remaining < maxIn then
          var price := PriceAfter(m.baseIn, p.liquidity, p.sqrtPrice, remaining);
          Stop(p.(sqrtPrice := price), OutBetween(m.baseIn, p.liquidity, p.sqrtPrice, price), next.value)
        else
          var end := PositionBehind(m, p, next.value);
          if end.liquidity <= 0.0 then Fail(InvalidLiquidity)
          else Cross(end, OutBetween(m.baseIn, p.liquidity, p.sqrtPrice, boundary), maxIn, next.value)
  }

  /** A finished walk; `inside` is the boundary of the range in which it ended part-way, if it did. */
  datatype Trip = Trip(end: Position, amountOut: real, crossed: seq<Candidate>, inside: Option<Candidate>)

  function Stay(p: Position): Trip {
    Trip(p, 0.0, [], None)
  }

  /** A trip continued by the outcome of another walk from where it ended. */
  function Join(first: Trip, rest: Result<Trip, QuoteError>): Result<Trip, QuoteError> {
    match rest
    case Err(e) => Err(e)
    case Ok(t) => Ok(Trip(t.end, first.amountOut + t.amountOut, first.crossed + t.crossed, t.inside))
  }

  function Walk(m: Market, p: Position, remaining: real, budget: nat): (r: Result<Trip, QuoteError>)
    requires Live(p)
    ensures r.Ok? ==> Live(r.value.end) && |r.value.crossed| <= budget
    decreases budget
  {
    if remaining <= 0.0 then Ok(Stay(p))
    else if budget == 0 then Err(MissingBoundaryTick)
    else
      match StepOnce(m, p, remaining)
      case Fail(e) => Err(e)
      case Stop(end, out, at) => Ok(Trip(end, out, [], Some(at)))
      case Cross(end, out, used, at) =>
        Join(Trip(end, out, [at], None), Walk(m, end, remaining - used, budget - 1))
  }

  /** Start indexes of the arrays consulted, in order, repetitions included. */
  function Consulted(t: Trip): seq<int> {
    Starts(t.crossed) + if t.inside.Some? then [t.inside.value.start] else []
  }

  function Starts(cs: seq<Candidate>): seq<int> {
    seq(|cs|, i requires 0 <= i < |cs| => cs[i].start)
  }

  // ---------- one iteration, by coordinate ----------

  function At(m: Market, p: Position): real
    requires Live(p)
  {
    Coord(m.baseIn, p.sqrtPrice)
  }

  /** The iteration seen from either direction at once: it only moves the coordinate upward. */
  lemma StepByCoord(m: Market, p: Position, remaining: real)
    requires Live(p) && remaining > 0.0
    ensures var x, step := At(m, p), StepOnce(m, p, remaining);
            && (step.Stop? ==>
                  && At(m, step.end) == Reach(p.liquidity, x, remaining)
                  && step.out == Paid(p.liquidity, x, At(m, step.end)))
            && (step.Cross? ==>
                  && x < At(m, step.end) <= Reach(p.liquidity, x, remaining)
                  && step.used == Gain(p.liquidity, x, At(m, step.end)) <= remaining
                  && step.out == Paid(p.liquidity, x, At(m, step.end)))
  {
    hide MaxInBeforeBoundary, PriceAfter, OutBetween, Coord, Gain, Paid, Reach;
    var step := StepOnce(m, p, remaining);
    if step.Stop? {
      PriceAfterByCoord(m.baseIn, p.liquidity, p.sqrtPrice, remaining);
      OutByCoord(m.baseIn, p.liquidity, p.sqrtPrice, step.end.sqrtPrice);
    } else if step.Cross? {
      MaxInByCoord(m.baseIn, p.liquidity, p.sqrtPrice, step.end.sqrtPrice);
      OutByCoord(m.baseIn, p.liquidity, p.sqrtPrice, step.end.sqrtPrice);
      CoordOrder(m.baseIn, p.sqrtPrice, step.end.sqrtPrice);
      InsideByCoord(p.liquidity, At(m, p), At(m, step.end), remaining);
    }
  }

  /** Which of the outcomes an iteration has, by coordinate. */
  lemma StepKind(m: Market, p: Position, remaining: real, c: Candidate)
    requires Live(p) && remaining > 0.0
    requires NextTick(m.ticks, p.tick, m.baseIn) == Some(c)
    requires m.sqrtPriceAt(c.state.tick) > 0.0
    ensures var x, y := At(m, p), Coord(m.baseIn, m.sqrtPriceAt(c.state.tick));
            && Ahead(m.baseIn, p.sqrtPrice, m.sqrtPriceAt(c.state.tick)) == (x < y)
            && (StepOnce(m, p, remaining).Stop? <==> x < y && Reach(p.liquidity, x, remaining) < y)
            && (x < y <= Reach(p.liquidity, x, remaining) ==>
                  var end := PositionBehind(m, p, c);
                  StepOnce(m, p, remaining)
                  == if end.liquidity <= 0.0 then Fail(InvalidLiquidity)
                     else Cross(end, Paid(p.liquidity, x, y), Gain(p.liquidity, x, y), c))
  {
    hide MaxInBeforeBoundary, PriceAfter, OutBetween, Coord, Gain, Paid, Reach;
    var b := m.sqrtPriceAt(c.state.tick);
    var x, y := At(m, p), Coord(m.baseIn, b);
    CoordOrder(m.baseIn, p.sqrtPrice, b);
    MaxInByCoord(m.baseIn, p.liquidity, p.sqrtPrice, b);
    InsideByCoord(p.liquidity, x, y, remaining);
    OutByCoord(m.baseIn, p.liquidity, p.sqrtPrice, b);
  }

  /**
    An iteration that stops inside a range can be resumed: spending `b` from where `a` stopped is,
    error for error, the iteration that spends `a + b` at once.
   */
  lemma ResumeInside(m: Market, p: Position, a: real, b: real)
    requires Live(p) && a > 0.0 && b > 0.0
    requires StepOnce(m, p, a).Stop?
    ensures var first := StepOnce(m, p, a);
            var resumed, whole := StepOnce(m, first.end, b), StepOnce(m, p, a + b);
            match whole
            case Fail(e) => resumed == whole
            case Stop(end, out, at) =>
              resumed.Stop? && resumed.end == end && resumed.at == at && first.out + resumed.out == out
            case Cross(end, out, used, at) =>
              && resumed.Cross? && resumed.end == end && resumed.at == at
              && first.out + resumed.out == out
              && a + resumed.used == used
  {
    hide MaxInBeforeBoundary, PriceAfter, OutBetween, Coord, Gain, Paid, Reach;
    var first := StepOnce(m, p, a);
    var mid := first.end;
    var c := NextTick(m.ticks, p.tick, m.baseIn).value;
    var x, xm, y := At(m, p), At(m, mid), Coord(m.baseIn, m.sqrtPriceAt(c.state.tick));
    StepKind(m, p, a, c);
    StepKind(m, p, a + b, c);
    StepKind(m, mid, b, c);
    StepByCoord(m, p, a);
    ReachAdds(p.liquidity, x, a, b);
    GainOfReach(p.liquidity, x, a);
    var resumed, whole := StepOnce(m, mid, b), StepOnce(m, p, a + b);
    if whole.Stop? {
      StepByCoord(m, p, a + b);
      StepByCoord(m, mid, b);
      CoordInjective(m.baseIn, resumed.end.sqrtPrice, whole.end.sqrtPrice);
      PaidAdds(p.liquidity, x, xm, At(m, whole.end));
    } else {
      PaidAdds(p.liquidity, x, xm, y);
      GainAdds(p.liquidity, x, xm, y);
    }
  }
}
