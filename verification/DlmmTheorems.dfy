/** What the bin walk guarantees about the input it spends and the output it promises. */
module DlmmTheorems {
  import opened DlmmFees
  import opened DlmmQuote
  import opened Sorting

  // ---------- one bin ----------

  lemma CeilBounds(v: real)
    requires v > 0.0
    ensures 1 <= CeilU64(v)
    ensures CeilU64(v) as real < v + 1.0
    ensures CeilU64(v) < U64_MAX ==> v <= CeilU64(v) as real
  {}

  lemma OutForOrder(xToY: bool, a: U64, b: U64, price: real)
    requires price > 0.0 && a <= b
    ensures 0.0 <= OutFor(xToY, a, price) <= OutFor(xToY, b, price)
    ensures a > 0 ==> OutFor(xToY, a, price) > 0.0
    ensures a == 0 ==> OutFor(xToY, a, price) == 0.0
  {
    var u := if xToY then price else 1.0 / price;
    assert u > 0.0;
    assert OutFor(xToY, a, price) == a as real * u;
    assert OutFor(xToY, b, price) == b as real * u;
    assert (b - a) as real * u >= 0.0;
  }

  /**
    The net cap pays for less than one input unit's worth beyond what the bin holds, and for all of that
    unless it saturates.
   */
  lemma CapPaysForReserve(s: Swap, bin: Bin)
    requires Usable(s, bin)
    ensures NetCap(s, bin) >= 1
    ensures NetCap(s, bin) < U64_MAX ==>
              OutFor(s.xToY, NetCap(s, bin), PriceYPerX(s.pool, bin)) >= Reserve(s.xToY, bin) as real
    ensures var price := PriceYPerX(s.pool, bin);
            OutFor(s.xToY, NetCap(s, bin), price) < Reserve(s.xToY, bin) as real + OutFor(s.xToY, 1, price)
  {
    hide PriceYPerX, CeilU64;
    var p, r, v := PriceYPerX(s.pool, bin), Reserve(s.xToY, bin) as real, ExactNet(s, bin);
    ExactNetPays(s.xToY, v, r, p);
    CeilBounds(v);
    Pays(s.xToY, NetCap(s, bin) as real, v, r, p);
    if NetCap(s, bin) < U64_MAX { PaysAll(s.xToY, NetCap(s, bin) as real, v, r, p); }
  }

  lemma PaysAll(xToY: bool, cap: real, v: real, r: real, p: real)
    requires p > 0.0 && cap >= v
    requires if xToY then v * p == r else v == r * p
    ensures if xToY then cap * p >= r else cap / p >= r
  {
    if xToY {
      assert (cap - v) * p >= 0.0;
    } else {
      var u := 1.0 / p;
      assert u * p == 1.0;
      assert (cap - v) * u >= 0.0;
      assert (r * p) * u == r * (p * u);
      assert cap / p == cap * u;
    }
  }

  lemma ExactNetPays(xToY: bool, v: real, r: real, p: real)
    requires p > 0.0 && r > 0.0 && v == if xToY then r / p else r * p
    ensures v > 0.0 && if xToY then v * p == r else v == r * p
  {}

  lemma Pays(xToY: bool, cap: real, v: real, r: real, p: real)
    requires p > 0.0 && cap < v + 1.0
    requires if xToY then v * p == r else v == r * p
    ensures if xToY then cap * p < r + 1.0 * p else cap / p < r + 1.0 / p
  {
    if xToY {
      Scaled(cap, v + 1.0, p);
    } else {
      var u := 1.0 / p;
      assert u * p == 1.0;
      Scaled(cap, v + 1.0, u);
      assert (r * p) * u == r * (p * u);
      assert cap / p == cap * u;
    }
  }

  lemma Scaled(a: real, b: real, m: real)
    requires a < b && m > 0.0
    ensures a * m < b * m
  {}

  /** Every take stays within its bin, nets no more than the bin asks for, and spends something. */
  predicate WithinBin(s: Swap, t: Take) {
    && Usable(s, t.place.bin)
    && 0 < t.gross <= GrossCap(s, t.place.bin)
    && t.net == NetOf(Rate(s.pool), t.gross) <= NetCap(s, t.place.bin)
    && var price := PriceYPerX(s.pool, t.place.bin);
       OutFor(s.xToY, t.net, price) < Reserve(s.xToY, t.place.bin) as real + OutFor(s.xToY, 1, price)
  }

  lemma TakeWithinBin(s: Swap, place: PlacedBin, remaining: U64)
    requires Usable(s, place.bin) && remaining > 0
    ensures WithinBin(s, TakeFrom(s, place, remaining))
  {
    hide PriceYPerX, NetCap, OutFor, NetOf, FeeForNet;
    var t := TakeFrom(s, place, remaining);
    CapPaysForReserve(s, place.bin);
    CapNeverExceeded(Rate(s.pool), NetCap(s, place.bin), t.gross);
    OutForOrder(s.xToY, t.net, NetCap(s, place.bin), PriceYPerX(s.pool, place.bin));
  }

  // ---------- the whole walk ----------

  predicate UsedUp(s: Swap, t: Take) {
    Usable(s, t.place.bin) && t.gross == GrossCap(s, t.place.bin)
  }

  /** Every take is of a bin on the route and stays within it. */
  lemma {:induction false} EveryTakeWithinBin(s: Swap, bins: seq<PlacedBin>, remaining: U64, t: Take)
    requires t in Fill(s, bins, remaining)
    ensures t.place in bins && WithinBin(s, t)
  {
    hide WithinBin, Usable, NetOf, GrossCap;
    assert bins == [bins[0]] + bins[1..];
    if Usable(s, bins[0].bin) {
      var head := TakeFrom(s, bins[0], remaining);
      TakeWithinBin(s, bins[0], remaining);
      if t != head { EveryTakeWithinBin(s, bins[1..], remaining - head.gross, t); }
    } else {
      EveryTakeWithinBin(s, bins[1..], remaining, t);
    }
  }

  /** Only the last take may leave room in its bin. */
  lemma {:induction false} OnlyLastIsPartial(s: Swap, bins: seq<PlacedBin>, remaining: U64, i: nat)
    requires i + 1 < |Fill(s, bins, remaining)|
    ensures UsedUp(s, Fill(s, bins, remaining)[i])
  {
    hide UsedUp, Usable, NetOf, GrossCap;
    if Usable(s, bins[0].bin) {
      var head := TakeFrom(s, bins[0], remaining);
      var rest := Fill(s, bins[1..], remaining - head.gross);
      assert Fill(s, bins, remaining) == [head] + rest;
      if i == 0 { LeftOverMeansUsedUp(s, bins[0], remaining); }
      else { OnlyLastIsPartial(s, bins[1..], remaining - head.gross, i - 1); }
    } else {
      OnlyLastIsPartial(s, bins[1..], remaining, i);
    }
  }

  lemma LeftOverMeansUsedUp(s: Swap, place: PlacedBin, remaining: U64)
    requires Usable(s, place.bin)
    ensures TakeFrom(s, place, remaining).gross < remaining ==> UsedUp(s, TakeFrom(s, place, remaining))
  {}

  /** Gross input that the usable bins can absorb together. */
  function Capacity(s: Swap, bins: seq<PlacedBin>): nat {
    if bins == [] then 0
    else (if Usable(s, bins[0].bin) then GrossCap(s, bins[0].bin) else 0) + Capacity(s, bins[1..])
  }

  /** The gross amounts taken add up to the input, or to the capacity if that is less. */
  lemma {:induction false} InputConserved(s: Swap, bins: seq<PlacedBin>, remaining: U64)
    ensures GrossSum(Fill(s, bins, remaining)) == if remaining <= Capacity(s, bins) then remaining
        else Capacity(s, bins)
  {
    hide Usable, GrossCap;
    if bins != [] && remaining != 0 {
      if Usable(s, bins[0].bin) {
        InputConserved(s, bins[1..], remaining - TakeFrom(s, bins[0], remaining).gross);
      } else {
        InputConserved(s, bins[1..], remaining);
      }
    }
  }

  lemma {:induction false} OutSumPositive(s: Swap, takes: seq<Take>)
    requires Priced(s, takes)
    ensures OutSum(s, takes) >= 0.0
    ensures OutSum(s, takes) > 0.0 <==> exists t :: t in takes && t.net > 0
  {
    hide OutFor, PriceYPerX;
    if takes != [] {
      OutSumPositive(s, takes[1..]);
      OutForOrder(s.xToY, takes[0].net, takes[0].net, PriceYPerX(s.pool, takes[0].place.bin));
      assert takes == [takes[0]] + takes[1..];
    }
  }

  lemma QuoteExistsByTakes(pool: Pool, arrays: seq<BinArray>, amountIn: U64, xToY: bool)
    requires pool.activeId.Some?
    ensures var s := Swap(pool, pool.activeId.value, xToY);
            ExactIn(pool, arrays, amountIn, xToY).Some? <==>
              && 0 < amountIn <= Capacity(s, Route(s, arrays))
              && exists t :: t in Fill(s, Route(s, arrays), amountIn) && t.net > 0
  {
    hide Fill, OutSum, OutSumWithoutFee, Quoted;
    var s := Swap(pool, pool.activeId.value, xToY);
    InputConserved(s, Route(s, arrays), amountIn);
    FillPriced(s, Route(s, arrays), amountIn);
    OutSumPositive(s, Fill(s, Route(s, arrays), amountIn));
    if AllBins(arrays) == [] { assert Route(s, arrays) == []; }
  }

  /** The smallest fee is one unit, and the rate never eats two. */
  lemma NetPositiveExactly(rate: U64, gross: U64)
    requires rate <= MAX_FEE_RATE
    ensures NetOf(rate, gross) > 0 <==> gross > 1 || (gross == 1 && rate == 0)
  {
    NetAtLeast(rate, gross, 1);
    if gross > 1 { MulOrder(2, gross, FEE_PRECISION - rate); }
  }

  /** A bin whose input is charged a fee takes at least two units. */
  lemma TakesTwoWithFee(s: Swap, bin: Bin)
    requires Usable(s, bin)
    ensures GrossCap(s, bin) >= 1
    ensures Rate(s.pool) > 0 ==> GrossCap(s, bin) >= 2
  {
    var rate, net := Rate(s.pool), NetCap(s, bin);
    CapPaysForReserve(s, bin);
    if rate > 0 { FeeOfSomething(rate, net); }
  }

  lemma FeeOfSomething(rate: U64, net: U64)
    requires 0 < rate < FEE_PRECISION && net > 0
    ensures FeeForNet(rate, net) >= 1
  {
    var d := FEE_PRECISION - rate;
    ProductFits128(net, rate, d - 1);
    var q := (net * rate + (d - 1)) / d;
    RoundUp(net * rate, d, q);
    MulOrder(1, net, rate);
  }

  lemma {:induction false} SomethingNetsExactly(s: Swap, bins: seq<PlacedBin>, remaining: U64)
    requires 0 < remaining <= Capacity(s, bins)
    ensures (exists t :: t in Fill(s, bins, remaining) && t.net > 0) <==> remaining > 1 || Rate(s.pool) == 0
  {
    hide Usable, GrossCap, NetOf;
    if Usable(s, bins[0].bin) {
      var take := TakeFrom(s, bins[0], remaining);
      var rest := Fill(s, bins[1..], remaining - take.gross);
      TakesTwoWithFee(s, bins[0].bin);
      NetPositiveExactly(Rate(s.pool), take.gross);
      assert Fill(s, bins, remaining) == [take] + rest;
      assert take in [take] + rest;
    } else {
      SomethingNetsExactly(s, bins[1..], remaining);
    }
  }

  /**
    A quote exists exactly when the usable bins can absorb the whole input, and the input is more than
    the one unit that any fee takes.
   */
  lemma QuoteExistsExactly(pool: Pool, arrays: seq<BinArray>, amountIn: U64, xToY: bool)
    requires pool.activeId.Some?
    ensures var s := Swap(pool, pool.activeId.value, xToY);
            ExactIn(pool, arrays, amountIn, xToY).Some? <==>
              0 < amountIn <= Capacity(s, Route(s, arrays)) && (amountIn > 1 || Rate(pool) == 0)
  {
    hide Fill, ExactIn;
    var s := Swap(pool, pool.activeId.value, xToY);
    QuoteExistsByTakes(pool, arrays, amountIn, xToY);
    if 0 < amountIn <= Capacity(s, Route(s, arrays)) { SomethingNetsExactly(s, Route(s, arrays), amountIn); }
  }

  /** Fees only ever cost output. */
  lemma {:induction false} FeesOnlyCost(s: Swap, takes: seq<Take>)
    requires Priced(s, takes) && forall t :: t in takes ==> t.net <= t.gross
    ensures OutSum(s, takes) <= OutSumWithoutFee(s, takes)
  {
    hide OutFor, PriceYPerX;
    if takes != [] {
      assert takes == [takes[0]] + takes[1..];
      FeesOnlyCost(s, takes[1..]);
      OutForOrder(s.xToY, takes[0].net, takes[0].gross, PriceYPerX(s.pool, takes[0].place.bin));
    }
  }

  lemma FloorOrder(a: real, b: real)
    requires a <= b
    ensures FloorU64(a * SAFETY_FACTOR) <= FloorU64(b * SAFETY_FACTOR)
  {}

  /**
    The quote without fee is its own conservative amount, kept at one or more: it needs no lifting to
    stay above the quote with fee.
   */
  lemma WithoutFeeNeverLess(pool: Pool, arrays: seq<BinArray>, amountIn: U64, xToY: bool)
    requires ExactIn(pool, arrays, amountIn, xToY).Some?
    ensures var s := Swap(pool, pool.activeId.value, xToY);
            var takes := Fill(s, Route(s, arrays), amountIn);
            var (out, withoutFee, _) := ExactIn(pool, arrays, amountIn, xToY).value;
            && Priced(s, takes)
            && 1 <= out <= withoutFee
            && withoutFee == Max(FloorU64(OutSumWithoutFee(s, takes) * SAFETY_FACTOR), 1)
  {
    hide Fill, OutSum, OutSumWithoutFee, FloorU64, WithinBin;
    var s := Swap(pool, pool.activeId.value, xToY);
    var takes := Fill(s, Route(s, arrays), amountIn);
    FillPriced(s, Route(s, arrays), amountIn);
    forall t | t in takes ensures t.net <= t.gross {
      EveryTakeWithinBin(s, Route(s, arrays), amountIn, t);
      NetOfWithin(s, t);
    }
    FeesOnlyCost(s, takes);
    FloorOrder(OutSum(s, takes), OutSumWithoutFee(s, takes));
  }

  lemma NetOfWithin(s: Swap, t: Take)
    requires WithinBin(s, t)
    ensures t.net <= t.gross
  {
    hide FeeFromGross, NetCap, PriceYPerX, OutFor;
  }

  // ---------- more input ----------

  /** More input never buys less. */
  lemma {:induction false} MoreInMoreOut(s: Swap, bins: seq<PlacedBin>, a: U64, b: U64)
    requires a <= b
    ensures Priced(s, Fill(s, bins, a)) && Priced(s, Fill(s, bins, b))
    ensures OutSum(s, Fill(s, bins, a)) <= OutSum(s, Fill(s, bins, b))
  {
    FillPriced(s, bins, a);
    FillPriced(s, bins, b);
    hide OutFor, PriceYPerX, NetOf, GrossCap, Usable;
    OutSumPositive(s, Fill(s, bins, b));
    if bins != [] && a != 0 {
      if Usable(s, bins[0].bin) {
        var ta, tb := TakeFrom(s, bins[0], a), TakeFrom(s, bins[0], b);
        MoreInMoreOut(s, bins[1..], a - ta.gross, b - tb.gross);
        NetMonotone(Rate(s.pool), ta.gross, tb.gross);
        var price := UsablePrice(s, bins[0].bin);
        OutForOrder(s.xToY, ta.net, tb.net, price);
        HeadOut(s, ta, Fill(s, bins[1..], a - ta.gross));
        HeadOut(s, tb, Fill(s, bins[1..], b - tb.gross));
      } else {
        MoreInMoreOut(s, bins[1..], a, b);
      }
    }
  }

  lemma HeadOut(s: Swap, t: Take, rest: seq<Take>)
    requires Priced(s, rest) && PriceYPerX(s.pool, t.place.bin) > 0.0
    ensures Priced(s, [t] + rest)
    ensures OutSum(s, [t] + rest) == OutFor(s.xToY, t.net, PriceYPerX(s.pool, t.place.bin)) + OutSum(s, rest)
  {
    hide OutFor, PriceYPerX;
    assert ([t] + rest)[1..] == rest;
  }

  /** The quoted amount is monotone in the input wherever both inputs can be quoted. */
  lemma QuoteMonotone(pool: Pool, arrays: seq<BinArray>, a: U64, b: U64, xToY: bool)
    requires a <= b
    requires ExactIn(pool, arrays, a, xToY).Some? && ExactIn(pool, arrays, b, xToY).Some?
    ensures ExactIn(pool, arrays, a, xToY).value.0 <= ExactIn(pool, arrays, b, xToY).value.0
  {
    hide Fill, OutSum, OutSumWithoutFee, FloorU64;
    var s := Swap(pool, pool.activeId.value, xToY);
    MoreInMoreOut(s, Route(s, arrays), a, b);
    FloorOrder(OutSum(s, Fill(s, Route(s, arrays), a)), OutSum(s, Fill(s, Route(s, arrays), b)));
  }

  // ---------- order of the bins ----------

  lemma NearerFirstIsPreorder(xToY: bool)
    ensures TotalPreorder(NearerFirst(xToY))
  {}

  predicate StrictlyNearer(xToY: bool, a: PlacedBin, b: PlacedBin) {
    if xToY then a.bin.binId > b.bin.binId else a.bin.binId < b.bin.binId
  }

  lemma {:induction false} NearerIsExhausted(s: Swap, bins: seq<PlacedBin>, remaining: U64, near: PlacedBin, t: Take)
    requires SortedBy(NearerFirst(s.xToY), bins)
    requires near in bins && Usable(s, near.bin)
    requires t in Fill(s, bins, remaining) && StrictlyNearer(s.xToY, near, t.place)
    ensures exists u :: u in Fill(s, bins, remaining) && u.place == near && UsedUp(s, u)
  {
    hide GrossCap, Usable;
    assert bins == [bins[0]] + bins[1..];
    SortedTail(NearerFirst(s.xToY), bins);
    var takes := Fill(s, bins, remaining);
    if !Usable(s, bins[0].bin) {
      NearerIsExhausted(s, bins[1..], remaining, near, t);
    } else {
      var head := TakeFrom(s, bins[0], remaining);
      var left: U64 := remaining - head.gross;
      assert takes == [head] + Fill(s, bins[1..], left);
      if near == bins[0] {
        assert t in Fill(s, bins[1..], left);
        assert left > 0;
        assert head in takes;
      } else {
        assert NearerFirst(s.xToY)(bins[0], near);
        NearerIsExhausted(s, bins[1..], left, near, t);
        var u :| u in Fill(s, bins[1..], left) && u.place == near && UsedUp(s, u);
        assert u in takes;
      }
    }
  }

  /** The walk never skips: a usable bin nearer to the active one than a touched bin has been used up. */
  lemma NoBinSkipped(s: Swap, arrays: seq<BinArray>, amountIn: U64, near: PlacedBin, t: Take)
    requires near in AllBins(arrays) && Usable(s, near.bin)
    requires t in Fill(s, Route(s, arrays), amountIn) && StrictlyNearer(s.xToY, near, t.place)
    ensures exists u :: u in Fill(s, Route(s, arrays), amountIn) && u.place == near && UsedUp(s, u)
  {
    NearerFirstIsPreorder(s.xToY);
    SortSorts(NearerFirst(s.xToY), AllBins(arrays));
    NearerIsExhausted(s, Route(s, arrays), amountIn, near, t);
  }

  // ---------- bins, prices and amounts in plain terms ----------

  /** The route has every bin of every array, with the index of its array, nearest first and ties as listed. */
  lemma RouteListsBins(s: Swap, arrays: seq<BinArray>, place: PlacedBin)
    ensures place in Route(s, arrays)
            <==> exists a :: a in arrays && place.arrayIndex == a.index && place.bin in a.bins
    ensures SortedBy(NearerFirst(s.xToY), Route(s, arrays))
    ensures Equals(NearerFirst(s.xToY), place, Route(s, arrays)) == Equals(NearerFirst(s.xToY), place, AllBins(arrays))
  {
    NearerFirstIsPreorder(s.xToY);
    SortSorts(NearerFirst(s.xToY), AllBins(arrays));
    SortIsStable(NearerFirst(s.xToY), place, AllBins(arrays));
    BinsOfArrays(arrays, place);
  }

  lemma {:induction false} BinsOfArrays(arrays: seq<BinArray>, place: PlacedBin)
    ensures place in AllBins(arrays) <==> exists a :: a in arrays && place.arrayIndex == a.index && place.bin in a.bins
  {
    if arrays != [] {
      BinsOfArrays(arrays[1..], place);
      assert arrays == [arrays[0]] + arrays[1..];
      var placed := Placed(arrays[0]);
      if place in placed {
        var i :| 0 <= i < |placed| && placed[i] == place;
        assert arrays[0].bins[i] in arrays[0].bins;
      }
      if place.arrayIndex == arrays[0].index && place.bin in arrays[0].bins {
        var i :| 0 <= i < |arrays[0].bins| && arrays[0].bins[i] == place.bin;
        assert placed[i] == place;
      }
    }
  }

  /**
    A stored price is in units of 2^-64; without one, prices grow by the bin step from bin to bin, from one
    at bin zero.
   */
  lemma BinPrices(pool: Pool, bin: Bin, next: Bin)
    ensures bin.price > 0 ==> PriceYPerX(pool, bin) * 18446744073709551616.0 == bin.price as real
    ensures bin.price == 0 && pool.binStep.None? ==> PriceYPerX(pool, bin) == 0.0
    ensures bin.price == 0 && pool.binStep.Some? && bin.binId == 0 ==> PriceYPerX(pool, bin) == 1.0
    ensures bin.price == 0 && next.price == 0 && pool.binStep.Some? && next.binId == bin.binId + 1 ==>
              PriceYPerX(pool, next) == PriceYPerX(pool, bin) * (1.0 + pool.binStep.value as real / 10000.0)
  {
    if bin.price == 0 && pool.binStep.Some? {
      var base := 1.0 + pool.binStep.value as real / 10000.0;
      NextPower(base, bin.binId);
    }
  }

  lemma NextPower(base: real, n: int)
    requires base > 0.0
    ensures Power(base, n + 1) == Power(base, n) * base
  {
    if n < 0 { assert Power(base, n) * base == Power(base, n + 1); }
  }

  /** A pool without a bin step charges nothing; any other what its parameters say. */
  lemma RateOfPool(pool: Pool)
    ensures pool.binStep.None? ==> Rate(pool) == 0
    ensures pool.binStep.Some? ==> Rate(pool) == TotalFeeRate(pool.fees, pool.binStep.value)
  {}

  /**
    In plain terms: a bin on the way that has a price and something to pay, nearer than a touched bin, has been
    used up. Selling X the way leads down from the active bin, selling Y up.
   */
  lemma NoStockedBinSkipped(s: Swap, arrays: seq<BinArray>, amountIn: U64, near: PlacedBin, t: Take)
    requires near in AllBins(arrays) && t in Fill(s, Route(s, arrays), amountIn)
    requires PriceYPerX(s.pool, near.bin) > 0.0
    requires if s.xToY
             then t.place.bin.binId < near.bin.binId <= s.activeId && near.bin.amountY > 0
             else s.activeId <= near.bin.binId < t.place.bin.binId && near.bin.amountX > 0
    ensures exists u :: u in Fill(s, Route(s, arrays), amountIn) && u.place == near && UsedUp(s, u)
  {
    hide PriceYPerX, Fill, Route, UsedUp;
    NoBinSkipped(s, arrays, amountIn, near, t);
  }

  /** Any bin on the way with a price and something to pay is taken from, if the route leads to nothing else. */
  lemma SoleBinIsTaken(s: Swap, place: PlacedBin, amountIn: U64)
    requires PriceYPerX(s.pool, place.bin) > 0.0 && amountIn > 0
    ensures |Fill(s, [place], amountIn)|
            == if s.xToY then (if place.bin.binId <= s.activeId && place.bin.amountY > 0 then 1 else 0)
               else if place.bin.binId >= s.activeId && place.bin.amountX > 0 then 1 else 0
  {
    hide PriceYPerX, GrossCap, NetOf;
    assert [place][1..] == [];
  }

  /**
    Selling X takes bins at or below the active one that hold Y, and each pays less than its Y and one unit's
    worth; selling Y takes bins at or above it that hold X.
   */
  lemma TakesInPlainTerms(s: Swap, bins: seq<PlacedBin>, amountIn: U64, t: Take)
    requires t in Fill(s, bins, amountIn)
    ensures PriceYPerX(s.pool, t.place.bin) > 0.0
    ensures var bin, price, net := t.place.bin, PriceYPerX(s.pool, t.place.bin), t.net as real;
            if s.xToY
            then bin.binId <= s.activeId && bin.amountY > 0 && net * price < bin.amountY as real + price
            else bin.binId >= s.activeId && bin.amountX > 0 && net / price < bin.amountX as real + 1.0 / price
  {
    hide PriceYPerX, Fill, NetOf, GrossCap, NetCap, Rate;
    EveryTakeWithinBin(s, bins, amountIn, t);
  }

  /** A positive amount rounded down to a 64-bit number, but never below one. */
  predicate RoundedDown(out: U64, x: real) {
    if x < 1.0 then out == 1
    else if x >= 18446744073709551616.0 then out == 0xFFFF_FFFF_FFFF_FFFF
    else out as real <= x < out as real + 1.0
  }

  lemma FloorIsRoundedDown(x: real)
    requires x > 0.0
    ensures RoundedDown(Max(FloorU64(x), 1), x)
  {}

  /** What an amount buys at a price, less the safety margin of ten basis points. */
  function Conservative(xToY: bool, amount: nat, price: real): real
    requires price > 0.0
  {
    0.999 * if xToY then amount as real * price else amount as real / price
  }

  /**
    Where the nearest usable bin can take the whole input, the quote is what the input net of its fee buys
    there, and without fee what the whole input buys, each less the margin and rounded down.
   */
  lemma QuoteInOneBin(pool: Pool, arrays: seq<BinArray>, amountIn: U64, xToY: bool, i: nat, net: nat)
    requires pool.activeId.Some? && amountIn > 0
    requires var s := Swap(pool, pool.activeId.value, xToY);
             var route := Route(s, arrays);
             && i < |route| && Usable(s, route[i].bin) && amountIn <= GrossCap(s, route[i].bin)
             && forall j :: 0 <= j < i ==> !Usable(s, route[j].bin)
    requires net > 0 && net * 1_000_000_000 <= amountIn * (1_000_000_000 - Rate(pool)) < (net + 1) * 1_000_000_000
    ensures var s := Swap(pool, pool.activeId.value, xToY);
            var price := PriceYPerX(pool, Route(s, arrays)[i].bin);
            && price > 0.0
            && var r := ExactIn(pool, arrays, amountIn, xToY);
               && r.Some? && r.value.2 == 1
               && RoundedDown(r.value.0, Conservative(xToY, net, price))
               && RoundedDown(r.value.1, Conservative(xToY, amountIn, price))
  {
    hide PriceYPerX, Usable, GrossCap, Route, FloorU64, RoundedDown, Fill, OutSum, OutSumWithoutFee;
    var s := Swap(pool, pool.activeId.value, xToY);
    var route := Route(s, arrays);
    var price := UsablePrice(s, route[i].bin);
    NetRoundsDown(Rate(pool), amountIn);
    var exact := NetOf(Rate(pool), amountIn);
    SameFloor(net, exact, amountIn * (1_000_000_000 - Rate(pool)));
    FillsOne(s, route, amountIn, i);
    var take := Take(route[i], amountIn, exact);
    SumsOfOne(s, take);
    OutForOrder(xToY, exact, amountIn, price);
    Margin(xToY, exact, price);
    Margin(xToY, amountIn, price);
    FloorIsRoundedDown(OutFor(xToY, exact, price) * SAFETY_FACTOR);
    FloorIsRoundedDown(OutFor(xToY, amountIn, price) * SAFETY_FACTOR);
    WithoutFeeOfOne(s, take, amountIn, price);
    assert AllBins(arrays) != [] by { RouteNotEmpty(s, arrays); }
  }

  lemma RouteNotEmpty(s: Swap, arrays: seq<BinArray>)
    requires Route(s, arrays) != []
    ensures AllBins(arrays) != []
  {}

  lemma SameFloor(a: nat, b: nat, x: nat)
    requires a * 1_000_000_000 <= x < (a + 1) * 1_000_000_000
    requires b * 1_000_000_000 <= x < (b + 1) * 1_000_000_000
    ensures a == b
  {}

  lemma {:induction false} FillsOne(s: Swap, bins: seq<PlacedBin>, amountIn: U64, i: nat)
    requires amountIn > 0 && i < |bins| && Usable(s, bins[i].bin) && amountIn <= GrossCap(s, bins[i].bin)
    requires forall j :: 0 <= j < i ==> !Usable(s, bins[j].bin)
    ensures Fill(s, bins, amountIn) == [Take(bins[i], amountIn, NetOf(Rate(s.pool), amountIn))]
    decreases i
  {
    hide Usable, GrossCap, NetOf;
    if i > 0 {
      forall j | 0 <= j < i - 1 ensures !Usable(s, bins[1..][j].bin) { assert bins[1..][j] == bins[j + 1]; }
      FillsOne(s, bins[1..], amountIn, i - 1);
    } else {
      assert Fill(s, bins[1..], 0) == [];
    }
  }

  lemma SumsOfOne(s: Swap, t: Take)
    requires PriceYPerX(s.pool, t.place.bin) > 0.0
    ensures Priced(s, [t]) && GrossSum([t]) == t.gross
    ensures OutSum(s, [t]) == OutFor(s.xToY, t.net, PriceYPerX(s.pool, t.place.bin))
    ensures OutSumWithoutFee(s, [t]) == OutFor(s.xToY, t.gross, PriceYPerX(s.pool, t.place.bin))
    ensures Arrays([t]) == {t.place.arrayIndex} && |Arrays([t])| == 1
  {
    hide OutFor, PriceYPerX;
    EmptySums(s);
    SumsSnoc(s, [], t);
    assert [] + [t] == [t];
  }

  lemma Margin(xToY: bool, amount: U64, price: real)
    requires price > 0.0
    ensures OutFor(xToY, amount, price) * SAFETY_FACTOR == Conservative(xToY, amount, price)
  {}

  /** The quote without fee needs no lifting to the quote with fee. */
  lemma WithoutFeeOfOne(s: Swap, t: Take, amountIn: U64, price: real)
    requires price > 0.0 && OutFor(s.xToY, t.net, price) <= OutFor(s.xToY, amountIn, price)
    ensures var out := Max(FloorU64(OutFor(s.xToY, t.net, price) * SAFETY_FACTOR), 1);
            Max(FloorU64(OutFor(s.xToY, amountIn, price) * SAFETY_FACTOR), out)
            == Max(FloorU64(OutFor(s.xToY, amountIn, price) * SAFETY_FACTOR), 1)
  {
    hide OutFor;
    FloorOrder(OutFor(s.xToY, t.net, price), OutFor(s.xToY, amountIn, price));
  }
}
