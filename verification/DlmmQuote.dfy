/** The bin-walking quote of a bin-based pool: each bin in turn takes as much input as it can pay for. */
module DlmmQuote {
  import opened Wrappers
  import opened DlmmFees
  import opened Sorting

  const Q64: real := 18446744073709551616.0
  const SAFETY_FACTOR: real := 1.0 - 10.0 / 10000.0

  datatype Bin = Bin(binId: int, amountX: U64, amountY: U64, price: nat)

  datatype BinArray = BinArray(index: int, bins: seq<Bin>)

  datatype PlacedBin = PlacedBin(arrayIndex: int, bin: Bin)

  datatype Pool = Pool(activeId: Option<int>, binStep: Option<nat>, fees: FeeParameters)

  /** A swap in one direction from the active bin outward. */
  datatype Swap = Swap(pool: Pool, activeId: int, xToY: bool)

  function Rate(pool: Pool): (rate: U64)
    ensures rate <= MAX_FEE_RATE < FEE_PRECISION
  {
    if pool.binStep.None? then 0 else TotalFeeRate(pool.fees, pool.binStep.value)
  }

  function CeilU64(v: real): U64 {
    if v <= 0.0 then 0
    else Sat64(if v == v.Floor as real then v.Floor else v.Floor + 1)
  }

  function FloorU64(v: real): U64 {
    if v <= 0.0 then 0 else Sat64(v.Floor)
  }

  function Power(base: real, n: int): (r: real)
    requires base > 0.0
    ensures r > 0.0
    decreases if n < 0 then -n else n
  {
    if n == 0 then 1.0
    else if n > 0 then base * Power(base, n - 1)
    else Divided(Power(base, n + 1), base)
  }

  function Divided(a: real, b: real): (q: real)
    requires b > 0.0
    ensures a > 0.0 ==> q > 0.0
  {
    a / b
  }

  /** Stored price of a bin, or the price of its id if none is stored. */
  function PriceYPerX(pool: Pool, bin: Bin): real {
    if bin.price > 0 then bin.price as real / Q64
    else if pool.binStep.None? then 0.0
    else Power(1.0 + pool.binStep.value as real / 10000.0, bin.binId)
  }

  function Placed(source: BinArray): (r: seq<PlacedBin>) {
    seq(|source.bins|, i requires 0 <= i < |source.bins| => PlacedBin(source.index, source.bins[i]))
  }

  function AllBins(arrays: seq<BinArray>): seq<PlacedBin> {
    if arrays == [] then [] else Placed(arrays[0]) + AllBins(arrays[1..])
  }

  function NearerFirst(xToY: bool): (PlacedBin, PlacedBin) -> bool {
    (a: PlacedBin, b: PlacedBin) => if xToY then a.bin.binId >= b.bin.binId else a.bin.binId <= b.bin.binId
  }

  function Reserve(xToY: bool, bin: Bin): U64 {
    if xToY then bin.amountY else bin.amountX
  }

  predicate Usable(s: Swap, bin: Bin) {
    && (if s.xToY then bin.binId <= s.activeId else bin.binId >= s.activeId)
    && PriceYPerX(s.pool, bin) > 0.0
    && Reserve(s.xToY, bin) > 0
  }

  /** Output for an amount of input at a price. */
  function OutFor(xToY: bool, amount: U64, price: real): real
    requires price > 0.0
  {
    if xToY then amount as real * price else amount as real / price
  }

  /** Net input that pays for exactly what a bin holds. */
  function ExactNet(s: Swap, bin: Bin): real
    requires Usable(s, bin)
  {
    var price, reserve := PriceYPerX(s.pool, bin), Reserve(s.xToY, bin) as real;
    if s.xToY then reserve / price else reserve * price
  }

  /** Net input that pays for everything a bin holds, rounded up to whole units. */
  function NetCap(s: Swap, bin: Bin): U64
    requires Usable(s, bin)
  {
    CeilU64(ExactNet(s, bin))
  }

  function GrossCap(s: Swap, bin: Bin): U64
    requires Usable(s, bin)
  {
    Sat64(NetCap(s, bin) + FeeForNet(Rate(s.pool), NetCap(s, bin)))
  }

  /** What one bin takes of the input. */
  datatype Take = Take(place: PlacedBin, gross: U64, net: U64)

  function TakeFrom(s: Swap, place: PlacedBin, remaining: U64): Take
    requires Usable(s, place.bin)
  {
    var gross := if remaining <= GrossCap(s, place.bin) then remaining else GrossCap(s, place.bin);
    Take(place, gross, NetOf(Rate(s.pool), gross))
  }

  function Fill(s: Swap, bins: seq<PlacedBin>, remaining: U64): seq<Take> {
    if bins == [] || remaining == 0 then []
    else if !Usable(s, bins[0].bin) then Fill(s, bins[1..], remaining)
    else
      var take := TakeFrom(s, bins[0], remaining);
      [take] + Fill(s, bins[1..], remaining - take.gross)
  }

  function GrossSum(takes: seq<Take>): nat {
    if takes == [] then 0 else takes[0].gross + GrossSum(takes[1..])
  }

  predicate Priced(s: Swap, takes: seq<Take>) {
    forall t :: t in takes ==> PriceYPerX(s.pool, t.place.bin) > 0.0
  }

  function OutSum(s: Swap, takes: seq<Take>): real
    requires Priced(s, takes)
  {
    if takes == [] then 0.0
    else OutFor(s.xToY, takes[0].net, PriceYPerX(s.pool, takes[0].place.bin)) + OutSum(s, takes[1..])
  }

  function OutSumWithoutFee(s: Swap, takes: seq<Take>): real
    requires Priced(s, takes)
  {
    if takes == [] then 0.0
    else OutFor(s.xToY, takes[0].gross, PriceYPerX(s.pool, takes[0].place.bin)) + OutSumWithoutFee(s, takes[1..])
  }

  function Arrays(takes: seq<Take>): set<int> {
    set t | t in takes :: t.place.arrayIndex
  }

  lemma {:induction false} FillPriced(s: Swap, bins: seq<PlacedBin>, remaining: U64)
    ensures Priced(s, Fill(s, bins, remaining))
  {
    if bins != [] && remaining != 0 {
      if Usable(s, bins[0].bin) { FillPriced(s, bins[1..], remaining - TakeFrom(s, bins[0], remaining).gross); }
      else { FillPriced(s, bins[1..], remaining); }
    }
  }

  function Max(a: U64, b: U64): U64 {
    if a >= b then a else b
  }

  /** The quoted amounts with and without fee, never below one, and the number of arrays touched. */
  function Quoted(s: Swap, takes: seq<Take>): (U64, U64, nat)
    requires Priced(s, takes)
  {
    var out := Max(FloorU64(OutSum(s, takes) * SAFETY_FACTOR), 1);
    (out, Max(FloorU64(OutSumWithoutFee(s, takes) * SAFETY_FACTOR), out), |Arrays(takes)|)
  }

  function Route(s: Swap, arrays: seq<BinArray>): seq<PlacedBin> {
    Sort(NearerFirst(s.xToY), AllBins(arrays))
  }

  function ExactIn(pool: Pool, arrays: seq<BinArray>, amountIn: U64, xToY: bool): Option<(U64, U64, nat)> {
    if pool.activeId.None? || amountIn == 0 || AllBins(arrays) == [] then None
    else
      var s := Swap(pool, pool.activeId.value, xToY);
      var takes := Fill(s, Route(s, arrays), amountIn);
      FillPriced(s, Route(s, arrays), amountIn);
      if GrossSum(takes) < amountIn || OutSum(s, takes) <= 0.0 then None
      else Some(Quoted(s, takes))
  }

  // ---------- sums over one more take ----------

  lemma {:induction false} SumsSnoc(s: Swap, takes: seq<Take>, t: Take)
    requires Priced(s, takes) && PriceYPerX(s.pool, t.place.bin) > 0.0
    ensures Priced(s, takes + [t])
    ensures GrossSum(takes + [t]) == GrossSum(takes) + t.gross
    ensures OutSum(s, takes + [t]) == OutSum(s, takes) + OutFor(s.xToY, t.net, PriceYPerX(s.pool, t.place.bin))
    ensures OutSumWithoutFee(s, takes + [t])
            == OutSumWithoutFee(s, takes) + OutFor(s.xToY, t.gross, PriceYPerX(s.pool, t.place.bin))
    ensures Arrays(takes + [t]) == Arrays(takes) + {t.place.arrayIndex}
  {
    hide OutFor, PriceYPerX;
    if takes == [] {
      assert takes + [t] == [t];
    } else {
      SumsSnoc(s, takes[1..], t);
      assert (takes + [t])[1..] == takes[1..] + [t];
      assert forall u :: u in takes + [t] ==> u in takes || u == t;
    }
    assert forall u :: u in takes ==> u in takes + [t];
    assert t in takes + [t];
  }

  method QuoteMeteoraExactIn(pool: Pool, arrays: seq<BinArray>, amountIn: U64, xToY: bool)
    returns (r: Option<(U64, U64, nat)>)
    ensures r == ExactIn(pool, arrays, amountIn, xToY)
  {
    hide Fill, OutSum, OutSumWithoutFee, GrossSum, Arrays, Sort, FloorU64;
    if pool.activeId.None? || amountIn == 0 { return None; }
    var bins := AllBins(arrays);
    if bins == [] { return None; }
    bins := Sort(NearerFirst(xToY), bins);
    var s := Swap(pool, pool.activeId.value, xToY);
    var remaining, amountOut, amountOutWithoutFee, touched := FillBins(s, bins, amountIn);
    FillPriced(s, bins, amountIn);
    if remaining > 0 || amountOut <= 0.0 { return None; }
    var out := Max(FloorU64(amountOut * SAFETY_FACTOR), 1);
    return Some((out, Max(FloorU64(amountOutWithoutFee * SAFETY_FACTOR), out), |touched|));
  }

  /** The loop over the sorted bins. */
  method FillBins(s: Swap, bins: seq<PlacedBin>, amountIn: U64)
    returns (remaining: U64, amountOut: real, amountOutWithoutFee: real, touched: set<int>)
    requires amountIn > 0
    ensures Priced(s, Fill(s, bins, amountIn))
    ensures GrossSum(Fill(s, bins, amountIn)) + remaining == amountIn
    ensures amountOut == OutSum(s, Fill(s, bins, amountIn))
    ensures amountOutWithoutFee == OutSumWithoutFee(s, Fill(s, bins, amountIn))
    ensures touched == Arrays(Fill(s, bins, amountIn))
  {
    hide OutFor, PriceYPerX, NetOf, FeeForNet, FeeFromGross, Usable, NetCap, OutSum, OutSumWithoutFee,
        GrossSum, Arrays, GrossCap;
    var rate := Rate(s.pool);
    remaining, amountOut, amountOutWithoutFee, touched := amountIn, 0.0, 0.0, {};
    ghost var takes: seq<Take> := [];
    ghost var whole := Fill(s, bins, amountIn);
    EmptySums(s);
    assert takes + Fill(s, bins[0..], remaining) == whole by { assert bins[0..] == bins; }
    for i := 0 to |bins|
      invariant remaining > 0
      invariant Priced(s, takes)
      invariant takes + Fill(s, bins[i..], remaining) == whole
      invariant GrossSum(takes) + remaining == amountIn
      invariant amountOut == OutSum(s, takes)
      invariant amountOutWithoutFee == OutSumWithoutFee(s, takes)
      invariant touched == Arrays(takes)
    {
      var bin := bins[i].bin;
      FillStep(s, bins, i, remaining);
      if !Usable(s, bin) { continue; }
      var price := UsablePrice(s, bin);
      var used := if remaining <= GrossCap(s, bin) then remaining else GrossCap(s, bin);
      var net := NetOf(rate, used);
      ghost var take := Take(bins[i], used, net);
      SumsSnoc(s, takes, take);
      amountOut := amountOut + OutFor(s.xToY, net, price);
      amountOutWithoutFee := amountOutWithoutFee + OutFor(s.xToY, used, price);
      touched := touched + {bins[i].arrayIndex};
      remaining := remaining - used;
      takes := takes + [take];
      if remaining == 0 { break; }
    }
    assert Fill(s, [], remaining) == [];
    assert whole == takes;
  }

  lemma FillStep(s: Swap, bins: seq<PlacedBin>, i: nat, remaining: U64)
    requires i < |bins| && remaining > 0
    ensures Fill(s, bins[i..], remaining)
            == if !Usable(s, bins[i].bin) then Fill(s, bins[i + 1..], remaining)
               else
                 var take := TakeFrom(s, bins[i], remaining);
                 [take] + Fill(s, bins[i + 1..], remaining - take.gross)
  {
    hide Usable, GrossCap, NetOf;
    assert bins[i..][0] == bins[i] && bins[i..][1..] == bins[i + 1..];
  }

  function UsablePrice(s: Swap, bin: Bin): (price: real)
    requires Usable(s, bin)
    ensures price == PriceYPerX(s.pool, bin) > 0.0
  {
    PriceYPerX(s.pool, bin)
  }

  lemma EmptySums(s: Swap)
    ensures GrossSum([]) == 0 && OutSum(s, []) == 0.0 && OutSumWithoutFee(s, []) == 0.0 && Arrays([]) == {}
  {}
}
