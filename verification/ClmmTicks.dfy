/**
  Initialized ticks of a concentrated-liquidity pool, and the two searches for the next one:
  the iterator chain of the multi-range quote and the sort-and-scan of the single-range quote.
 */
module ClmmTicks {
  import opened Wrappers

  datatype TickState = TickState(tick: int, liquidityNet: int, liquidityGross: nat)

  datatype TickArrayState = TickArrayState(startTickIndex: int, initializedTicks: seq<TickState>)

  /** An initialized tick together with the start index of the array that lists it. */
  datatype Candidate = Candidate(state: TickState, start: int)

  function Tagged(ticks: seq<TickState>, start: int): (cs: seq<Candidate>)
    ensures |cs| == |ticks|
    ensures forall i :: 0 <= i < |cs| ==> cs[i] == Candidate(ticks[i], start)
  {
    seq(|ticks|, i requires 0 <= i < |ticks| => Candidate(ticks[i], start))
  }

  /** All ticks of all arrays, in the order in which they are iterated. */
  function AllTicks(arrays: seq<TickArrayState>): seq<Candidate> {
    if arrays == [] then []
    else Tagged(arrays[0].initializedTicks, arrays[0].startTickIndex) + AllTicks(arrays[1..])
  }

  predicate Eligible(tick: int, tickCurrent: int, baseIn: bool) {
    if baseIn then tick <= tickCurrent else tick > tickCurrent
  }

  /** True if a swap in this direction reaches tick `a` no later than tick `b`. */
  predicate NoFarther(a: int, b: int, baseIn: bool) {
    if baseIn then a >= b else a <= b
  }

  /**
    The nearest eligible tick. Of several equal candidates the downward search keeps the last one
    (a maximum replaces an equal earlier maximum) and the upward search keeps the first.
   */
  function NextTick(ticks: seq<Candidate>, tickCurrent: int, baseIn: bool): (r: Option<Candidate>)
    ensures r.None? ==> forall c :: c in ticks ==> !Eligible(c.state.tick, tickCurrent, baseIn)
    ensures r.Some? ==>
              && r.value in ticks
              && Eligible(r.value.state.tick, tickCurrent, baseIn)
              && forall c :: c in ticks && Eligible(c.state.tick, tickCurrent, baseIn)
                             ==> NoFarther(r.value.state.tick, c.state.tick, baseIn)
  {
    if ticks == [] then None
    else
      var init, c := ticks[..|ticks| - 1], ticks[|ticks| - 1];
      var best := NextTick(init, tickCurrent, baseIn);
      assert ticks == init + [c];
      if !Eligible(c.state.tick, tickCurrent, baseIn) then best
      else if best.None? then Some(c)
      else if baseIn then (if c.state.tick >= best.value.state.tick then Some(c) else best)
      else if c.state.tick < best.value.state.tick then Some(c)
      else best
  }

  predicate OneListingPerTick(ticks: seq<Candidate>) {
    forall c, d :: c in ticks && d in ticks && c.state.tick == d.state.tick ==> c == d
  }

  // ---------- the single-range search ----------

  function TickValues(ticks: seq<Candidate>): (r: seq<int>)
    ensures |r| == |ticks| && forall i :: 0 <= i < |r| ==> r[i] == ticks[i].state.tick
  {
    seq(|ticks|, i requires 0 <= i < |ticks| => ticks[i].state.tick)
  }

  predicate Ascending(s: seq<int>) {
    forall i, j :: 0 <= i < j < |s| ==> s[i] < s[j]
  }

  lemma AscendingCons(x: int, s: seq<int>)
    requires Ascending(s) && forall y :: y in s ==> x < y
    ensures Ascending([x] + s)
  {
    forall i, j | 0 <= i < j < |[x] + s| ensures ([x] + s)[i] < ([x] + s)[j] {
      assert ([x] + s)[j] == s[j - 1] && s[j - 1] in s;
      if i > 0 { assert ([x] + s)[i] == s[i - 1]; }
    }
  }

  function InsertUnique(s: seq<int>, x: int): (r: seq<int>)
    requires Ascending(s)
    ensures Ascending(r)
    ensures forall y :: y in r <==> y == x || y in s
  {
    if s == [] then [x]
    else if x == s[0] then s
    else if x < s[0] then
      AscendingCons(x, s);
      [x] + s
    else
      var rest := InsertUnique(s[1..], x);
      assert s == [s[0]] + s[1..];
      AscendingCons(s[0], rest);
      [s[0]] + rest
  }

  /** Sorting followed by removal of duplicates. */
  function SortedUnique(s: seq<int>): (r: seq<int>)
    ensures Ascending(r)
    ensures forall y :: y in r <==> y in s
  {
    if s == [] then [] else InsertUnique(SortedUnique(s[1..]), s[0])
  }

  /** First element from the top that is not above `limit`. */
  function FindDown(s: seq<int>, limit: int): Option<int> {
    if s == [] then None
    else if s[|s| - 1] <= limit then Some(s[|s| - 1])
    else FindDown(s[..|s| - 1], limit)
  }

  /** First element from the bottom that is above `limit`. */
  function FindUp(s: seq<int>, limit: int): Option<int> {
    if s == [] then None
    else if s[0] > limit then Some(s[0])
    else FindUp(s[1..], limit)
  }

  function NextTickValue(ticks: seq<Candidate>, tickCurrent: int, baseIn: bool): Option<int> {
    var sorted := SortedUnique(TickValues(ticks));
    if baseIn then FindDown(sorted, tickCurrent) else FindUp(sorted, tickCurrent)
  }

  /** Start index of the first array that lists the tick. */
  function FirstListing(arrays: seq<TickArrayState>, tick: int): Option<int> {
    if arrays == [] then None
    else if exists t :: t in arrays[0].initializedTicks && t.tick == tick
    then Some(arrays[0].startTickIndex)
    else FirstListing(arrays[1..], tick)
  }

  /** Start index of the last array that lists the tick. */
  function LastListing(arrays: seq<TickArrayState>, tick: int): Option<int> {
    if arrays == [] then None
    else
      var last := arrays[|arrays| - 1];
      if exists t :: t in last.initializedTicks && t.tick == tick then Some(last.startTickIndex)
      else LastListing(arrays[..|arrays| - 1], tick)
  }

  lemma {:induction false} FindDownMeaning(s: seq<int>, limit: int)
    requires Ascending(s)
    ensures FindDown(s, limit).None? ==> forall y :: y in s ==> y > limit
    ensures FindDown(s, limit).Some? ==>
              var r := FindDown(s, limit).value;
              r in s && r <= limit && forall y :: y in s && y <= limit ==> y <= r
  {
    if s != [] && s[|s| - 1] > limit {
      FindDownMeaning(s[..|s| - 1], limit);
      assert s == s[..|s| - 1] + [s[|s| - 1]];
    }
  }

  lemma {:induction false} FindUpMeaning(s: seq<int>, limit: int)
    requires Ascending(s)
    ensures FindUp(s, limit).None? ==> forall y :: y in s ==> y <= limit
    ensures FindUp(s, limit).Some? ==>
              var r := FindUp(s, limit).value;
              r in s && r > limit && forall y :: y in s && y > limit ==> y >= r
  {
    if s != [] && s[0] <= limit {
      FindUpMeaning(s[1..], limit);
      assert s == [s[0]] + s[1..];
    }
  }

  lemma NextTickValueMeaning(ticks: seq<Candidate>, tickCurrent: int, baseIn: bool)
    ensures var r := NextTickValue(ticks, tickCurrent, baseIn);
            && (r.None? ==> forall c :: c in ticks ==> !Eligible(c.state.tick, tickCurrent, baseIn))
            && (r.Some? ==>
                  && (exists c :: c in ticks && c.state.tick == r.value)
                  && Eligible(r.value, tickCurrent, baseIn)
                  && forall c :: c in ticks && Eligible(c.state.tick, tickCurrent, baseIn)
                                 ==> NoFarther(r.value, c.state.tick, baseIn))
  {
    var values := TickValues(ticks);
    var sorted := SortedUnique(values);
    FindDownMeaning(sorted, tickCurrent);
    FindUpMeaning(sorted, tickCurrent);
    forall c | c in ticks ensures c.state.tick in sorted {
      var i :| 0 <= i < |ticks| && ticks[i] == c;
      assert values[i] in values;
    }
    var r := NextTickValue(ticks, tickCurrent, baseIn);
    if r.Some? {
      assert r.value in values;
      var j :| 0 <= j < |values| && values[j] == r.value;
      assert ticks[j] in ticks;
    }
  }

  /** Both searches stop at the same tick. */
  lemma SearchesAgree(ticks: seq<Candidate>, tickCurrent: int, baseIn: bool)
    ensures var a, b := NextTick(ticks, tickCurrent, baseIn), NextTickValue(ticks, tickCurrent, baseIn);
            && (a.Some? <==> b.Some?)
            && (a.Some? ==> a.value.state.tick == b.value)
  {
    hide NextTick, NextTickValue;
    NextTickValueMeaning(ticks, tickCurrent, baseIn);
  }

  /** A tick is found in some array exactly when it is among the iterated ticks. */
  lemma {:induction false} ListedIffIterated(arrays: seq<TickArrayState>, tick: int)
    ensures FirstListing(arrays, tick).Some? <==> exists c :: c in AllTicks(arrays) && c.state.tick == tick
    ensures FirstListing(arrays, tick).Some? ==>
              exists c :: c in AllTicks(arrays) && c.state.tick == tick && c.start == FirstListing(arrays, tick).value
  {
    if arrays != [] {
      var head, rest := arrays[0], AllTicks(arrays[1..]);
      var tagged := Tagged(head.initializedTicks, head.startTickIndex);
      ListedIffIterated(arrays[1..], tick);
      if t :| t in head.initializedTicks && t.tick == tick {
        var i :| 0 <= i < |head.initializedTicks| && head.initializedTicks[i] == t;
        assert tagged[i] in tagged + rest;
      } else {
        assert forall c :: c in tagged ==> c.state.tick != tick;
        assert AllTicks(arrays) == tagged + rest;
      }
    }
  }

  /** The upward search keeps the first listing of its tick, so it names the same array. */
  lemma {:induction false} UpwardSearchNamesFirstListing(
    arrays: seq<TickArrayState>, ticks: seq<Candidate>, tickCurrent: int)
    requires ticks == AllTicks(arrays)
    ensures var r := NextTick(ticks, tickCurrent, false);
            r.Some? ==> FirstListing(arrays, r.value.state.tick) == Some(r.value.start)
  {
    var r := NextTick(ticks, tickCurrent, false);
    if r.Some? {
      var i := FirstMinimum(ticks, tickCurrent);
      FirstOccurrenceNamesListing(arrays, i);
    }
  }

  lemma {:induction false} FirstMinimum(ticks: seq<Candidate>, tickCurrent: int) returns (i: nat)
    requires NextTick(ticks, tickCurrent, false).Some?
    ensures i < |ticks| && ticks[i] == NextTick(ticks, tickCurrent, false).value
    ensures forall j :: 0 <= j < i ==> ticks[j].state.tick != ticks[i].state.tick
  {
    var init, c := ticks[..|ticks| - 1], ticks[|ticks| - 1];
    var best := NextTick(init, tickCurrent, false);
    if best.Some? && NextTick(ticks, tickCurrent, false) == best {
      i := FirstMinimum(init, tickCurrent);
    } else {
      i := |ticks| - 1;
      forall j | 0 <= j < i ensures ticks[j].state.tick != c.state.tick {
        assert init[j] == ticks[j] && init[j] in init;
      }
    }
  }

  lemma {:induction false} FirstOccurrenceNamesListing(arrays: seq<TickArrayState>, i: nat)
    requires i < |AllTicks(arrays)|
    requires forall j :: 0 <= j < i ==> AllTicks(arrays)[j].state.tick != AllTicks(arrays)[i].state.tick
    ensures FirstListing(arrays, AllTicks(arrays)[i].state.tick) == Some(AllTicks(arrays)[i].start)
  {
    var all := AllTicks(arrays);
    var head, rest := arrays[0], AllTicks(arrays[1..]);
    var tagged := Tagged(head.initializedTicks, head.startTickIndex);
    assert all == tagged + rest;
    if i < |tagged| {
      assert head.initializedTicks[i] in head.initializedTicks;
    } else {
      forall t | t in head.initializedTicks ensures t.tick != all[i].state.tick {
        var j :| 0 <= j < |head.initializedTicks| && head.initializedTicks[j] == t;
        assert all[j] == tagged[j];
      }
      forall j | 0 <= j < i - |tagged| ensures rest[j].state.tick != rest[i - |tagged|].state.tick {
        assert rest[j] == all[j + |tagged|];
      }
      FirstOccurrenceNamesListing(arrays[1..], i - |tagged|);
    }
  }

  /** The downward search keeps the last listing of its tick. */
  lemma {:induction false} DownwardSearchNamesLastListing(
    arrays: seq<TickArrayState>, ticks: seq<Candidate>, tickCurrent: int)
    requires ticks == AllTicks(arrays)
    ensures var r := NextTick(ticks, tickCurrent, true);
            r.Some? ==> LastListing(arrays, r.value.state.tick) == Some(r.value.start)
  {
    var r := NextTick(ticks, tickCurrent, true);
    if r.Some? {
      var i := LastMaximum(ticks, tickCurrent);
      LastOccurrenceNamesListing(arrays, i);
    }
  }

  lemma {:induction false} LastMaximum(ticks: seq<Candidate>, tickCurrent: int) returns (i: nat)
    requires NextTick(ticks, tickCurrent, true).Some?
    ensures i < |ticks| && ticks[i] == NextTick(ticks, tickCurrent, true).value
    ensures forall j :: i < j < |ticks| ==> ticks[j].state.tick != ticks[i].state.tick
  {
    var n := |ticks| - 1;
    var best := NextTick(ticks[..n], tickCurrent, true);
    var c := ticks[n];
    if Eligible(c.state.tick, tickCurrent, true) && (best.None? || c.state.tick >= best.value.state.tick) {
      i := n;
    } else {
      i := LastMaximum(ticks[..n], tickCurrent);
      assert Eligible(ticks[i].state.tick, tickCurrent, true);
    }
  }

  lemma {:induction false} AllTicksSnoc(arrays: seq<TickArrayState>)
    requires arrays != []
    ensures var n := |arrays| - 1;
            AllTicks(arrays) == AllTicks(arrays[..n]) + Tagged(arrays[n].initializedTicks, arrays[n].startTickIndex)
  {
    hide Tagged;
    var n := |arrays| - 1;
    if n == 0 {
      assert AllTicks(arrays[1..]) == [];
    } else {
      AllTicksSnoc(arrays[1..]);
      assert arrays[1..][..n - 1] == arrays[..n][1..];
    }
  }

  lemma {:induction false} LastOccurrenceNamesListing(arrays: seq<TickArrayState>, i: nat)
    requires i < |AllTicks(arrays)|
    requires forall j :: i < j < |AllTicks(arrays)| ==> AllTicks(arrays)[j].state.tick != AllTicks(arrays)[i].state.tick
    ensures LastListing(arrays, AllTicks(arrays)[i].state.tick) == Some(AllTicks(arrays)[i].start)
    decreases |arrays|
  {
    hide AllTicks;
    assert arrays != [] by { NoTicks(); }
    var n := |arrays| - 1;
    var all, init, last := AllTicks(arrays), AllTicks(arrays[..n]), arrays[n];
    var tagged := Tagged(last.initializedTicks, last.startTickIndex);
    AllTicksSnoc(arrays);
    if i >= |init| {
      assert last.initializedTicks[i - |init|] in last.initializedTicks;
    } else {
      forall t | t in last.initializedTicks ensures t.tick != all[i].state.tick {
        var j :| 0 <= j < |last.initializedTicks| && last.initializedTicks[j] == t;
        assert all[|init| + j] == tagged[j];
      }
      forall j | i < j < |init| ensures init[j].state.tick != init[i].state.tick {
        assert init[j] == all[j];
      }
      LastOccurrenceNamesListing(arrays[..n], i);
    }
  }

  lemma NoTicks()
    ensures AllTicks([]) == []
  {}

  /** A tick that is listed once has one listing. */
  lemma OneListing(arrays: seq<TickArrayState>, tick: int)
    requires OneListingPerTick(AllTicks(arrays))
    ensures FirstListing(arrays, tick) == LastListing(arrays, tick)
  {
    hide FirstListing, LastListing;
    ListedIffIterated(arrays, tick);
    LastListedIffIterated(arrays, tick);
  }

  lemma {:induction false} LastListedIffIterated(arrays: seq<TickArrayState>, tick: int)
    ensures LastListing(arrays, tick).Some? <==> exists c :: c in AllTicks(arrays) && c.state.tick == tick
    ensures LastListing(arrays, tick).Some? ==>
              exists c :: c in AllTicks(arrays) && c.state.tick == tick && c.start == LastListing(arrays, tick).value
    decreases |arrays|
  {
    if arrays != [] {
      var n := |arrays| - 1;
      var last, init := arrays[n], AllTicks(arrays[..n]);
      var tagged := Tagged(last.initializedTicks, last.startTickIndex);
      AllTicksSnoc(arrays);
      LastListedIffIterated(arrays[..n], tick);
      if t :| t in last.initializedTicks && t.tick == tick {
        var i :| 0 <= i < |last.initializedTicks| && last.initializedTicks[i] == t;
        assert tagged[i] in init + tagged;
      } else {
        assert forall c :: c in tagged ==> c.state.tick != tick;
      }
    }
  }
}
