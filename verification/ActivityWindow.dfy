/**
  Recent activity of known pools: each pool keeps a pruned queue of event times, and the counts taken
  from the queue are to be those of everything ever recorded.
 */
module ActivityWindow {
  import opened Wrappers

  const U64_MAX: nat := 0xFFFF_FFFF_FFFF_FFFF
  const RECENT_5M_SECS: nat := 300
  const RECENT_15M_SECS: nat := 900

  /** What a parsed account says about a pool; replaced as a whole by every update. */
  datatype Details = Details(
    venue: string,
    tokenMint: string,
    quoteMint: string,
    tokenVault: string,
    quoteVault: string,
    tokenDecimals: nat,
    quoteDecimals: nat,
    spotPrice: Option<real>,
    clmmSqrtPriceX64: Option<nat>,
    clmmQuoteIsToken0: Option<bool>,
    meteoraActiveId: Option<int>,
    meteoraBinStep: Option<nat>,
    meteoraQuoteIsX: Option<bool>,
    meteoraBaseFactor: Option<nat>,
    meteoraVariableFeeControl: Option<nat>,
    meteoraBaseFeePowerFactor: Option<nat>,
    meteoraVolatilityAccumulator: Option<nat>)

  datatype ParsedPool = ParsedPool(
    address: string,
    details: Details,
    quoteLiquidityUsdc: real,
    latestSlot: nat,
    hits: nat,
    activity: seq<nat>)

  function Max(a: nat, b: nat): nat {
    if a >= b then a else b
  }

  function SatIncrement(n: nat): nat {
    if n < U64_MAX then n + 1 else U64_MAX
  }

  /** Start of the window of a length that ends now. */
  function Cutoff(now: nat, window: nat): nat {
    if now >= window then now - window else 0
  }

  function CountSince(times: seq<nat>, cutoff: nat): nat {
    if times == [] then 0
    else CountSince(times[..|times| - 1], cutoff) + if times[|times| - 1] >= cutoff then 1 else 0
  }

  /** Events of the last five and of the last fifteen minutes. */
  function RecentCounts(times: seq<nat>, now: nat): (nat, nat) {
    (CountSince(times, Cutoff(now, RECENT_5M_SECS)), CountSince(times, Cutoff(now, RECENT_15M_SECS)))
  }

  function DropExpired(times: seq<nat>, cutoff: nat): (r: seq<nat>)
    ensures |r| <= |times| && r == times[|times| - |r|..]
    ensures forall i :: 0 <= i < |times| - |r| ==> times[i] < cutoff
    ensures r != [] ==> r[0] >= cutoff
  {
    if times == [] || times[0] >= cutoff then times else DropExpired(times[1..], cutoff)
  }

  method RecentActivityCounts(pool: ParsedPool, now: nat) returns (recent5m: nat, recent15m: nat)
    ensures (recent5m, recent15m) == RecentCounts(pool.activity, now)
  {
    var cutoff5m := Cutoff(now, RECENT_5M_SECS);
    var cutoff15m := Cutoff(now, RECENT_15M_SECS);
    recent5m, recent15m := 0, 0;
    for i := 0 to |pool.activity|
      invariant recent5m == CountSince(pool.activity[..i], cutoff5m)
      invariant recent15m == CountSince(pool.activity[..i], cutoff15m)
    {
      assert pool.activity[..i + 1][..i] == pool.activity[..i];
      if pool.activity[i] >= cutoff15m { recent15m := recent15m + 1; }
      if pool.activity[i] >= cutoff5m { recent5m := recent5m + 1; }
    }
    assert pool.activity[..|pool.activity|] == pool.activity;
  }

  /** Pops expired events off the front of the queue, stopping at the first that is not. */
  method PrunePoolActivity(activity: seq<nat>, now: nat) returns (events: seq<nat>)
    ensures events == DropExpired(activity, Cutoff(now, RECENT_15M_SECS))
  {
    var cutoff := Cutoff(now, RECENT_15M_SECS);
    events := activity;
    while events != [] && events[0] < cutoff
      invariant DropExpired(events, cutoff) == DropExpired(activity, cutoff)
    {
      events := events[1..];
    }
  }

  // ---------- the table of known pools ----------

  type Table = map<string, ParsedPool>

  /** A known pool keeps its activity, liquidity and newest slot; a new one is taken as it comes. */
  function Upserted(table: Table, pool: ParsedPool): Table {
    if pool.address in table then
      var existing := table[pool.address];
      table[pool.address := existing.(
        details := pool.details,
        latestSlot := Max(existing.latestSlot, pool.latestSlot),
        hits := SatIncrement(existing.hits))]
    else table[pool.address := pool]
  }

  function Recorded(table: Table, address: string, now: nat, slot: nat): Table {
    if address !in table then table
    else
      var pool := table[address];
      table[address := pool.(
        latestSlot := Max(pool.latestSlot, slot),
        activity := DropExpired(pool.activity, Cutoff(now, RECENT_15M_SECS)) + [now],
        hits := SatIncrement(pool.hits))]
  }

  function Pruned(table: Table, address: string, now: nat): Table {
    if address !in table then table
    else
      var pool := table[address];
      table[address := pool.(activity := DropExpired(pool.activity, Cutoff(now, RECENT_15M_SECS)))]
  }

  class KnownPools {
    var pools: Table

    constructor ()
      ensures pools == map[]
    {
      pools := map[];
    }

    method UpsertKnownPool(pool: ParsedPool)
      modifies this
      ensures pools == Upserted(old(pools), pool)
    {
      if pool.address in pools {
        var existing := pools[pool.address];
        existing := existing.(details := pool.details);
        existing := existing.(latestSlot := Max(existing.latestSlot, pool.latestSlot));
        existing := existing.(hits := SatIncrement(existing.hits));
        pools := pools[pool.address := existing];
      } else {
        pools := pools[pool.address := pool];
      }
    }

    method RecordPoolActivity(address: string, now: nat, slot: nat) returns (known: bool)
      modifies this
      ensures known <==> address in old(pools)
      ensures pools == Recorded(old(pools), address, now, slot)
    {
      if address !in pools { return false; }
      var pool := pools[address];
      pool := pool.(latestSlot := Max(pool.latestSlot, slot));
      var events := PrunePoolActivity(pool.activity, now);
      pool := pool.(activity := events + [now]);
      pool := pool.(hits := SatIncrement(pool.hits));
      pools := pools[address := pool];
      return true;
    }

    method RemovePool(address: string)
      modifies this
      ensures pools == old(pools) - {address}
    {
      pools := pools - {address};
    }
  }

  // ---------- runs ----------

  datatype Op =
    | Upsert(pool: ParsedPool)
    | Record(address: string, now: nat, slot: nat)
    | Prune(address: string, now: nat)
    | Remove(address: string)

  function Apply(table: Table, op: Op): Table {
    match op
    case Upsert(pool) => Upserted(table, pool)
    case Record(address, now, slot) => Recorded(table, address, now, slot)
    case Prune(address, now) => Pruned(table, address, now)
    case Remove(address) => table - {address}
  }

  function Run(ops: seq<Op>): Table {
    if ops == [] then map[] else Apply(Run(ops[..|ops| - 1]), ops[|ops| - 1])
  }

  /** Everything recorded for an address since its pool was last inserted; nothing is ever dropped. */
  function EverRecorded(ops: seq<Op>, address: string): Option<seq<nat>> {
    if ops == [] then None
    else
      var before := EverRecorded(ops[..|ops| - 1], address);
      match ops[|ops| - 1]
      case Upsert(pool) => if pool.address == address && before.None? then Some(pool.activity) else before
      case Record(a, now, _) => if a == address && before.Some? then Some(before.value + [now]) else before
      case Prune(_, _) => before
      case Remove(a) => if a == address then None else before
  }

  /** The latest time at which the queue of an address was pruned, which every recording does first. */
  function LatestPruning(ops: seq<Op>, address: string): nat {
    if ops == [] then 0
    else
      var before, op := LatestPruning(ops[..|ops| - 1], address), ops[|ops| - 1];
      if (op.Record? || op.Prune?) && op.address == address then Max(before, op.now) else before
  }

  function QueueOf(table: Table, address: string): Option<seq<nat>> {
    if address in table then Some(table[address].activity) else None
  }

  /** What one operation does to one queue. */
  lemma QueueStep(table: Table, op: Op, address: string)
    ensures var before, after := QueueOf(table, address), QueueOf(Apply(table, op), address);
            match op
            case Upsert(pool) =>
              after == if pool.address == address && before.None? then Some(pool.activity) else before
            case Record(a, now, _) =>
              after == if a == address && before.Some?
                       then Some(DropExpired(before.value, Cutoff(now, RECENT_15M_SECS)) + [now]) else before
            case Prune(a, now) =>
              after == if a == address && before.Some?
                       then Some(DropExpired(before.value, Cutoff(now, RECENT_15M_SECS))) else before
            case Remove(a) => after == if a == address then None else before
  {}

  /** The queue is a suffix of the full history, and what is missing had expired at some pruning. */
  lemma {:induction false} QueueIsSuffix(ops: seq<Op>, address: string) returns (dropped: seq<nat>)
    ensures var queue, all := QueueOf(Run(ops), address), EverRecorded(ops, address);
            && (queue.Some? <==> all.Some?)
            && (queue.Some? ==> all.value == dropped + queue.value)
    ensures forall d :: d in dropped ==> d < Cutoff(LatestPruning(ops, address), RECENT_15M_SECS)
  {
    hide Apply;
    if ops == [] { return []; }
    var init, op := ops[..|ops| - 1], ops[|ops| - 1];
    dropped := QueueIsSuffix(init, address);
    QueueStep(Run(init), op, address);
    var queue := QueueOf(Run(init), address);
    if queue.None? {
      dropped := [];
      if op.Upsert? && op.pool.address == address { assert [] + op.pool.activity == op.pool.activity; }
    } else if op.Remove? {
      if op.address == address { dropped := []; }
    } else if (op.Record? || op.Prune?) && op.address == address {
      dropped := DropMore(dropped, queue.value, op.now);
    }
  }

  lemma DropMore(dropped: seq<nat>, queue: seq<nat>, now: nat) returns (more: seq<nat>)
    ensures dropped + queue == more + DropExpired(queue, Cutoff(now, RECENT_15M_SECS))
    ensures dropped + queue + [now] == more + (DropExpired(queue, Cutoff(now, RECENT_15M_SECS)) + [now])
    ensures forall d :: d in more ==> d in dropped || d < Cutoff(now, RECENT_15M_SECS)
  {
    hide DropExpired, Cutoff;
    var kept := DropExpired(queue, Cutoff(now, RECENT_15M_SECS));
    var expired := queue[..|queue| - |kept|];
    assert queue == expired + kept;
    more := dropped + expired;
    assert dropped + (expired + kept) == more + kept;
    assert (more + kept) + [now] == more + (kept + [now]);
    forall d | d in more ensures d in dropped || d < Cutoff(now, RECENT_15M_SECS) {
      if d in expired {
        var i :| 0 <= i < |expired| && expired[i] == d;
        assert queue[i] == d;
      }
    }
  }

  lemma {:induction false} CountAdds(xs: seq<nat>, ys: seq<nat>, cutoff: nat)
    ensures CountSince(xs + ys, cutoff) == CountSince(xs, cutoff) + CountSince(ys, cutoff)
  {
    if ys == [] {
      assert xs + ys == xs;
    } else {
      assert (xs + ys)[..|xs + ys| - 1] == xs + ys[..|ys| - 1];
      CountAdds(xs, ys[..|ys| - 1], cutoff);
    }
  }

  lemma {:induction false} CountZero(xs: seq<nat>, cutoff: nat)
    ensures CountSince(xs, cutoff) == 0 <==> forall x :: x in xs ==> x < cutoff
  {
    if xs != [] {
      var init := xs[..|xs| - 1];
      CountZero(init, cutoff);
      assert forall x :: x in init ==> x in xs;
      assert xs[|xs| - 1] in xs;
      forall x | x in xs ensures x in init || x == xs[|xs| - 1] {
        var i :| 0 <= i < |xs| && xs[i] == x;
        if i < |init| { assert init[i] in init; }
      }
    }
  }

  /** Counting without some leading events is right exactly when none of them is recent. */
  lemma CountsWithoutExactly(dropped: seq<nat>, queue: seq<nat>, now: nat)
    ensures RecentCounts(queue, now) == RecentCounts(dropped + queue, now) <==>
            forall d :: d in dropped ==> d < Cutoff(now, RECENT_15M_SECS)
  {
    CountAdds(dropped, queue, Cutoff(now, RECENT_5M_SECS));
    CountAdds(dropped, queue, Cutoff(now, RECENT_15M_SECS));
    CountZero(dropped, Cutoff(now, RECENT_5M_SECS));
    CountZero(dropped, Cutoff(now, RECENT_15M_SECS));
  }

  lemma PrefixByIndex(dropped: seq<nat>, queue: seq<nat>, cutoff: nat)
    ensures (forall d :: d in dropped ==> d < cutoff)
            <==> forall i :: 0 <= i < |dropped| ==> (dropped + queue)[i] < cutoff
  {
    var all := dropped + queue;
    if forall i :: 0 <= i < |dropped| ==> all[i] < cutoff {
      forall d | d in dropped ensures d < cutoff {
        var i :| 0 <= i < |dropped| && dropped[i] == d;
        assert all[i] == d;
      }
    }
    if forall d :: d in dropped ==> d < cutoff {
      forall i | 0 <= i < |dropped| ensures all[i] < cutoff { assert dropped[i] in dropped; }
    }
  }

  /** How many events of an address have been dropped from its queue. */
  function DroppedCount(ops: seq<Op>, address: string): int {
    if address in Run(ops) && EverRecorded(ops, address).Some?
    then |EverRecorded(ops, address).value| - |Run(ops)[address].activity| else 0
  }

  /**
    After any run, the counts taken at any time are those of the full history exactly when none of the
    oldest events, those that some pruning has dropped, is within fifteen minutes of that time.
   */
  lemma CountsAgreeExactly(ops: seq<Op>, address: string, now: nat)
    requires address in Run(ops)
    ensures EverRecorded(ops, address).Some?
    ensures var all, n := EverRecorded(ops, address).value, DroppedCount(ops, address);
            && 0 <= n <= |all|
            && Run(ops)[address].activity == all[n..]
            && (RecentCounts(Run(ops)[address].activity, now) == RecentCounts(all, now) <==>
                  forall i :: 0 <= i < n ==> all[i] < Cutoff(now, RECENT_15M_SECS))
  {
    hide Run, EverRecorded, RecentCounts;
    var dropped := QueueIsSuffix(ops, address);
    var all := EverRecorded(ops, address).value;
    CountsWithoutExactly(dropped, Run(ops)[address].activity, now);
    PrefixByIndex(dropped, Run(ops)[address].activity, Cutoff(now, RECENT_15M_SECS));
    assert DroppedCount(ops, address) == |dropped|;
  }

  /**
    After any run, counts taken no earlier than every pruning for the address are those of its full
    history. Pruning times need not be monotone.
   */
  lemma CountsMatchHistory(ops: seq<Op>, address: string, now: nat)
    requires address in Run(ops) && LatestPruning(ops, address) <= now
    ensures EverRecorded(ops, address).Some?
    ensures RecentCounts(Run(ops)[address].activity, now) == RecentCounts(EverRecorded(ops, address).value, now)
  {
    hide Run, EverRecorded;
    var dropped := QueueIsSuffix(ops, address);
    CountsWithoutExactly(dropped, Run(ops)[address].activity, now);
  }

  lemma RunSnoc(ops: seq<Op>, op: Op)
    ensures Run(ops + [op]) == Apply(Run(ops), op)
  {
    assert (ops + [op])[..|ops|] == ops;
  }

  lemma RecordedSnoc(ops: seq<Op>, address: string, now: nat, slot: nat)
    requires EverRecorded(ops, address).Some?
    ensures EverRecorded(ops + [Record(address, now, slot)], address) == Some(EverRecorded(ops, address).value + [now])
  {
    assert (ops + [Record(address, now, slot)])[..|ops|] == ops;
  }

  lemma JustInserted(pool: ParsedPool)
    ensures Run([Upsert(pool)]) == map[pool.address := pool]
    ensures EverRecorded([Upsert(pool)], pool.address) == Some(pool.activity)
  {
    assert [Upsert(pool)][..0] == [];
  }

  /** Asked about an earlier time than a recording, the queue can have forgotten an event. */
  lemma EarlierQuestionsCanMiss(pool: ParsedPool)
    requires pool.activity == []
    ensures var ops := [Upsert(pool)] + [Record(pool.address, 0, 0)] + [Record(pool.address, 1000, 0)];
            && pool.address in Run(ops) && EverRecorded(ops, pool.address) == Some([0] + [1000])
            && RecentCounts(Run(ops)[pool.address].activity, 0) != RecentCounts([0] + [1000], 0)
  {
    hide Run, EverRecorded, RecentCounts;
    TwoRecordings(pool);
    CountsWithoutExactly([0], [1000], 0);
    assert 0 in [0] && Cutoff(0, RECENT_15M_SECS) == 0;
  }

  lemma TwoRecordings(pool: ParsedPool)
    requires pool.activity == []
    ensures var ops := [Upsert(pool)] + [Record(pool.address, 0, 0)] + [Record(pool.address, 1000, 0)];
            && QueueOf(Run(ops), pool.address) == Some([1000])
            && EverRecorded(ops, pool.address) == Some([0] + [1000])
  {
    hide Run, EverRecorded, Apply, DropExpired, Cutoff;
    var address, inserted := pool.address, [Upsert(pool)];
    var once := inserted + [Record(address, 0, 0)];
    JustInserted(pool);
    RunSnoc(inserted, Record(address, 0, 0));
    RecordedSnoc(inserted, address, 0, 0);
    QueueStep(Run(inserted), Record(address, 0, 0), address);
    assert [] + [0] == [0];
    RunSnoc(once, Record(address, 1000, 0));
    RecordedSnoc(once, address, 1000, 0);
    QueueStep(Run(once), Record(address, 1000, 0), address);
    ZeroExpires();
    assert [] + [1000] == [1000];
  }

  lemma ZeroExpires()
    ensures DropExpired([0], Cutoff(1000, RECENT_15M_SECS)) == []
  {}

  // ---------- what is counted and kept ----------

  /** Positions of the events of the last so many seconds. */
  function Recent(times: seq<nat>, now: nat, seconds: nat): set<nat> {
    set i: nat | i < |times| && now <= times[i] + seconds
  }

  /** The counts are those of the events of the last 300 and of the last 900 seconds. */
  lemma CountsAreOfRecent(times: seq<nat>, now: nat)
    ensures RecentCounts(times, now) == (|Recent(times, now, 300)|, |Recent(times, now, 900)|)
  {
    CountIsOfRecent(times, now, 300);
    CountIsOfRecent(times, now, 900);
  }

  lemma {:induction false} CountIsOfRecent(times: seq<nat>, now: nat, seconds: nat)
    ensures CountSince(times, Cutoff(now, seconds)) == |Recent(times, now, seconds)|
  {
    if times == [] {
      assert Recent(times, now, seconds) == {};
    } else {
      var n := |times| - 1;
      CountIsOfRecent(times[..n], now, seconds);
      assert Recent(times, now, seconds)
             == Recent(times[..n], now, seconds) + if now <= times[n] + seconds then {n} else {};
    }
  }

  /** Pruning drops the longest beginning of the queue that is older than 900 seconds. */
  lemma PrunedExactly(times: seq<nat>, now: nat)
    ensures var kept := DropExpired(times, Cutoff(now, RECENT_15M_SECS));
            var n := |times| - |kept|;
            && n >= 0 && kept == times[n..]
            && (forall i :: 0 <= i < n ==> times[i] + 900 < now)
            && (n < |times| ==> now <= times[n] + 900)
  {
    hide DropExpired;
    var kept := DropExpired(times, Cutoff(now, RECENT_15M_SECS));
    if kept != [] { assert kept[0] == times[|times| - |kept|]; }
  }

  /** The newest slot and the number of hits that an operation leaves for a pool it keeps. */
  lemma SlotsAndHits(table: Table, op: Op, address: string)
    requires address in table && address in Apply(table, op)
    ensures var before, after := table[address], Apply(table, op)[address];
            var told := if op.Upsert? && op.pool.address == address then Some(op.pool.latestSlot)
                        else if op.Record? && op.address == address then Some(op.slot) else None;
            && after.quoteLiquidityUsdc == before.quoteLiquidityUsdc
            && after.address == before.address
            && before.latestSlot <= after.latestSlot
            && (told.None? ==> after.latestSlot == before.latestSlot && after.hits == before.hits)
            && (told.Some? ==>
                  && told.value <= after.latestSlot
                  && (after.latestSlot == told.value || after.latestSlot == before.latestSlot)
                  && (before.hits < 0xFFFF_FFFF_FFFF_FFFF ==> after.hits == before.hits + 1)
                  && (before.hits == 0xFFFF_FFFF_FFFF_FFFF ==> after.hits == before.hits))
            && after.details == if op.Upsert? && op.pool.address == address then op.pool.details else before.details
  {}
}
