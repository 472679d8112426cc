/**
  Extending lookup tables: a plan is sent in chunks, any of which may be lost, and is made from tables
  that are remembered for a while.
 */
module LookupTableExtender {
  import opened Wrappers
  import opened LookupTablePlan
  import opened LookupTableChunks

  const CACHE_DURATION_MS: nat := 600_000

  // ---------- sending ----------

  /** What becomes of a transaction: confirmed, or given up on, in which case it may have landed or not. */
  datatype Outcome = Confirmed | Lost(landed: bool)

  /** The outcomes of the transactions of an attempt, in the order in which they are sent. */
  type Outcomes = nat -> Outcome

  /** How many of the next transactions are confirmed before the first that is not. */
  function ConfirmedBefore(outcomes: Outcomes, from: nat, count: nat): (n: nat)
    ensures n <= count
    ensures n < count ==> outcomes(from + n).Lost?
    ensures forall i :: from <= i < from + n ==> outcomes(i).Confirmed?
    decreases count
  {
    if count == 0 || outcomes(from).Lost? then 0 else 1 + ConfirmedBefore(outcomes, from + 1, count - 1)
  }

  /** The chunks of one table that take effect: nothing is sent after one that is given up on. */
  function LandedChunks(chunks: seq<Extension>, outcomes: Outcomes, from: nat): (r: seq<Extension>)
    ensures r <= chunks
  {
    var n := ConfirmedBefore(outcomes, from, |chunks|);
    if n < |chunks| && outcomes(from + n).landed then chunks[..n + 1] else chunks[..n]
  }

  /** What landed of a plan, how many of its tables were completed, and whether all of them were. */
  datatype Sending = Sending(landed: seq<Extension>, done: nat, complete: bool)

  function Sent(plan: seq<Extension>, outcomes: Outcomes, from: nat): (r: Sending)
    ensures r.done <= |plan| && (r.complete <==> r.done == |plan|)
  {
    if plan == [] then Sending([], 0, true)
    else
      var chunks := Chunks(plan[0].key, plan[0].addresses);
      if ConfirmedBefore(outcomes, from, |chunks|) < |chunks|
      then Sending(LandedChunks(chunks, outcomes, from), 0, false)
      else
        var rest := Sent(plan[1..], outcomes, from + |chunks|);
        Onto(chunks, 1, rest)
  }

  /** The sending that follows what has landed of so many completed tables. */
  function Onto(landed: seq<Extension>, done: nat, rest: Sending): Sending {
    Sending(landed + rest.landed, done + rest.done, rest.complete)
  }

  predicate AllConfirmed(outcomes: Outcomes, from: nat, count: nat) {
    forall i :: from <= i < from + count ==> outcomes(i).Confirmed?
  }

  /** A plan is completed exactly when every chunk of it is confirmed. */
  lemma {:induction false} CompleteExactly(plan: seq<Extension>, outcomes: Outcomes, from: nat)
    ensures Sent(plan, outcomes, from).complete <==> AllConfirmed(outcomes, from, |Chunked(plan)|)
    decreases |plan|
  {
    hide Chunks;
    if plan != [] {
      var n := |Chunks(plan[0].key, plan[0].addresses)|;
      CompleteExactly(plan[1..], outcomes, from + n);
    }
  }

  /**
    What lands is all of the completed tables and, of the one in which sending stopped, a beginning.
   */
  lemma {:induction false} LandedOfPlan(plan: seq<Extension>, outcomes: Outcomes, from: nat)
    returns (part: seq<Extension>)
    ensures var r := Sent(plan, outcomes, from);
            && r.landed == Chunked(plan[..r.done]) + part
            && (r.complete ==> part == [])
            && (!r.complete ==> part <= Chunks(plan[r.done].key, plan[r.done].addresses))
    ensures Sent(plan, outcomes, from).landed <= Chunked(plan)
    decreases |plan|
  {
    hide Chunks, Sent, ConfirmedBefore, LandedChunks, Chunked;
    var r := Sent(plan, outcomes, from);
    assert Chunked([]) == [] by { NothingChunked(); }
    if plan == [] {
      NothingSent(outcomes, from);
      return [];
    }
    var chunks := Chunks(plan[0].key, plan[0].addresses);
    assert plan[0..] == plan;
    SentStep(plan, 0, outcomes, from);
    ChunkedHead(plan);
    if ConfirmedBefore(outcomes, from, |chunks|) < |chunks| {
      part := r.landed;
      assert plan[..0] == [] && [] + part == part;
      assert part <= chunks;
    } else {
      part := LandedOfPlan(plan[1..], outcomes, from + |chunks|);
      var rest := Sent(plan[1..], outcomes, from + |chunks|);
      ChunkedHead(plan[..r.done]);
      assert plan[..r.done][1..] == plan[1..][..rest.done];
      assert chunks + (Chunked(plan[1..][..rest.done]) + part) == chunks + Chunked(plan[1..][..rest.done]) + part;
    }
  }

  lemma NothingChunked()
    ensures Chunked([]) == []
  {}

  lemma ChunkedHead(plan: seq<Extension>)
    requires plan != []
    ensures Chunked(plan) == Chunks(plan[0].key, plan[0].addresses) + Chunked(plan[1..])
  {}

  // ---------- remembered tables ----------

  datatype CacheEntry = CacheEntry(addresses: seq<Pubkey>, at: nat)

  /** The lookup tables as the network holds them. */
  type Chain = map<Pubkey, seq<Pubkey>>

  type Cache = map<Pubkey, CacheEntry>

  function Elapsed(now: nat, at: nat): nat {
    if now >= at then now - at else 0
  }

  predicate Remembered(cache: Cache, now: nat, key: Pubkey) {
    key in cache && Elapsed(now, cache[key].at) < CACHE_DURATION_MS
  }

  /** The tables that exist, from what is remembered or else from the network, and the new memory. */
  function Fetched(keys: seq<Pubkey>, cache: Cache, chain: Chain, now: nat, reachable: Pubkey -> bool)
    : (Option<seq<Table>>, Cache)
  {
    if keys == [] then (Some([]), cache)
    else
      var key, (before, c) := keys[|keys| - 1], Fetched(keys[..|keys| - 1], cache, chain, now, reachable);
      if before.None? then (None, c)
      else if Remembered(c, now, key) then (Some(before.value + [Table(key, c[key].addresses)]), c)
      else if !reachable(key) then (None, c)
      else if key !in chain then (before, c - {key})
      else (Some(before.value + [Table(key, chain[key])]), c[key := CacheEntry(chain[key], now)])
  }

  function OnChain(chain: Chain, landed: seq<Extension>): (r: Chain)
    ensures r.Keys == chain.Keys
  {
    map k | k in chain :: chain[k] + AddressesFor(landed, k)
  }

  function KeysOf(plan: seq<Extension>): set<Pubkey> {
    set e | e in plan && e.addresses != [] :: e.key
  }

  datatype State = State(exhausted: bool, chain: Chain, cache: Cache)

  /** What an attempt is for, when it is made, and what the network does to it. */
  datatype Attempt = Attempt(
    candidates: seq<Pubkey>,
    now: nat,
    reachable: Pubkey -> bool,
    outcomes: Outcomes,
    warmedUp: bool)

  datatype ExtendError = FetchFailed | SendFailed | WarmUpTimedOut

  /** The state after an attempt, and its result. A completed table is forgotten, an interrupted one is not. */
  function After(configured: seq<Pubkey>, s: State, a: Attempt): (State, Result<nat, ExtendError>) {
    if configured == [] || s.exhausted then (s, Ok(0))
    else
      var (tables, cache) := Fetched(configured, s.cache, s.chain, a.now, a.reachable);
      if tables.None? then (s.(cache := cache), Err(FetchFailed))
      else
        var missing := Missing(a.candidates, Existing(tables.value));
        var plan, full := Filled(missing, tables.value), LeftOver(missing, tables.value) != [];
        if plan == [] then (s.(cache := cache, exhausted := full), Ok(0))
        else
          var sending := Sent(plan, a.outcomes, 0);
          var chain := OnChain(s.chain, sending.landed);
          var left := cache - KeysOf(plan[..sending.done]);
          if !sending.complete then (State(false, chain, left), Err(SendFailed))
          else if !a.warmedUp then (State(false, chain, left), Err(WarmUpTimedOut))
          else (State(full, chain, left), Ok(|Planned(plan)|))
  }

  /** Extends the configured tables from time to time, and never again once they were found full. */
  class Extender {
    const configured: seq<Pubkey>
    var exhausted: bool
    var chain: Chain
    var cache: Cache

    function Current(): State
      reads this
    {
      State(exhausted, chain, cache)
    }

    constructor (configured: seq<Pubkey>, chain: Chain, cache: Cache)
      ensures this.configured == configured && Current() == State(false, chain, cache)
    {
      this.configured := configured;
      this.exhausted := false;
      this.chain := chain;
      this.cache := cache;
    }

    method Fetch(now: nat, reachable: Pubkey -> bool) returns (tables: Option<seq<Table>>)
      modifies this`cache
      ensures (tables, cache) == Fetched(configured, old(cache), chain, now, reachable)
    {
      var found: seq<Table> := [];
      for i := 0 to |configured|
        invariant (Some(found), cache) == Fetched(configured[..i], old(cache), chain, now, reachable)
      {
        var key := configured[i];
        assert configured[..i + 1][..i] == configured[..i];
        if Remembered(cache, now, key) {
          found := found + [Table(key, cache[key].addresses)];
          continue;
        }
        if !reachable(key) {
          FetchStopsHere(configured, i + 1, old(cache), chain, now, reachable);
          return None;
        }
        if key !in chain {
          cache := cache - {key};
          continue;
        }
        cache := cache[key := CacheEntry(chain[key], now)];
        found := found + [Table(key, chain[key])];
      }
      assert configured[..|configured|] == configured;
      return Some(found);
    }

    /** Sends the chunks of one table; `sent` transactions have gone out before. */
    method SendChunks(key: Pubkey, addresses: seq<Pubkey>, outcomes: Outcomes, sent: nat)
      returns (complete: bool, next: nat, ghost landed: seq<Extension>)
      modifies this`chain
      ensures var chunks := Chunks(key, addresses);
              && landed == LandedChunks(chunks, outcomes, sent)
              && (complete <==> ConfirmedBefore(outcomes, sent, |chunks|) == |chunks|)
              && (complete ==> landed == chunks && next == sent + |chunks|)
      ensures chain == OnChain(old(chain), landed)
    {
      hide OnChain, AddressesFor, Chunks, ConfirmedBefore, LandedChunks;
      landed := [];
      var rest, count := addresses, sent;
      ghost var chunks := Chunks(key, addresses);
      NothingOnChain(chain);
      NoChunks(key, []);
      while rest != []
        invariant count == sent + |landed|
        invariant landed + Chunks(key, rest) == chunks
        invariant AllConfirmed(outcomes, sent, |landed|)
        invariant chain == OnChain(old(chain), landed)
        decreases |rest|
      {
        var n := if |rest| < ALT_EXTEND_CHUNK_SIZE then |rest| else ALT_EXTEND_CHUNK_SIZE;
        var chunk := Extension(key, rest[..n]);
        NextChunk(key, rest);
        OneMoreOnChain(old(chain), landed, chunk);
        StopsAt(chunks, outcomes, sent, |landed|);
        assert landed + [chunk] == chunks[..|landed| + 1];
        var outcome := outcomes(count);
        if outcome.Lost? {
          if outcome.landed {
            Land(chunk);
            landed := landed + [chunk];
          }
          return false, count, landed;
        }
        Land(chunk);
        landed := landed + [chunk];
        count := count + 1;
        rest := rest[n..];
      }
      StopsAt(chunks, outcomes, sent, |landed|);
      return true, count, landed;
    }

    /** The network appends a chunk to its table. */
    method Land(chunk: Extension)
      modifies this`chain
      ensures chain == OnChain(old(chain), [chunk])
    {
      OneChunkOnChain(chain, chunk);
      if chunk.key in chain { chain := chain[chunk.key := chain[chunk.key] + chunk.addresses]; }
    }

    /** Sends a plan, one table after the other, and forgets each table once it is complete. */
    method SendExtensions(plan: seq<Extension>, outcomes: Outcomes) returns (added: Option<nat>)
      modifies this`chain, this`cache
      ensures var sending := Sent(plan, outcomes, 0);
              && added == (if sending.complete then Some(|Planned(plan)|) else None)
              && chain == OnChain(old(chain), sending.landed)
              && cache == old(cache) - KeysOf(plan[..sending.done])
    {
      hide Chunks, OnChain, LandedChunks, ConfirmedBefore, KeysOf, Sent, Planned;
      var total, count := 0, 0;
      ghost var landed: seq<Extension> := [];
      NothingOnChain(chain);
      assert plan[..0] == [] && plan[0..] == plan;
      assert cache == cache - KeysOf([]) by { NoKeys(); }
      assert Planned([]) == [] by { NoneInPlan(); }
      for i := 0 to |plan|
        invariant total == |Planned(plan[..i])|
        invariant count == |landed|
        invariant cache == old(cache) - KeysOf(plan[..i])
        invariant chain == OnChain(old(chain), landed)
        invariant Sent(plan, outcomes, 0) == Onto(landed, i, Sent(plan[i..], outcomes, count))
      {
        SentStep(plan, i, outcomes, count);
        assert plan[..i] + [plan[i]] == plan[..i + 1];
        PlannedSnoc(plan[..i], plan[i]);
        KeysSnoc(plan[..i], plan[i]);
        ghost var rest := Sent(plan[i + 1..], outcomes, count + |Chunks(plan[i].key, plan[i].addresses)|);
        OntoTwice(landed, i, Chunks(plan[i].key, plan[i].addresses), 1, rest);
        if |plan[i].addresses| == 0 {
          NoChunks(plan[i].key, plan[i].addresses);
          ConfirmedNone(outcomes, count);
          assert landed + [] == landed;
          continue;
        }
        var complete, next, more := SendChunks(plan[i].key, plan[i].addresses, outcomes, count);
        OnChainTwice(old(chain), landed, more);
        landed := landed + more;
        if !complete { return None; }
        count := next;
        cache := cache - {plan[i].key};
        total := total + |plan[i].addresses|;
      }
      assert plan[..|plan|] == plan && plan[|plan|..] == [];
      NothingSent(outcomes, count);
      assert landed + [] == landed;
      return Some(total);
    }

    method ExtendLookupTables(a: Attempt) returns (r: Result<nat, ExtendError>)
      modifies this
      ensures (Current(), r) == After(configured, old(Current()), a)
    {
      hide Missing, Existing, Filled, LeftOver, Sent, Fetched;
      if configured == [] { return Ok(0); }
      if exhausted { return Ok(0); }
      var tables := Fetch(a.now, a.reachable);
      if tables.None? { return Err(FetchFailed); }
      var plan, remainder := PlanLookupTableExtensions(a.candidates, tables.value);
      if plan == [] {
        if remainder == [] { return Ok(0); }
        exhausted := true;
        return Ok(0);
      }
      var added := SendExtensions(plan, a.outcomes);
      if added.None? { return Err(SendFailed); }
      if !a.warmedUp { return Err(WarmUpTimedOut); }
      if remainder != [] { exhausted := true; }
      return Ok(added.value);
    }
  }

  lemma {:induction false} FetchStopsHere(
    keys: seq<Pubkey>, n: nat, cache: Cache, chain: Chain, now: nat, reachable: Pubkey -> bool)
    requires n <= |keys| && Fetched(keys[..n], cache, chain, now, reachable).0.None?
    ensures Fetched(keys, cache, chain, now, reachable) == Fetched(keys[..n], cache, chain, now, reachable)
    decreases |keys|
  {
    if n == |keys| {
      assert keys[..n] == keys;
    } else {
      assert keys[..|keys| - 1][..n] == keys[..n];
      FetchStopsHere(keys[..|keys| - 1], n, cache, chain, now, reachable);
    }
  }

  lemma NothingOnChain(chain: Chain)
    ensures OnChain(chain, []) == chain
  {
    assert forall k :: k in chain ==> chain[k] + [] == chain[k];
  }

  lemma OnChainTwice(chain: Chain, a: seq<Extension>, b: seq<Extension>)
    ensures OnChain(OnChain(chain, a), b) == OnChain(chain, a + b)
  {
    forall k | k in chain ensures OnChain(OnChain(chain, a), b)[k] == OnChain(chain, a + b)[k] {
      AddressesForConcat(a, b, k);
    }
  }

  lemma {:induction false} AddressesForConcat(a: seq<Extension>, b: seq<Extension>, key: Pubkey)
    ensures AddressesFor(a + b, key) == AddressesFor(a, key) + AddressesFor(b, key)
  {
    AddressesByFlat(a, key);
    AddressesByFlat(b, key);
    AddressesByFlat(a + b, key);
    FlatConcat(a, b);
    PickConcat(Flat(a), Flat(b), key);
  }

  lemma OneMoreOnChain(chain: Chain, landed: seq<Extension>, chunk: Extension)
    ensures OnChain(OnChain(chain, landed), [chunk]) == OnChain(chain, landed + [chunk])
  {
    OnChainTwice(chain, landed, [chunk]);
  }

  lemma OneChunkOnChain(chain: Chain, chunk: Extension)
    ensures OnChain(chain, [chunk])
            == if chunk.key in chain then chain[chunk.key := chain[chunk.key] + chunk.addresses] else chain
  {
    forall k | k in chain ensures AddressesFor([chunk], k) == if k == chunk.key then chunk.addresses else [] {
      HeadFor(chunk, [], k);
      assert [chunk] + [] == [chunk];
      assert AddressesFor([], k) == [];
    }
    assert forall k :: k in chain ==> chain[k] + [] == chain[k];
  }

  lemma NextChunk(key: Pubkey, addresses: seq<Pubkey>)
    requires addresses != []
    ensures var n := if |addresses| < ALT_EXTEND_CHUNK_SIZE then |addresses| else ALT_EXTEND_CHUNK_SIZE;
            Chunks(key, addresses) == [Extension(key, addresses[..n])] + Chunks(key, addresses[n..])
  {
    if |addresses| <= ALT_EXTEND_CHUNK_SIZE {
      assert addresses[..|addresses|] == addresses && addresses[|addresses|..] == [];
    }
  }

  /** Having confirmed so many chunks, sending is over, or stops if the next one is lost. */
  lemma StopsAt(chunks: seq<Extension>, outcomes: Outcomes, from: nat, n: nat)
    requires n <= |chunks| && AllConfirmed(outcomes, from, n)
    ensures n == |chunks|
        ==> ConfirmedBefore(outcomes, from, |chunks|) == n && LandedChunks(chunks, outcomes, from) == chunks
    ensures n < |chunks| && outcomes(from + n).Lost? ==>
              && ConfirmedBefore(outcomes, from, |chunks|) == n
              && LandedChunks(chunks, outcomes, from) == if outcomes(from + n).landed
                  then chunks[..n + 1] else chunks[..n]
  {
    if n == |chunks| || outcomes(from + n).Lost? { FirstLost(outcomes, from, |chunks|, n); }
  }

  lemma {:induction false} FirstLost(outcomes: Outcomes, from: nat, count: nat, n: nat)
    requires n <= count && AllConfirmed(outcomes, from, n)
    requires n == count || outcomes(from + n).Lost?
    ensures ConfirmedBefore(outcomes, from, count) == n
    decreases count
  {
    if n > 0 { FirstLost(outcomes, from + 1, count - 1, n - 1); }
  }

  lemma ConfirmedNone(outcomes: Outcomes, from: nat)
    ensures ConfirmedBefore(outcomes, from, 0) == 0
  {}

  lemma NoChunks(key: Pubkey, addresses: seq<Pubkey>)
    ensures |addresses| == 0 ==> Chunks(key, addresses) == []
  {}

  lemma SentStep(plan: seq<Extension>, i: nat, outcomes: Outcomes, from: nat)
    requires i < |plan|
    ensures var chunks := Chunks(plan[i].key, plan[i].addresses);
            Sent(plan[i..], outcomes, from)
            == if ConfirmedBefore(outcomes, from, |chunks|) < |chunks|
               then Sending(LandedChunks(chunks, outcomes, from), 0, false)
               else Onto(chunks, 1, Sent(plan[i + 1..], outcomes, from + |chunks|))
  {
    hide Chunks, ConfirmedBefore, LandedChunks;
    assert plan[i..][0] == plan[i] && plan[i..][1..] == plan[i + 1..];
  }

  lemma OntoTwice(a: seq<Extension>, m: nat, b: seq<Extension>, n: nat, rest: Sending)
    ensures Onto(a, m, Onto(b, n, rest)) == Onto(a + b, m + n, rest)
  {
    assert a + (b + rest.landed) == (a + b) + rest.landed;
  }

  lemma NothingSent(outcomes: Outcomes, from: nat)
    ensures Sent([], outcomes, from) == Sending([], 0, true)
  {}

  lemma NoneInPlan()
    ensures Planned([]) == []
  {}

  lemma PlannedSnoc(plan: seq<Extension>, e: Extension)
    ensures Planned(plan + [e]) == Planned(plan) + e.addresses
  {
    PlannedConcat(plan, [e]);
    assert Planned([e][1..]) == [];
  }

  lemma NoKeys()
    ensures KeysOf([]) == {}
  {}

  lemma KeysSnoc(plan: seq<Extension>, e: Extension)
    ensures KeysOf(plan + [e]) == KeysOf(plan) + if e.addresses != [] then {e.key} else {}
  {
    assert forall d :: d in plan + [e] <==> d in plan || d == e;
  }

  lemma {:induction false} PlannedConcat(a: seq<Extension>, b: seq<Extension>)
    ensures Planned(a + b) == Planned(a) + Planned(b)
  {
    if a == [] {
      assert a + b == b;
    } else {
      assert (a + b)[1..] == a[1..] + b;
      PlannedConcat(a[1..], b);
    }
  }

  /** Giving up for good happens only when every table is full. */
  lemma ExhaustedMeansFull(candidates: seq<Pubkey>, tables: seq<Table>, i: nat)
    requires DistinctKeys(tables) && i < |tables|
    requires LeftOver(Missing(candidates, Existing(tables)), tables) != []
    ensures |Applied(Chunked(Filled(Missing(candidates, Existing(tables)), tables)), tables)[i].addresses|
            >= LOOKUP_TABLE_MAX_ADDRESSES
  {
    hide Missing, Existing, Filled, LeftOver, Chunked, Applied;
    var missing := Missing(candidates, Existing(tables));
    ChunksHaveTheSameEffect(Filled(missing, tables), tables);
    PlanRespectsCapacity(missing, tables, i);
    AppliedKeepsKeys(Filled(missing, tables), tables);
  }
}
