/**
  What a retry of an interrupted extension adds: it depends on whether the table in which sending
  stopped is still remembered as it was.
 */
module LookupTableRetry {
  import opened Wrappers
  import opened LookupTablePlan
  import opened LookupTableChunks
  import opened LookupTableExtender

  // ---------- what a retry adds ----------

  predicate NoRepeats(keys: seq<Pubkey>) {
    forall i, j :: 0 <= i < j < |keys| ==> keys[i] != keys[j]
  }

  predicate AllReachable(keys: seq<Pubkey>, reachable: Pubkey -> bool) {
    forall k :: k in keys ==> reachable(k)
  }

  /** What is remembered of the configured tables is what the network holds. */
  predicate InSync(configured: seq<Pubkey>, s: State, now: nat) {
    forall k :: k in configured && Remembered(s.cache, now, k) ==> k in s.chain && s.cache[k].addresses == s.chain[k]
  }

  /** Tables as a planner sees them: remembered ones as remembered, others as the network holds them. */
  function Seen(cache: Cache, chain: Chain, now: nat): Chain {
    map k | k in cache.Keys + chain.Keys && (Remembered(cache, now, k) || k in chain) ::
      if Remembered(cache, now, k) then cache[k].addresses else chain[k]
  }

  function Present(keys: seq<Pubkey>, chain: Chain): seq<Table> {
    if keys == [] then []
    else
      var key := keys[|keys| - 1];
      Present(keys[..|keys| - 1], chain) + if key in chain then [Table(key, chain[key])] else []
  }

  lemma {:induction false} FetchedElsewhere(
    keys: seq<Pubkey>, cache: Cache, chain: Chain, now: nat, reachable: Pubkey -> bool, k: Pubkey)
    requires k !in keys
    ensures var c := Fetched(keys, cache, chain, now, reachable).1;
            (k in c <==> k in cache) && (k in c ==> c[k] == cache[k])
  {
    if keys != [] {
      assert keys == keys[..|keys| - 1] + [keys[|keys| - 1]];
      FetchedElsewhere(keys[..|keys| - 1], cache, chain, now, reachable, k);
    }
  }

  /** With the network at hand, fetching finds the tables as they are seen. */
  lemma {:induction false} FetchedSees(
    keys: seq<Pubkey>, cache: Cache, chain: Chain, now: nat, reachable: Pubkey -> bool)
    requires NoRepeats(keys) && AllReachable(keys, reachable)
    ensures Fetched(keys, cache, chain, now, reachable).0 == Some(Present(keys, Seen(cache, chain, now)))
  {
    if keys != [] {
      var n := |keys| - 1;
      assert keys == keys[..n] + [keys[n]];
      FetchedSees(keys[..n], cache, chain, now, reachable);
      FetchedElsewhere(keys[..n], cache, chain, now, reachable, keys[n]);
      assert reachable(keys[n]);
      var c := Fetched(keys[..n], cache, chain, now, reachable).1;
      assert Remembered(c, now, keys[n]) <==> Remembered(cache, now, keys[n]);
      var before := Present(keys[..n], Seen(cache, chain, now));
      assert before + [] == before;
    }
  }

  /** Fetching keeps what is remembered in step with the network. */
  lemma {:induction false} FetchedInSync(
    configured: seq<Pubkey>, keys: seq<Pubkey>, s: State, now: nat, reachable: Pubkey -> bool)
    requires InSync(configured, s, now)
    ensures InSync(configured, s.(cache := Fetched(keys, s.cache, s.chain, now, reachable).1), now)
  {
    if keys != [] { FetchedInSync(configured, keys[..|keys| - 1], s, now, reachable); }
  }

  lemma SyncLasts(configured: seq<Pubkey>, s: State, now: nat, later: nat)
    requires InSync(configured, s, now) && now <= later
    ensures InSync(configured, s, later)
  {
    forall k | k in configured && Remembered(s.cache, later, k) ensures Remembered(s.cache, now, k) {}
  }

  predicate AgreeOn(keys: seq<Pubkey>, a: Chain, b: Chain) {
    forall k :: k in keys ==> (k in a <==> k in b) && (k in a ==> a[k] == b[k])
  }

  lemma {:induction false} PresentSame(keys: seq<Pubkey>, a: Chain, b: Chain)
    requires AgreeOn(keys, a, b)
    ensures Present(keys, a) == Present(keys, b)
  {
    if keys != [] {
      assert keys == keys[..|keys| - 1] + [keys[|keys| - 1]];
      PresentSame(keys[..|keys| - 1], a, b);
    }
  }

  lemma {:induction false} PresentTells(keys: seq<Pubkey>, a: Chain, b: Chain)
    requires a.Keys == b.Keys && Present(keys, a) == Present(keys, b)
    ensures AgreeOn(keys, a, b)
  {
    if keys != [] {
      var n := |keys| - 1;
      assert keys == keys[..n] + [keys[n]];
      var pa, pb := Present(keys[..n], a), Present(keys[..n], b);
      if keys[n] in a {
        assert |pa| + 1 == |Present(keys, a)| == |Present(keys, b)| == |pb| + 1;
        assert pa == Present(keys, a)[..|pa|] && pb == Present(keys, b)[..|pb|];
        assert Present(keys, a)[|pa|].addresses == a[keys[n]] && Present(keys, b)[|pb|].addresses == b[keys[n]];
      } else {
        assert pa + [] == pa && pb + [] == pb;
      }
      PresentTells(keys[..n], a, b);
    }
  }

  lemma {:induction false} PresentKeys(keys: seq<Pubkey>, chain: Chain)
    ensures forall t :: t in Present(keys, chain) ==> t.key in keys && t.key in chain && t.addresses == chain[t.key]
    ensures NoRepeats(keys) ==> DistinctKeys(Present(keys, chain))
  {
    if keys != [] {
      var n := |keys| - 1;
      var init := Present(keys[..n], chain);
      assert keys == keys[..n] + [keys[n]];
      PresentKeys(keys[..n], chain);
      assert forall i :: 0 <= i < |init| ==> init[i] in init;
    }
  }

  /** Landing on the network is applying to the tables. */
  lemma {:induction false} PresentApplied(keys: seq<Pubkey>, chain: Chain, plan: seq<Extension>)
    ensures Present(keys, OnChain(chain, plan)) == Applied(plan, Present(keys, chain))
  {
    hide AddressesFor;
    if keys != [] { PresentApplied(keys[..|keys| - 1], chain, plan); }
  }

  lemma {:induction false} NothingForKeys(plan: seq<Extension>, key: Pubkey)
    requires key !in KeysOf(plan)
    ensures AddressesFor(plan, key) == []
  {
    if plan != [] {
      assert plan == [plan[0]] + plan[1..];
      assert forall e :: e in plan[1..] ==> e in plan;
      assert plan[0] in plan;
      NothingForKeys(plan[1..], key);
    }
  }

  lemma ForChunked(plan: seq<Extension>, key: Pubkey)
    ensures AddressesFor(Chunked(plan), key) == AddressesFor(plan, key)
  {
    FlatChunked(plan);
    AddressesByFlat(plan, key);
    AddressesByFlat(Chunked(plan), key);
  }

  lemma {:induction false} ChunkKeys(key: Pubkey, addresses: seq<Pubkey>)
    ensures forall e :: e in Chunks(key, addresses) ==> e.key == key && e.addresses != []
    decreases |addresses|
  {
    if |addresses| > ALT_EXTEND_CHUNK_SIZE { ChunkKeys(key, addresses[ALT_EXTEND_CHUNK_SIZE..]); }
  }

  /** Chunks of one table add something to it, if there are any, and nothing to others. */
  lemma ForPart(part: seq<Extension>, key: Pubkey, other: Pubkey)
    requires forall e :: e in part ==> e.key == key && e.addresses != []
    ensures AddressesFor(part, key) == [] <==> part == []
    ensures other != key ==> AddressesFor(part, other) == []
  {
    if other != key { NothingFor(part, other); }
    if part != [] { assert part[0] in part; }
  }

  /** An attempt with the network at hand, until its chunks have been sent. */
  ghost predicate Attempted(configured: seq<Pubkey>, s: State, a: Attempt, tables: seq<Table>, plan: seq<Extension>) {
    && configured != [] && !s.exhausted
    && Fetched(configured, s.cache, s.chain, a.now, a.reachable).0 == Some(tables)
    && plan == Filled(Missing(a.candidates, Existing(tables)), tables)
  }

  /** What the network holds after an attempt. */
  lemma ChainAfter(configured: seq<Pubkey>, s: State, a: Attempt, tables: seq<Table>, plan: seq<Extension>)
    requires Attempted(configured, s, a, tables, plan)
    ensures After(configured, s, a).0.chain == OnChain(s.chain, Sent(plan, a.outcomes, 0).landed)
    ensures After(configured, s, a).0.cache
            == Fetched(configured, s.cache, s.chain, a.now,
                a.reachable).1 - KeysOf(plan[..Sent(plan, a.outcomes, 0).done])
    ensures After(configured, s, a).0.exhausted ==> Sent(plan, a.outcomes, 0).complete
  {
    hide Fetched, Missing, Existing, Filled, LeftOver, OnChain;
    if plan == [] {
      NothingSent(a.outcomes, 0);
      NothingOnChain(s.chain);
      NoKeys();
    }
  }

  ghost predicate EveryConfirmed(outcomes: Outcomes) {
    forall i: nat :: outcomes(i).Confirmed?
  }

  lemma EverythingLands(plan: seq<Extension>, outcomes: Outcomes)
    requires EveryConfirmed(outcomes)
    ensures Sent(plan, outcomes, 0).landed == Chunked(plan) && Sent(plan, outcomes, 0).complete
  {
    CompleteExactly(plan, outcomes, 0);
    var part := LandedOfPlan(plan, outcomes, 0);
    assert plan[..|plan|] == plan;
  }

  /** Some chunk of the table in which sending stopped had landed. */
  predicate LandedInside(plan: seq<Extension>, sending: Sending) {
    !sending.complete && sending.done < |plan| && |sending.landed| > |Chunked(plan[..sending.done])|
  }

  /** The table in which sending stopped is still remembered as it was before. */
  predicate LeftStale(plan: seq<Extension>, sending: Sending, cache: Cache, now: nat) {
    LandedInside(plan, sending) && Remembered(cache, now, plan[sending.done].key)
  }

  /** What an attempt plans when what is remembered is what the network holds. */
  function PlanInSync(configured: seq<Pubkey>, chain: Chain, candidates: seq<Pubkey>): seq<Extension> {
    var tables := Present(configured, chain);
    Filled(Missing(candidates, Existing(tables)), tables)
  }

  lemma SyncedAttempt(configured: seq<Pubkey>, s: State, a: Attempt)
    requires configured != [] && !s.exhausted && NoRepeats(configured)
    requires AllReachable(configured, a.reachable) && InSync(configured, s, a.now)
    ensures var tables := Present(configured, s.chain);
            Attempted(configured, s, a, tables, PlanInSync(configured, s.chain, a.candidates))
    ensures DistinctKeys(Present(configured, s.chain))
  {
    hide Missing, Existing, Filled;
    FetchedSees(configured, s.cache, s.chain, a.now, a.reachable);
    PresentSame(configured, Seen(s.cache, s.chain, a.now), s.chain);
    PresentKeys(configured, s.chain);
  }

  /** The chunks that landed of the table in which sending stopped, and what they add. */
  lemma LandedPart(plan: seq<Extension>, outcomes: Outcomes) returns (part: seq<Extension>)
    ensures var r := Sent(plan, outcomes, 0);
            && r.landed == Chunked(plan[..r.done]) + part
            && r.landed <= Chunked(plan)
            && (LandedInside(plan, r) <==> part != [])
            && (r.complete ==> part == [])
            && (!r.complete ==> (AddressesFor(part, plan[r.done].key) == [] <==> part == []))
            && forall k :: r.complete || k != plan[r.done].key ==> AddressesFor(part, k) == []
  {
    hide Chunked, Chunks, Sent;
    part := LandedOfPlan(plan, outcomes, 0);
    var r := Sent(plan, outcomes, 0);
    if !r.complete {
      ChunkKeys(plan[r.done].key, plan[r.done].addresses);
      forall k ensures k != plan[r.done].key ==> AddressesFor(part, k) == [] { ForPart(part, plan[r.done].key, k); }
      ForPart(part, plan[r.done].key, plan[r.done].key);
    }
  }

  /** A table that was not completed gets what landed of it after the completed ones. */
  lemma AddedWhenNotDone(done: seq<Extension>, part: seq<Extension>, key: Pubkey)
    requires key !in KeysOf(done)
    ensures AddressesFor(Chunked(done) + part, key) == AddressesFor(part, key)
    ensures AddressesFor(Chunked(done), key) == []
  {
    AddressesForConcat(Chunked(done), part, key);
    ForChunked(done, key);
    NothingForKeys(done, key);
  }

  /**
    After an attempt, what is remembered is what the network holds unless sending stopped in a table of
    which some chunk had landed, and as long as that table is remembered.
   */
  lemma SyncKeptExactly(configured: seq<Pubkey>, s: State, a: Attempt, later: nat)
    requires configured != [] && !s.exhausted && NoRepeats(configured)
    requires AllReachable(configured, a.reachable) && InSync(configured, s, a.now) && a.now <= later
    ensures var plan := PlanInSync(configured, s.chain, a.candidates);
            var s1 := After(configured, s, a).0;
            InSync(configured, s1, later) <==> !LeftStale(plan, Sent(plan, a.outcomes, 0), s1.cache, later)
  {
    hide After, Fetched, Sent, Missing, Existing, Filled, KeysOf, LandedInside, Chunked, AddressesFor,
        PlanInSync, Present;
    var tables, plan := Present(configured, s.chain), PlanInSync(configured, s.chain, a.candidates);
    var r, s1 := Sent(plan, a.outcomes, 0), After(configured, s, a).0;
    SyncedAttempt(configured, s, a);
    ChainAfter(configured, s, a, tables, plan);
    var fetched := s.(cache := Fetched(configured, s.cache, s.chain, a.now, a.reachable).1);
    FetchedInSync(configured, configured, s, a.now, a.reachable);
    SyncLasts(configured, fetched, a.now, later);
    var part := LandedPart(plan, a.outcomes);
    var done := plan[..r.done];
    forall k | k in configured && Remembered(s1.cache, later, k)
      ensures k in s1.chain && s1.cache[k].addresses == s.chain[k] && s1.chain[k] == s.chain[k] + AddressesFor(part, k)
    {
      assert k !in KeysOf(done) && Remembered(fetched.cache, later, k);
      AddedWhenNotDone(done, part, k);
    }
    if !r.complete { StoppedInConfigured(configured, s.chain, a.candidates, r.done); }
  }

  lemma StoppedInConfigured(configured: seq<Pubkey>, chain: Chain, candidates: seq<Pubkey>, i: nat)
    requires i < |PlanInSync(configured, chain, candidates)|
    ensures PlanInSync(configured, chain, candidates)[i].key in configured
    ensures PlanInSync(configured, chain, candidates)[i].key in chain
  {
    hide Missing, Existing, Filled;
    var tables, plan := Present(configured, chain), PlanInSync(configured, chain, candidates);
    FilledKeysAmong(Missing(candidates, Existing(tables)), tables);
    PresentKeys(configured, chain);
    assert plan[i] in plan;
  }

  /** Networks that agree on the configured tables, both grown from one by what is planned for those. */
  lemma SameOnConfigured(configured: seq<Pubkey>, a: Chain, b: Chain)
    requires a.Keys == b.Keys && Present(configured, a) == Present(configured, b)
    requires forall k :: k in a && k !in configured ==> a[k] == b[k]
    ensures a == b
  {
    PresentTells(configured, a, b);
  }

  /** A plan for configured tables leaves the others alone. */
  lemma OthersUntouched(configured: seq<Pubkey>, tables: seq<Table>, missing: seq<Pubkey>, k: Pubkey)
    requires forall t :: t in tables ==> t.key in configured
    requires k !in configured
    ensures AddressesFor(Filled(missing, tables), k) == []
    ensures AddressesFor(Chunked(Filled(missing, tables)), k) == []
  {
    FilledKeysAmong(missing, tables);
    NothingFor(Filled(missing, tables), k);
    ForChunked(Filled(missing, tables), k);
  }

  lemma LandedOnOthers(configured: seq<Pubkey>, tables: seq<Table>, missing: seq<Pubkey>, outcomes: Outcomes, k: Pubkey)
    requires forall t :: t in tables ==> t.key in configured
    requires k !in configured
    ensures AddressesFor(Sent(Filled(missing, tables), outcomes, 0).landed, k) == []
  {
    hide Sent, Filled, Chunked;
    var plan := Filled(missing, tables);
    var part := LandedOfPlan(plan, outcomes, 0);
    var landed := Sent(plan, outcomes, 0).landed;
    OthersUntouched(configured, tables, missing, k);
    assert Chunked(plan) == landed + Chunked(plan)[|landed|..];
    AddressesForConcat(landed, Chunked(plan)[|landed|..], k);
  }

  /** What the network would hold had nothing been lost. */
  function Uninterrupted(configured: seq<Pubkey>, s: State, a: Attempt, outcomes: Outcomes): Chain {
    After(configured, s, a.(outcomes := outcomes)).0.chain
  }

  lemma UninterruptedLands(configured: seq<Pubkey>, s: State, a: Attempt, outcomes: Outcomes)
    requires configured != [] && !s.exhausted && NoRepeats(configured) && EveryConfirmed(outcomes)
    requires AllReachable(configured, a.reachable) && InSync(configured, s, a.now)
    ensures Uninterrupted(configured, s, a, outcomes)
            == OnChain(s.chain, Chunked(PlanInSync(configured, s.chain, a.candidates)))
  {
    hide After, PlanInSync, OnChain, Sent, Chunked, Attempted, InSync;
    var b := a.(outcomes := outcomes);
    var plan := PlanInSync(configured, s.chain, a.candidates);
    SyncedAttempt(configured, s, b);
    ChainAfter(configured, s, b, Present(configured, s.chain), plan);
    EverythingLands(plan, outcomes);
  }

  /** A retry that plans from what the network holds ends where the whole plan would have. */
  lemma RetryInSync(configured: seq<Pubkey>, s: State, a: Attempt, b: Attempt)
    requires configured != [] && !s.exhausted && NoRepeats(configured) && a.candidates == b.candidates
    requires AllReachable(configured, a.reachable) && InSync(configured, s, a.now)
    requires AllReachable(configured, b.reachable) && EveryConfirmed(b.outcomes)
    requires var s1 := After(configured, s, a).0; !s1.exhausted && InSync(configured, s1, b.now)
    ensures After(configured, After(configured, s, a).0, b).0.chain == Uninterrupted(configured, s, a, b.outcomes)
  {
    hide After, Fetched, Sent, Missing, Existing, Filled, Chunked, AddressesFor, Present, Uninterrupted,
        OnChain, InSync, Attempted;
    var s1 := After(configured, s, a).0;
    var s2 := After(configured, s1, b).0;
    var tables := Present(configured, s.chain);
    var plan := PlanInSync(configured, s.chain, a.candidates);
    var landed := Sent(plan, a.outcomes, 0).landed;
    SyncedAttempt(configured, s, a);
    ChainAfter(configured, s, a, tables, plan);
    var mid := Present(configured, s1.chain);
    var still := PlanInSync(configured, s1.chain, b.candidates);
    SyncedAttempt(configured, s1, b);
    ChainAfter(configured, s1, b, mid, still);
    EverythingLands(still, b.outcomes);
    UninterruptedLands(configured, s, a, b.outcomes);
    PresentApplied(configured, s.chain, landed);
    var part := LandedOfPlan(plan, a.outcomes, 0);
    assert landed == Chunked(plan)[..|landed|];
    FreshPlanResumes(a.candidates, tables, |landed|);
    PresentApplied(configured, s1.chain, Chunked(still));
    ChunksHaveTheSameEffect(still, mid);
    PresentApplied(configured, s.chain, Chunked(plan));
    ChunksHaveTheSameEffect(plan, tables);
    OthersSame(configured, s.chain, a.candidates, b.candidates, a.outcomes);
    SameOnConfigured(configured, s2.chain, Uninterrupted(configured, s, a, b.outcomes));
  }

  /** Tables that are not configured stay as they are, through an attempt, a retry and a whole plan. */
  lemma OthersSame(configured: seq<Pubkey>, chain: Chain, first: seq<Pubkey>, second: seq<Pubkey>, outcomes: Outcomes)
    ensures var plan := PlanInSync(configured, chain, first);
            var mid := OnChain(chain, Sent(plan, outcomes, 0).landed);
            && (forall k :: k in chain && k !in configured ==> mid[k] == chain[k])
            && (forall k :: k in chain && k !in configured ==> OnChain(chain, Chunked(plan))[k] == chain[k])
            && (forall k :: k in chain && k !in configured ==>
                  OnChain(mid, Chunked(PlanInSync(configured, mid, second)))[k] == chain[k])
  {
    hide Missing, Existing, Filled, Chunked, AddressesFor, Present, Sent;
    var tables := Present(configured, chain);
    var missing := Missing(first, Existing(tables));
    var mid := OnChain(chain, Sent(Filled(missing, tables), outcomes, 0).landed);
    var later := Present(configured, mid);
    PresentKeys(configured, chain);
    PresentKeys(configured, mid);
    forall k | k in chain && k !in configured
      ensures mid[k] == chain[k]
      ensures OnChain(chain, Chunked(Filled(missing, tables)))[k] == chain[k]
      ensures OnChain(mid, Chunked(PlanInSync(configured, mid, second)))[k] == chain[k]
    {
      LandedOnOthers(configured, tables, missing, outcomes, k);
      OthersUntouched(configured, tables, missing, k);
      OthersUntouched(configured, later, Missing(second, Existing(later)), k);
      assert chain[k] + [] == chain[k];
    }
  }

  /** The tables a retry sees while an interrupted one is remembered: those without anything of it. */
  lemma SeenWhenStale(configured: seq<Pubkey>, s: State, a: Attempt, later: nat)
    requires configured != [] && !s.exhausted && NoRepeats(configured)
    requires AllReachable(configured, a.reachable) && InSync(configured, s, a.now) && a.now <= later
    requires var plan := PlanInSync(configured, s.chain, a.candidates);
             LeftStale(plan, Sent(plan, a.outcomes, 0), After(configured, s, a).0.cache, later)
    ensures var plan := PlanInSync(configured, s.chain, a.candidates);
            var r, s1 := Sent(plan, a.outcomes, 0), After(configured, s, a).0;
            var key, done := plan[r.done].key, Chunked(plan[..r.done]);
            && key in configured && key in s.chain && !s1.exhausted
            && AgreeOn(configured, Seen(s1.cache, s1.chain, later), OnChain(s.chain, done))
            && AddressesFor(done, key) == []
            && s1.chain == OnChain(s.chain, r.landed)
            && AddressesFor(r.landed, key) != []
  {
    hide After, Fetched, Sent, Missing, Existing, Filled, KeysOf, Chunked, AddressesFor, PlanInSync,
        Present, LandedInside;
    var tables, plan := Present(configured, s.chain), PlanInSync(configured, s.chain, a.candidates);
    var r, s1 := Sent(plan, a.outcomes, 0), After(configured, s, a).0;
    assert !r.complete by { InsideMeansIncomplete(plan, r); }
    SyncedAttempt(configured, s, a);
    ChainAfter(configured, s, a, tables, plan);
    var fetched := s.(cache := Fetched(configured, s.cache, s.chain, a.now, a.reachable).1);
    FetchedInSync(configured, configured, s, a.now, a.reachable);
    SyncLasts(configured, fetched, a.now, later);
    var part := LandedPart(plan, a.outcomes);
    var done, key := plan[..r.done], plan[r.done].key;
    StoppedInConfigured(configured, s.chain, a.candidates, r.done);
    AddedWhenNotDone(done, part, key);
    forall k | k in configured && k in s.chain
      ensures Seen(s1.cache, s1.chain, later)[k] == OnChain(s.chain, Chunked(done))[k]
    {
      if Remembered(s1.cache, later, k) {
        assert k !in KeysOf(done) && Remembered(fetched.cache, later, k);
        AddedWhenNotDone(done, part, k);
        assert s.chain[k] + [] == s.chain[k];
      } else {
        AddressesForConcat(Chunked(done), part, k);
        assert AddressesFor(Chunked(done), k) + [] == AddressesFor(Chunked(done), k);
      }
    }
  }

  lemma InsideMeansIncomplete(plan: seq<Extension>, r: Sending)
    requires LandedInside(plan, r)
    ensures !r.complete && r.done < |plan|
  {}

  /** A retry that plans around a stale table adds to it what it plans for it once more. */
  lemma StaleRetryDiffers(configured: seq<Pubkey>, s: State, a: Attempt, b: Attempt)
    requires configured != [] && !s.exhausted && NoRepeats(configured) && a.candidates == b.candidates
    requires AllReachable(configured, a.reachable) && InSync(configured, s, a.now) && a.now <= b.now
    requires AllReachable(configured, b.reachable) && EveryConfirmed(b.outcomes)
    requires var plan := PlanInSync(configured, s.chain, a.candidates);
             LeftStale(plan, Sent(plan, a.outcomes, 0), After(configured, s, a).0.cache, b.now)
    ensures var plan := PlanInSync(configured, s.chain, a.candidates);
            var r := Sent(plan, a.outcomes, 0);
            var key := plan[r.done].key;
            var retried := After(configured, After(configured, s, a).0, b).0.chain;
            var whole := Uninterrupted(configured, s, a, b.outcomes);
            && key in retried && key in whole
            && |retried[key]| == |whole[key]| + |AddressesFor(r.landed, key)|
            && AddressesFor(r.landed, key) != []
  {
    hide After, Fetched, Sent, Missing, Existing, Filled, Chunked, AddressesFor, Present, Uninterrupted,
        InSync, LandedInside, Seen;
    var tables, plan := Present(configured, s.chain), PlanInSync(configured, s.chain, a.candidates);
    var r, s1 := Sent(plan, a.outcomes, 0), After(configured, s, a).0;
    assert r.done < |plan| by { InsideMeansIncomplete(plan, r); }
    var key, done := plan[r.done].key, Chunked(plan[..r.done]);
    SeenWhenStale(configured, s, a, b.now);
    SyncedAttempt(configured, s, a);
    FetchedSees(configured, s1.cache, s1.chain, b.now, b.reachable);
    PresentSame(configured, Seen(s1.cache, s1.chain, b.now), OnChain(s.chain, done));
    PresentApplied(configured, s.chain, done);
    var mid := Applied(done, tables);
    var still := Filled(Missing(b.candidates, Existing(mid)), mid);
    ChainAfter(configured, s1, b, mid, still);
    EverythingLands(still, b.outcomes);
    UninterruptedLands(configured, s, a, b.outcomes);
    assert plan == plan[..r.done] + plan[r.done..];
    ChunkedConcat(plan[..r.done], plan[r.done..]);
    assert done == Chunked(plan)[..|done|];
    FreshPlanResumes(a.candidates, tables, |done|);
    PresentApplied(configured, OnChain(s.chain, done), still);
    PresentApplied(configured, s.chain, plan);
    PresentTells(configured, OnChain(OnChain(s.chain, done), still), OnChain(s.chain, plan));
    ForChunked(still, key);
    ForChunked(plan, key);
  }

  /**
    A retry with nothing lost leaves the network as the uninterrupted plan would have, unless the first
    attempt stopped in a table of which some chunk had landed and that is still remembered.
   */
  lemma RetryRestoresExactly(configured: seq<Pubkey>, s: State, a: Attempt, b: Attempt)
    requires configured != [] && !s.exhausted && NoRepeats(configured) && a.candidates == b.candidates
    requires AllReachable(configured, a.reachable) && InSync(configured, s, a.now) && a.now <= b.now
    requires AllReachable(configured, b.reachable) && EveryConfirmed(b.outcomes)
    ensures var plan := PlanInSync(configured, s.chain, a.candidates);
            var s1 := After(configured, s, a).0;
            After(configured, s1, b).0.chain == Uninterrupted(configured, s, a, b.outcomes)
            <==> !LeftStale(plan, Sent(plan, a.outcomes, 0), s1.cache, b.now)
  {
    hide After, Fetched, Sent, Missing, Existing, Filled, Chunked, AddressesFor, Present, Uninterrupted,
        InSync, LeftStale, OnChain,
         PlanInSync;
    var plan := PlanInSync(configured, s.chain, a.candidates);
    var s1 := After(configured, s, a).0;
    SyncKeptExactly(configured, s, a, b.now);
    if LeftStale(plan, Sent(plan, a.outcomes, 0), s1.cache, b.now) {
      StaleRetryDiffers(configured, s, a, b);
    } else if s1.exhausted {
      SyncedAttempt(configured, s, a);
      ChainAfter(configured, s, a, Present(configured, s.chain), plan);
      var part := LandedPart(plan, a.outcomes);
      assert plan[..|plan|] == plan && Chunked(plan) + [] == Chunked(plan);
      UninterruptedLands(configured, s, a, b.outcomes);
      NotStaleWhenComplete(plan, Sent(plan, a.outcomes, 0), s1.cache, b.now);
      ExhaustedStays(configured, s1, b);
    } else {
      RetryInSync(configured, s, a, b);
    }
  }

  lemma NotStaleWhenComplete(plan: seq<Extension>, r: Sending, cache: Cache, now: nat)
    requires r.complete
    ensures !LeftStale(plan, r, cache, now)
  {}

  lemma ExhaustedStays(configured: seq<Pubkey>, s: State, a: Attempt)
    requires s.exhausted
    ensures After(configured, s, a).0 == s
  {}

  /**
    Forty missing addresses and one empty table: the first twenty are confirmed and the next are lost.
    A retry within ten minutes adds all forty.
   */
  lemma StaleRetryAddsTwice(key: Pubkey, a: Attempt, b: Attempt)
    requires |a.candidates| == 40 && forall i, j :: 0 <= i < j < 40 ==> a.candidates[i] != a.candidates[j]
    requires a.reachable(key) && a.outcomes(0).Confirmed? && a.outcomes(1) == Lost(false)
    requires b.candidates == a.candidates && b.reachable(key) && EveryConfirmed(b.outcomes)
    requires a.now <= b.now < a.now + 600_000
    ensures var (s1, r1) := After([key], State(false, map[key := []], map[]), a);
            && r1 == Err(SendFailed) && s1.chain == map[key := a.candidates[..20]]
            && After([key], s1, b).0.chain == map[key := a.candidates[..20] + a.candidates]
  {
    hide Fetched, Missing, Existing, Filled, LeftOver, Sent, OnChain;
    var c := a.candidates;
    var first, second := Extension(key, c[..20]), Extension(key, c[20..]);
    var cache := map[key := CacheEntry([], a.now)];
    PlanOfForty(key, c);
    FetchOne(key, map[], map[key := []], a.now, a.reachable);
    FetchOne(key, cache, map[key := c[..20]], b.now, b.reachable);
    SentForty(key, c, a.outcomes);
    SentForty(key, c, b.outcomes);
    OneChunkOnChain(map[key := []], first);
    assert [] + c[..20] == c[..20];
    assert c == c[..20] + c[20..] && c[..20] + c[..20] + c[20..] == c[..20] + (c[..20] + c[20..]);
    OneChunkOnChain(map[key := c[..20]], first);
    OneMoreOnChain(map[key := c[..20]], [first], second);
    OneChunkOnChain(map[key := c[..20] + c[..20]], second);
    assert OnChain(map[key := c[..20]], [first]) == map[key := c[..20] + c[..20]];
    assert cache - {} == cache;
    assert OnChain(map[key := c[..20]], [first] + [second]) == map[key := c[..20] + c];
    var s1 := After([key], State(false, map[key := []], map[]), a).0;
    assert s1 == State(false, map[key := c[..20]], cache);
    NoKeys();
    assert [Extension(key, c)][..0] == [];
  }

  lemma FetchOne(key: Pubkey, cache: Cache, chain: Chain, now: nat, reachable: Pubkey -> bool)
    requires key in chain && reachable(key)
    ensures Fetched([key], cache, chain, now, reachable)
            == if Remembered(cache, now, key) then (Some([Table(key, cache[key].addresses)]), cache)
               else (Some([Table(key, chain[key])]), cache[key := CacheEntry(chain[key], now)])
  {
    assert [key][..0] == [];
    assert Fetched([], cache, chain, now, reachable) == (Some([]), cache);
    assert forall t: Table :: [] + [t] == [t];
  }

  lemma PlanOfForty(key: Pubkey, candidates: seq<Pubkey>)
    requires |candidates| == 40 && forall i, j :: 0 <= i < j < 40 ==> candidates[i] != candidates[j]
    ensures var tables := [Table(key, [])];
            var missing := Missing(candidates, Existing(tables));
            Filled(missing, tables) == [Extension(key, candidates)] && LeftOver(missing, tables) == []
  {
    assert Existing([Table(key, [])]) == {};
    MissingDistinct(candidates);
  }

  lemma {:induction false} MissingDistinct(candidates: seq<Pubkey>)
    requires forall i, j :: 0 <= i < j < |candidates| ==> candidates[i] != candidates[j]
    ensures Missing(candidates, {}) == candidates
  {
    if candidates != [] {
      MissingDistinct(candidates[..|candidates| - 1]);
      assert candidates == candidates[..|candidates| - 1] + [candidates[|candidates| - 1]];
    }
  }

  lemma SentForty(key: Pubkey, candidates: seq<Pubkey>, outcomes: Outcomes)
    requires |candidates| == 40 && outcomes(0).Confirmed?
    ensures var first, second := Extension(key, candidates[..20]), Extension(key, candidates[20..]);
            Sent([Extension(key, candidates)], outcomes, 0)
            == match outcomes(1)
               case Confirmed => Sending([first] + [second], 1, true)
               case Lost(landed) => Sending(if landed then [first] + [second] else [first], 0, false)
  {
    hide ConfirmedBefore;
    var first, second := Extension(key, candidates[..20]), Extension(key, candidates[20..]);
    assert candidates[20..][..20] == candidates[20..];
    assert Chunks(key, candidates) == [first] + [second];
    FirstLost(outcomes, 0, 2, if outcomes(1).Confirmed? then 2 else 1);
    NothingSent(outcomes, 2);
    assert [Extension(key, candidates)][1..] == [];
  }

  /** Giving up for good happens only when every configured table that exists is full. */
  lemma GivenUpMeansFull(configured: seq<Pubkey>, s: State, a: Attempt, t: Table)
    requires configured != [] && !s.exhausted && NoRepeats(configured)
    requires AllReachable(configured, a.reachable) && InSync(configured, s, a.now)
    requires After(configured, s, a).0.exhausted
    requires t in Present(configured, After(configured, s, a).0.chain)
    ensures |t.addresses| >= 256
  {
    hide Fetched, Missing, Existing, Filled, LeftOver, Sent, OnChain, Present, Chunked, Applied;
    var tables, plan := Present(configured, s.chain), PlanInSync(configured, s.chain, a.candidates);
    var missing := Missing(a.candidates, Existing(tables));
    var s1 := After(configured, s, a).0;
    SyncedAttempt(configured, s, a);
    ChainAfter(configured, s, a, tables, plan);
    assert LeftOver(missing, tables) != [];
    var part := LandedOfPlan(plan, a.outcomes, 0);
    var landed := Sent(plan, a.outcomes, 0).landed;
    assert plan[..|plan|] == plan && Chunked(plan) + [] == Chunked(plan);
    PresentApplied(configured, s.chain, landed);
    AppliedKeepsKeys(landed, tables);
    var i :| 0 <= i < |tables| && Applied(landed, tables)[i] == t;
    ExhaustedMeansFull(a.candidates, tables, i);
  }

  lemma {:induction false} LeftOverCount(missing: seq<Pubkey>, tables: seq<Table>)
    ensures |LeftOver(missing, tables)| == if |missing| > Caps(tables) then |missing| - Caps(tables) else 0
  {
    if tables != [] && missing != [] && RemainingCapacity(tables[0]) < |missing| {
      LeftOverCount(missing[RemainingCapacity(tables[0])..], tables[1..]);
    }
  }

  lemma {:induction false} NothingFilledExactly(missing: seq<Pubkey>, tables: seq<Table>)
    ensures Filled(missing, tables) == [] <==> missing == [] || Caps(tables) == 0
  {
    if tables != [] && missing != []
        && RemainingCapacity(tables[0]) == 0 { NothingFilledExactly(missing, tables[1..]); }
  }

  /**
    Extending is given up for good exactly when more is missing than all tables can take, and everything that
    they can take was confirmed and has warmed up.
   */
  lemma GivesUpExactly(configured: seq<Pubkey>, s: State, a: Attempt)
    requires configured != [] && !s.exhausted && NoRepeats(configured)
    requires AllReachable(configured, a.reachable) && InSync(configured, s, a.now)
    ensures var tables := Present(configured, s.chain);
            var missing := Missing(a.candidates, Existing(tables));
            var chunks := |Chunked(PlanInSync(configured, s.chain, a.candidates))|;
            After(configured, s, a).0.exhausted <==>
              && |missing| > Caps(tables)
              && (Caps(tables) == 0 || (AllConfirmed(a.outcomes, 0, chunks) && a.warmedUp))
  {
    hide Fetched, Missing, Existing, Filled, LeftOver, Sent, Caps, Chunked, AllConfirmed, Present;
    var tables, plan := Present(configured, s.chain), PlanInSync(configured, s.chain, a.candidates);
    var missing := Missing(a.candidates, Existing(tables));
    SyncedAttempt(configured, s, a);
    LeftOverCount(missing, tables);
    NothingFilledExactly(missing, tables);
    CompleteExactly(plan, a.outcomes, 0);
  }

  /** A table is fetched anew once it has been remembered for ten minutes, and not before. */
  lemma RememberedForTenMinutes(key: Pubkey, cache: Cache, chain: Chain, now: nat, reachable: Pubkey -> bool)
    requires key in chain && key in cache && reachable(key) && cache[key].at <= now
    ensures Fetched([key], cache, chain, now, reachable).0
            == Some([Table(key, if now < cache[key].at + 600_000 then cache[key].addresses else chain[key])])
  {
    FetchOne(key, cache, chain, now, reachable);
  }
}
