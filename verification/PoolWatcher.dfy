/**
  The table of watched pools: every poll refreshes the pools it saw, ages the others by one miss, and
  drops those that have been missed too often.
 */
module PoolWatcher {
  import opened Sorting

  const U64_MAX: nat := 0xFFFF_FFFF_FFFF_FFFF
  const U32_MAX: nat := 0xFFFF_FFFF

  datatype Config = Config(maxMisses: nat, excludedTokenMints: set<string>)

  datatype StatePool = StatePool(
    address: string,
    venue: string,
    tokenMint: string,
    quoteMint: string,
    firstSeenUnix: nat,
    lastSeenUnix: nat,
    lastSeenSlot: nat,
    hits: nat,
    misses: nat)

  datatype FreshPool = FreshPool(
    address: string,
    venue: string,
    tokenMint: string,
    quoteMint: string,
    lastSeenSlot: nat,
    hits: nat)

  type Table = map<string, StatePool>

  function Max(a: nat, b: nat): nat {
    if a >= b then a else b
  }

  function Sat64(n: nat): nat {
    if n <= U64_MAX then n else U64_MAX
  }

  function Sat32(n: nat): nat {
    if n <= U32_MAX then n else U32_MAX
  }

  // ---------- order of the list ----------

  predicate StringLe(a: string, b: string) {
    if a == "" then true
    else if b == "" then false
    else if a[0] == b[0] then StringLe(a[1..], b[1..])
    else a[0] < b[0]
  }

  predicate PoolLe(a: StatePool, b: StatePool) {
    if a.tokenMint != b.tokenMint then StringLe(a.tokenMint, b.tokenMint)
    else if a.venue != b.venue then StringLe(a.venue, b.venue)
    else StringLe(a.address, b.address)
  }

  lemma {:induction false} StringLeTotal(a: string, b: string)
    ensures StringLe(a, b) || StringLe(b, a)
    ensures StringLe(a, b) && StringLe(b, a) ==> a == b
  {
    if a != "" && b != "" && a[0] == b[0] {
      StringLeTotal(a[1..], b[1..]);
      assert a == [a[0]] + a[1..] && b == [b[0]] + b[1..];
    }
  }

  lemma {:induction false} StringLeTransitive(a: string, b: string, c: string)
    requires StringLe(a, b) && StringLe(b, c)
    ensures StringLe(a, c)
  {
    if a != "" && a[0] == b[0] == c[0] { StringLeTransitive(a[1..], b[1..], c[1..]); }
  }

  lemma PoolLeIsPreorder()
    ensures TotalPreorder(PoolLe)
  {
    forall x, y ensures PoolLe(x, y) || PoolLe(y, x) {
      StringLeTotal(x.tokenMint, y.tokenMint);
      StringLeTotal(x.venue, y.venue);
      StringLeTotal(x.address, y.address);
    }
    forall x, y, z | PoolLe(x, y) && PoolLe(y, z) ensures PoolLe(x, z) {
      PoolLeTransitive(x, y, z);
    }
  }

  lemma PoolLeTransitive(x: StatePool, y: StatePool, z: StatePool)
    requires PoolLe(x, y) && PoolLe(y, z)
    ensures PoolLe(x, z)
  {
    if x.tokenMint != y.tokenMint || y.tokenMint != z.tokenMint {
      StringLeTotal(x.tokenMint, y.tokenMint);
      StringLeTotal(y.tokenMint, z.tokenMint);
      if x.tokenMint != y.tokenMint && y.tokenMint != z.tokenMint {
        StringLeTransitive(x.tokenMint, y.tokenMint, z.tokenMint);
      }
    } else if x.venue != y.venue || y.venue != z.venue {
      StringLeTotal(x.venue, y.venue);
      StringLeTotal(y.venue, z.venue);
      if x.venue != y.venue && y.venue != z.venue {
        StringLeTransitive(x.venue, y.venue, z.venue);
      }
    } else {
      StringLeTransitive(x.address, y.address, z.address);
    }
  }

  // ---------- one poll ----------

  function Inserted(found: FreshPool, now: nat): StatePool {
    StatePool(found.address, found.venue, found.tokenMint, found.quoteMint, now, now,
              found.lastSeenSlot, Max(found.hits, 1), 0)
  }

  function Refreshed(existing: StatePool, found: FreshPool, now: nat): StatePool {
    existing.(venue := found.venue, tokenMint := found.tokenMint, quoteMint := found.quoteMint,
              lastSeenUnix := now,
              lastSeenSlot := Max(existing.lastSeenSlot, found.lastSeenSlot),
              hits := Sat64(existing.hits + Max(found.hits, 1)),
              misses := 0)
  }

  function Seen(table: Table, found: FreshPool, now: nat): StatePool {
    if found.address in table then Refreshed(table[found.address], found, now) else Inserted(found, now)
  }

  function Missed(pool: StatePool): StatePool {
    pool.(misses := Sat32(pool.misses + 1))
  }

  /** Pools of a list by address; of several with one address the last counts. */
  function ByAddress(pools: seq<StatePool>, excluded: set<string>): Table {
    if pools == [] then map[]
    else
      var init, last := ByAddress(pools[..|pools| - 1], excluded), pools[|pools| - 1];
      if last.tokenMint in excluded then init else init[last.address := last]
  }

  predicate Keyed(found: map<string, FreshPool>) {
    forall k :: k in found ==> found[k].address == k
  }

  /** Every pool after a poll, including those about to be dropped. */
  function Aged(table: Table, found: map<string, FreshPool>, now: nat): Table {
    map k | k in table.Keys + found.Keys :: if k in found then Seen(table, found[k], now) else Missed(table[k])
  }

  function Kept(table: Table, maxMisses: nat): Table {
    map k | k in table && table[k].misses < maxMisses :: table[k]
  }

  function AfterPoll(config: Config, table: Table, found: map<string, FreshPool>, now: nat): Table {
    Kept(Aged(table, found, now), config.maxMisses)
  }

  /** A list holds a table: each pool once, under its own address, in order. */
  ghost predicate Lists(pools: seq<StatePool>, table: Table) {
    && SortedBy(PoolLe, pools)
    && (forall i, j :: 0 <= i < j < |pools| ==> pools[i].address != pools[j].address)
    && (forall p :: p in pools <==> p.address in table && table[p.address] == p)
  }

  predicate AddressedBy(table: Table) {
    forall k :: k in table ==> table[k].address == k
  }

  method UpdateState(config: Config, pools: seq<StatePool>, found: map<string, FreshPool>, now: nat)
    returns (updated: seq<StatePool>)
    requires Keyed(found)
    ensures Lists(updated, AfterPoll(config, ByAddress(pools, config.excludedTokenMints), found, now))
  {
    hide Lists, Kept, Sort, ByAddress, AddressedBy;
    var active := CollectActive(pools, config.excludedTokenMints);
    AgedInTwoSteps(active, found, now);
    active := RefreshSighted(active, found, now);
    active := MissOthers(active, found);
    var kept := Values(active, config.maxMisses);
    SortList(kept, Kept(active, config.maxMisses));
    updated := Sort(PoolLe, kept);
  }

  lemma AgedInTwoSteps(table: Table, found: map<string, FreshPool>, now: nat)
    ensures var sighted := WithSighted(table, found, now);
            (map k | k in sighted :: if k in found then sighted[k] else Missed(sighted[k])) == Aged(table, found, now)
  {
    hide Seen, Missed;
  }

  /** The table with the sighted pools refreshed or inserted, and the others as they were. */
  function WithSighted(table: Table, found: map<string, FreshPool>, now: nat): Table {
    map k | k in table.Keys + found.Keys :: if k in found then Seen(table, found[k], now) else table[k]
  }

  /** A sighting looks at one entry only, and keeps its address. */
  lemma SeenIsLocal(table: Table, other: Table, found: FreshPool, now: nat)
    requires found.address in table <==> found.address in other
    requires found.address in table
        ==> table[found.address] == other[found.address] && table[found.address].address == found.address
    ensures Seen(table, found, now) == Seen(other, found, now)
    ensures Seen(table, found, now).address == found.address
  {}

  method RefreshSighted(table: Table, found: map<string, FreshPool>, now: nat) returns (active: Table)
    requires Keyed(found) && AddressedBy(table)
    ensures active == WithSighted(table, found, now) && AddressedBy(active)
  {
    hide Seen;
    active := table;
    var left := found.Keys;
    while left != {}
      invariant left <= found.Keys && AddressedBy(active)
      invariant active.Keys == table.Keys + (found.Keys - left)
      invariant forall k :: k in found && k !in left ==> active[k] == Seen(table, found[k], now)
      invariant forall k :: k in table && (k in left || k !in found) ==> active[k] == table[k]
      decreases left
    {
      var k :| k in left;
      SeenIsLocal(active, table, found[k], now);
      active := active[k := Seen(active, found[k], now)];
      left := left - {k};
    }
  }

  method MissOthers(table: Table, found: map<string, FreshPool>) returns (active: Table)
    requires AddressedBy(table)
    ensures active == map k | k in table :: if k in found then table[k] else Missed(table[k])
    ensures AddressedBy(active)
  {
    active := table;
    var left := table.Keys;
    while left != {}
      invariant left <= table.Keys && active.Keys == table.Keys
      invariant AddressedBy(active)
      invariant forall k :: k in table && k !in left ==> active[k] == if k in found then table[k] else Missed(table[k])
      invariant forall k :: k in left ==> active[k] == table[k]
      decreases left
    {
      var k :| k in left;
      if k !in found { active := active[k := Missed(active[k])]; }
      left := left - {k};
    }
  }

  method CollectActive(pools: seq<StatePool>, excluded: set<string>) returns (active: Table)
    ensures active == ByAddress(pools, excluded) && AddressedBy(active)
  {
    active := map[];
    for i := 0 to |pools|
      invariant active == ByAddress(pools[..i], excluded) && AddressedBy(active)
    {
      assert pools[..i + 1][..i] == pools[..i];
      if pools[i].tokenMint !in excluded { active := active[pools[i].address := pools[i]]; }
    }
    assert pools[..|pools|] == pools;
  }

  /** The pools still within their misses, in whatever order the map yields them. */
  method Values(table: Table, maxMisses: nat) returns (r: seq<StatePool>)
    requires AddressedBy(table)
    ensures forall i, j :: 0 <= i < j < |r| ==> r[i].address != r[j].address
    ensures forall p :: p in r <==> p.address in Kept(table, maxMisses) && Kept(table, maxMisses)[p.address] == p
  {
    r := [];
    var left := table.Keys;
    while left != {}
      invariant left <= table.Keys
      invariant forall i, j :: 0 <= i < j < |r| ==> r[i].address != r[j].address
      invariant forall p :: p in r <==>
                  p.address in table && p.address !in left && table[p.address] == p && p.misses < maxMisses
      decreases left
    {
      var k :| k in left;
      if table[k].misses < maxMisses { r := r + [table[k]]; }
      left := left - {k};
    }
  }

  lemma SortList(pools: seq<StatePool>, table: Table)
    requires forall i, j :: 0 <= i < j < |pools| ==> pools[i].address != pools[j].address
    requires forall p :: p in pools <==> p.address in table && table[p.address] == p
    ensures Lists(Sort(PoolLe, pools), table)
  {
    PoolLeIsPreorder();
    SortSorts(PoolLe, pools);
    var sorted := Sort(PoolLe, pools);
    forall i, j | 0 <= i < j < |sorted| ensures sorted[i].address != sorted[j].address {
      if sorted[i].address == sorted[j].address {
        assert sorted[i] in pools && sorted[j] in pools;
        assert sorted[i] == sorted[j];
        TwiceMeansTwo(sorted, i, j);
        OnceEach(pools, sorted[i]);
        assert false;
      }
    }
  }

  lemma TwiceMeansTwo(s: seq<StatePool>, i: nat, j: nat)
    requires i < j < |s| && s[i] == s[j]
    ensures multiset(s)[s[i]] >= 2
  {
    assert s == s[..i] + [s[i]] + s[i + 1..j] + [s[j]] + s[j + 1..];
  }

  lemma {:induction false} OnceEach(s: seq<StatePool>, p: StatePool)
    requires forall i, j :: 0 <= i < j < |s| ==> s[i].address != s[j].address
    ensures multiset(s)[p] <= 1
  {
    if s != [] {
      var init := s[..|s| - 1];
      assert s == init + [s[|s| - 1]];
      OnceEach(init, p);
      if p == s[|s| - 1] {
        assert p !in init;
      }
    }
  }

  // ---------- many polls ----------

  datatype Poll = Poll(found: map<string, FreshPool>, now: nat)

  /** Pools of excluded tokens are discarded when the state is read back. */
  function Reread(table: Table, excluded: set<string>): Table {
    map k | k in table && table[k].tokenMint !in excluded :: table[k]
  }

  /** A table that was read from a stored list. */
  predicate Stored(config: Config, table: Table) {
    AddressedBy(table) && forall k :: k in table ==> table[k].tokenMint !in config.excludedTokenMints
  }

  /** The table after some polls that began with a stored one. */
  function TableAfter(config: Config, start: Table, polls: seq<Poll>): Table {
    if polls == [] then start
    else
      var poll, before := polls[|polls| - 1], TableAfter(config, start, polls[..|polls| - 1]);
      AfterPoll(config, Reread(before, config.excludedTokenMints), poll.found, poll.now)
  }

  predicate WellFormed(config: Config, poll: Poll) {
    && Keyed(poll.found)
    && forall k :: k in poll.found ==> poll.found[k].tokenMint !in config.excludedTokenMints
  }

  // The history of one address, told from sighting to sighting.

  function LastSighting(polls: seq<Poll>, address: string): (i: int)
    ensures -1 <= i < |polls|
    ensures i >= 0 ==> address in polls[i].found
    ensures forall j :: i < j < |polls| ==> address !in polls[j].found
  {
    if polls == [] then -1
    else if address in polls[|polls| - 1].found then |polls| - 1
    else LastSighting(polls[..|polls| - 1], address)
  }

  /**
    Whether an address is still in the table after some polls: its last sighting, or the stored entry
    if there was none, has not been missed too often since. Nothing is dropped before the first poll.
   */
  predicate Alive(start: Table, polls: seq<Poll>, address: string, maxMisses: nat) {
    var last := LastSighting(polls, address);
    if last >= 0 then |polls| - 1 - last < maxMisses
    else address in start && (polls == [] || start[address].misses + |polls| < maxMisses)
  }

  /** Polls that an address has been missed by, counting those before a stored entry was written. */
  function MissesNow(start: Table, polls: seq<Poll>, address: string): nat
    requires LastSighting(polls, address) >= 0 || address in start
  {
    var last := LastSighting(polls, address);
    if last >= 0 then |polls| - 1 - last else start[address].misses + |polls|
  }

  /** The entry that the sightings of an address amount to, on top of the stored one if it lasted. */
  function EntryOf(start: Table, polls: seq<Poll>, address: string, maxMisses: nat): StatePool
    requires LastSighting(polls, address) >= 0 || address in start
    decreases |polls|
  {
    var i := LastSighting(polls, address);
    if i < 0 then start[address]
    else
      var found, now := polls[i].found[address], polls[i].now;
      if Alive(start, polls[..i], address, maxMisses)
      then Refreshed(EntryOf(start, polls[..i], address, maxMisses), found, now)
      else Inserted(found, now)
  }

  /** What one poll does to one address. */
  lemma AfterPollAt(config: Config, table: Table, poll: Poll, address: string)
    requires WellFormed(config, poll) && AddressedBy(table)
    ensures var before, after := Reread(table, config.excludedTokenMints),
                                 AfterPoll(config, Reread(table, config.excludedTokenMints), poll.found, poll.now);
            && AddressedBy(after)
            && (address in before <==> address in table && table[address].tokenMint !in config.excludedTokenMints)
            && (address in before ==> before[address] == table[address])
            && (address in poll.found ==>
                  && (address in after <==> 0 < config.maxMisses)
                  && (address in after ==> after[address] == Seen(before, poll.found[address], poll.now)))
            && (address !in poll.found ==>
                  && (address in after <==> address in before && Missed(before[address]).misses < config.maxMisses)
                  && (address in after ==> after[address] == Missed(before[address])))
  {}

  /**
    After any polls, an address is in the table exactly when it has not been missed too often; its
    entry is then that of its sightings, with one miss for every poll since the last.
   */
  lemma {:induction false} TableIsFunctionOfHistory(config: Config, start: Table, polls: seq<Poll>, address: string)
    requires Stored(config, start)
    requires forall poll :: poll in polls ==> WellFormed(config, poll)
    requires config.maxMisses <= U32_MAX
    ensures AddressedBy(TableAfter(config, start, polls))
    ensures var table := TableAfter(config, start, polls);
            && (address in table <==> Alive(start, polls, address, config.maxMisses))
            && (address in table ==>
                  && table[address].tokenMint !in config.excludedTokenMints
                  && table[address] == EntryOf(start, polls, address, config.maxMisses)
                                       .(misses := MissesNow(start, polls, address)))
  {
    hide AfterPoll, Reread, AddressedBy, EntryOf, Refreshed, Inserted;
    if polls == [] {
      if address in start { NoPolls(start, address, config.maxMisses); }
      assert address in start ==> start[address].tokenMint !in config.excludedTokenMints;
      assert AddressedBy(start);
    } else {
      var n := |polls| - 1;
      var init, poll := polls[..n], polls[n];
      assert forall p :: p in init ==> p in polls;
      TableIsFunctionOfHistory(config, start, init, address);
      assert poll in polls;
      AfterPollAt(config, TableAfter(config, start, init), poll, address);
      if address in poll.found {
        SightingNow(start, polls, address, config.maxMisses);
        FreshMisses(Reread(TableAfter(config, start, init), config.excludedTokenMints), poll, address);
      } else {
        NoSightingNow(start, polls, address, config.maxMisses);
      }
    }
  }

  lemma NoPolls(start: Table, address: string, maxMisses: nat)
    requires address in start
    ensures EntryOf(start, [], address, maxMisses) == start[address]
    ensures MissesNow(start, [], address) == start[address].misses
  {}

  lemma SightingNow(start: Table, polls: seq<Poll>, address: string, maxMisses: nat)
    requires polls != [] && address in polls[|polls| - 1].found
    ensures var n := |polls| - 1;
            var init, f, now := polls[..n], polls[n].found[address], polls[n].now;
            && LastSighting(polls, address) == n
            && EntryOf(start, polls, address, maxMisses)
               == (if Alive(start, init, address, maxMisses)
                   then Refreshed(EntryOf(start, init, address, maxMisses), f, now) else Inserted(f, now))
  {}

  lemma NoSightingNow(start: Table, polls: seq<Poll>, address: string, maxMisses: nat)
    requires polls != [] && address !in polls[|polls| - 1].found
    ensures var init := polls[..|polls| - 1];
            && LastSighting(polls, address) == LastSighting(init, address)
            && (LastSighting(init, address) >= 0 || address in start ==>
                  EntryOf(start, polls, address, maxMisses) == EntryOf(start, init, address, maxMisses))
  {
    var init := polls[..|polls| - 1];
    var last := LastSighting(init, address);
    if last >= 0 { assert init[..last] == polls[..last]; }
  }

  /** A sighting forgets the misses before it. */
  lemma FreshMisses(table: Table, poll: Poll, address: string)
    requires address in poll.found && poll.found[address].address == address
    ensures Seen(table, poll.found[address], poll.now)
            == if address in table then Refreshed(table[address].(misses := 0), poll.found[address], poll.now)
               else Inserted(poll.found[address], poll.now)
    ensures Seen(table, poll.found[address], poll.now).misses == 0
    ensures Seen(table, poll.found[address], poll.now).tokenMint == poll.found[address].tokenMint
    ensures forall e: StatePool, m: nat ::
              Refreshed(e.(misses := m), poll.found[address], poll.now) == Refreshed(e, poll.found[address], poll.now)
  {}

  // ---------- the stored list ----------

  lemma {:induction false} ByAddressSound(pools: seq<StatePool>, excluded: set<string>, k: string)
    requires k in ByAddress(pools, excluded)
    ensures var p := ByAddress(pools, excluded)[k]; p in pools && p.address == k && p.tokenMint !in excluded
  {
    var init, last := pools[..|pools| - 1], pools[|pools| - 1];
    assert last in pools && forall p :: p in init ==> p in pools;
    if last.tokenMint in excluded || last.address != k { ByAddressSound(init, excluded, k); }
  }

  lemma {:induction false} ByAddressComplete(pools: seq<StatePool>, excluded: set<string>, i: nat)
    requires i < |pools| && pools[i].tokenMint !in excluded
    ensures pools[i].address in ByAddress(pools, excluded)
  {
    if i < |pools| - 1 { ByAddressComplete(pools[..|pools| - 1], excluded, i); }
  }

  /** Reading back a stored list gives the table it lists, without excluded tokens. */
  lemma ListReadsBack(pools: seq<StatePool>, table: Table, excluded: set<string>)
    requires Lists(pools, table) && AddressedBy(table)
    ensures ByAddress(pools, excluded) == Reread(table, excluded)
  {
    var read, expected := ByAddress(pools, excluded), Reread(table, excluded);
    forall k | k in read ensures k in expected && read[k] == expected[k] {
      ByAddressSound(pools, excluded, k);
    }
    forall k | k in expected ensures k in read {
      assert table[k] in pools;
      var i :| 0 <= i < |pools| && pools[i] == table[k];
      ByAddressComplete(pools, excluded, i);
    }
  }

  /** The watcher between polls: what it stores is a function of what it started from and its polls. */
  class Watcher {
    const config: Config
    var pools: seq<StatePool>
    ghost const start: Table
    ghost var history: seq<Poll>

    ghost predicate Valid()
      reads this
    {
      && config.maxMisses <= U32_MAX
      && Stored(config, start)
      && (forall poll :: poll in history ==> WellFormed(config, poll))
      && (if history == [] then ByAddress(pools, config.excludedTokenMints) == start
          else Lists(pools, TableAfter(config, start, history)))
    }

    /** Takes up whatever list is stored, be it unsorted or with repeated addresses. */
    constructor (config: Config, pools: seq<StatePool>)
      requires config.maxMisses <= U32_MAX
      ensures Valid() && this.config == config && this.pools == pools && history == []
      ensures start == ByAddress(pools, config.excludedTokenMints)
    {
      this.config := config;
      this.pools := pools;
      this.start := ByAddress(pools, config.excludedTokenMints);
      this.history := [];
      new;
      forall k | k in start ensures start[k].address == k && start[k].tokenMint !in config.excludedTokenMints {
        ByAddressSound(pools, config.excludedTokenMints, k);
      }
    }

    method RunPoll(found: map<string, FreshPool>, now: nat)
      requires Valid() && WellFormed(config, Poll(found, now))
      modifies this
      ensures Valid() && history == old(history) + [Poll(found, now)]
    {
      hide Lists, AfterPoll, ByAddress;
      StoredStays(config, start);
      if history != [] {
        TableIsFunctionOfHistory(config, start, history, "");
        ListReadsBack(pools, TableAfter(config, start, history), config.excludedTokenMints);
      }
      pools := UpdateState(config, pools, found, now);
      history := history + [Poll(found, now)];
      assert history[..|history| - 1] == old(history) && history[|history| - 1] == Poll(found, now);
      assert ByAddress(old(pools), config.excludedTokenMints)
             == Reread(TableAfter(config, start, old(history)), config.excludedTokenMints);
      assert Lists(pools, TableAfter(config, start, history));
    }
  }

  lemma StoredStays(config: Config, start: Table)
    requires Stored(config, start)
    ensures Reread(start, config.excludedTokenMints) == start
  {}

  // ---------- what an entry summarizes ----------

  /** Sighting `i` belongs to the same stay in the table as the last sighting. */
  predicate InLifetime(start: Table, polls: seq<Poll>, address: string, maxMisses: nat, i: nat)
    requires i < |polls|
    decreases |polls|
  {
    var last := LastSighting(polls, address);
    && i <= last
    && (i == last
        || (Alive(start, polls[..last], address, maxMisses) && InLifetime(start, polls[..last], address, maxMisses, i)))
  }

  /** The current stay goes back to the stored entry. */
  predicate SinceStart(start: Table, polls: seq<Poll>, address: string, maxMisses: nat)
    decreases |polls|
  {
    var last := LastSighting(polls, address);
    if last < 0 then address in start
    else Alive(start, polls[..last], address, maxMisses) && SinceStart(start, polls[..last], address, maxMisses)
  }

  /** Hits of the current stay: those of the stored entry if it lasted, and at least one for every sighting. */
  function HitsOfLifetime(start: Table, polls: seq<Poll>, address: string, maxMisses: nat): nat
    requires LastSighting(polls, address) >= 0 || address in start
    decreases |polls|
  {
    var last := LastSighting(polls, address);
    if last < 0 then start[address].hits
    else
      Max(polls[last].found[address].hits, 1)
      + if Alive(start, polls[..last], address, maxMisses)
        then HitsOfLifetime(start, polls[..last], address, maxMisses) else 0
  }

  lemma {:induction false} HitsAccumulate(start: Table, polls: seq<Poll>, address: string, maxMisses: nat)
    requires LastSighting(polls, address) >= 0 || address in start
    requires address in start ==> start[address].hits <= U64_MAX
    requires forall poll :: poll in polls && address in poll.found ==> poll.found[address].hits <= U64_MAX
    ensures EntryOf(start, polls, address, maxMisses).hits == Sat64(HitsOfLifetime(start, polls, address, maxMisses))
    decreases |polls|
  {
    var last := LastSighting(polls, address);
    if last >= 0 {
      assert polls[last] in polls;
      if Alive(start, polls[..last], address, maxMisses) {
        forall poll | poll in polls[..last] ensures poll in polls {}
        HitsAccumulate(start, polls[..last], address, maxMisses);
      }
    }
  }

  /** Bounds of a stay: when it was first seen, and the newest slot of it. */
  predicate Spans(start: Table, polls: seq<Poll>, address: string, maxMisses: nat, e: StatePool) {
    && (SinceStart(start, polls, address, maxMisses) ==>
          address in start && e.firstSeenUnix == start[address].firstSeenUnix
              && start[address].lastSeenSlot <= e.lastSeenSlot)
    && (forall i :: 0 <= i < |polls| && InLifetime(start, polls, address, maxMisses, i) ==>
          address in polls[i].found && polls[i].found[address].lastSeenSlot <= e.lastSeenSlot)
  }

  /** The bounds are taken on: by the stored entry, or by sightings of the stay. */
  predicate Attained(start: Table, polls: seq<Poll>, address: string, maxMisses: nat, e: StatePool) {
    && (SinceStart(start, polls, address, maxMisses)
        || exists i :: 0 <= i < |polls| && InLifetime(start, polls, address, maxMisses, i)
            && e.firstSeenUnix == polls[i].now
                       && forall j :: 0 <= j < i ==> !InLifetime(start, polls, address, maxMisses, j))
    && ((SinceStart(start, polls, address, maxMisses) && address in start
        && e.lastSeenSlot == start[address].lastSeenSlot)
        || exists i :: 0 <= i < |polls| && InLifetime(start, polls, address, maxMisses, i) && address in polls[i].found
                       && e.lastSeenSlot == polls[i].found[address].lastSeenSlot)
  }

  /**
    An entry was first seen at the start of the current stay, which may be that of the stored entry, and
    last seen at its last sighting; its slot is the newest of the stay.
   */
  lemma {:induction false} EntrySpansLifetime(start: Table, polls: seq<Poll>, address: string, maxMisses: nat)
    requires LastSighting(polls, address) >= 0 || address in start
    ensures var e, last := EntryOf(start, polls, address, maxMisses), LastSighting(polls, address);
            && e.lastSeenUnix == (if last >= 0 then polls[last].now else start[address].lastSeenUnix)
            && Spans(start, polls, address, maxMisses, e)
            && Attained(start, polls, address, maxMisses, e)
    decreases |polls|
  {
    var last := LastSighting(polls, address);
    if last >= 0 {
      var init := polls[..last];
      var e := EntryOf(start, polls, address, maxMisses);
      assert InLifetime(start, polls, address, maxMisses, last);
      if Alive(start, init, address, maxMisses) {
        EntrySpansLifetime(start, init, address, maxMisses);
        LifetimeGoesOn(start, polls, address, maxMisses);
      } else {
        assert forall j :: 0 <= j < last ==> !InLifetime(start, polls, address, maxMisses, j);
      }
    }
  }

  /** A sighting while still in the table prolongs the stay. */
  lemma LifetimeGoesOn(start: Table, polls: seq<Poll>, address: string, maxMisses: nat)
    requires var last := LastSighting(polls, address); last >= 0 && Alive(start, polls[..last], address, maxMisses)
    ensures var last := LastSighting(polls, address);
            && (SinceStart(start, polls, address, maxMisses) <==> SinceStart(start, polls[..last], address, maxMisses))
            && forall i :: 0 <= i < last ==>
                 && polls[..last][i] == polls[i]
                 && (InLifetime(start, polls, address, maxMisses, i)
                     <==> InLifetime(start, polls[..last], address, maxMisses, i))
  {}

  /** An entry describes its pool as its last sighting did. */
  lemma EntryDescribesLastSighting(start: Table, polls: seq<Poll>, address: string, maxMisses: nat)
    requires LastSighting(polls, address) >= 0
    ensures var e, found := EntryOf(start, polls, address, maxMisses),
        polls[LastSighting(polls, address)].found[address];
            e.venue == found.venue && e.tokenMint == found.tokenMint && e.quoteMint == found.quoteMint
  {}

  // ---------- the order of the list ----------

  /** Both texts have a character at `i`, all before it are equal, and `a` has the lower one at `i`. */
  ghost predicate LowerAt(a: string, b: string, i: nat) {
    i < |a| && i < |b| && a[..i] == b[..i] && a[i] < b[i]
  }

  lemma LowerAtTail(a: string, b: string, i: nat)
    requires a != "" && b != ""
    ensures LowerAt(a, b, i + 1) <==> a[0] == b[0] && LowerAt(a[1..], b[1..], i)
  {
    if i + 1 <= |a| && i + 1 <= |b| {
      assert a[..i + 1] == [a[0]] + a[1..][..i] && b[..i + 1] == [b[0]] + b[1..][..i];
    }
  }

  lemma LowerSomewhere(a: string, b: string)
    requires a != "" && b != ""
    ensures (exists i: nat :: LowerAt(a, b, i))
            <==> a[0] < b[0] || (a[0] == b[0] && exists i: nat :: LowerAt(a[1..], b[1..], i))
  {
    if a[0] < b[0] {
      assert LowerAt(a, b, 0);
    }
    if i: nat :| LowerAt(a[1..], b[1..], i) {
      LowerAtTail(a, b, i);
    }
    if i: nat :| LowerAt(a, b, i) && i > 0 {
      LowerAtTail(a, b, i - 1);
    }
  }

  /** Texts in lexicographic order: one begins the other, or the first difference decides. */
  lemma {:induction false} StringLeExactly(a: string, b: string)
    ensures StringLe(a, b) <==> a <= b || exists i: nat :: LowerAt(a, b, i)
  {
    if a != "" && b != "" {
      hide LowerAt;
      StringLeExactly(a[1..], b[1..]);
      PrefixByHead(a, b);
      LowerSomewhere(a, b);
    }
  }

  lemma PrefixByHead(a: string, b: string)
    requires a != "" && b != ""
    ensures a <= b <==> a[0] == b[0] && a[1..] <= b[1..]
  {
    assert a == [a[0]] + a[1..] && b == [b[0]] + b[1..];
  }

  /** A stored list goes by token, within a token by venue, and within a venue by address. */
  lemma ListGoesBy(pools: seq<StatePool>, table: Table, i: nat, j: nat)
    requires Lists(pools, table) && i < j < |pools|
    ensures var a, b := pools[i], pools[j];
            && StringLe(a.tokenMint, b.tokenMint)
            && (a.tokenMint == b.tokenMint ==> StringLe(a.venue, b.venue))
            && (a.tokenMint == b.tokenMint && a.venue == b.venue ==> StringLe(a.address, b.address))
            && a.address != b.address
  {
    assert PoolLe(pools[i], pools[j]);
    StringLeTotal(pools[i].tokenMint, pools[i].tokenMint);
    StringLeTotal(pools[i].venue, pools[i].venue);
  }
}
