/** Planning which missing addresses go into which address lookup table, and applying the plan. */
module LookupTablePlan {
  type Pubkey = string

  const LOOKUP_TABLE_MAX_ADDRESSES: nat := 256

  datatype Table = Table(key: Pubkey, addresses: seq<Pubkey>)

  /** Addresses to append to the table with a key. */
  datatype Extension = Extension(key: Pubkey, addresses: seq<Pubkey>)

  function RemainingCapacity(table: Table): nat {
    if |table.addresses| <= LOOKUP_TABLE_MAX_ADDRESSES then LOOKUP_TABLE_MAX_ADDRESSES - |table.addresses| else 0
  }

  function Existing(tables: seq<Table>): set<Pubkey> {
    set i, j | 0 <= i < |tables| && 0 <= j < |tables[i].addresses| :: tables[i].addresses[j]
  }

  /** Candidates that are in no table, each once, in order of first appearance. */
  function Missing(candidates: seq<Pubkey>, existing: set<Pubkey>): (r: seq<Pubkey>)
    ensures forall x :: x in r <==> x in candidates && x !in existing
    ensures forall i, j :: 0 <= i < j < |r| ==> r[i] != r[j]
  {
    if candidates == [] then []
    else
      var init, last := candidates[..|candidates| - 1], candidates[|candidates| - 1];
      assert candidates == init + [last];
      var rest := Missing(init, existing);
      if last in existing || last in rest then rest else rest + [last]
  }

  /** Fills the tables in order with a list of addresses. */
  function Filled(missing: seq<Pubkey>, tables: seq<Table>): seq<Extension> {
    if tables == [] || missing == [] then []
    else if RemainingCapacity(tables[0]) == 0 then Filled(missing, tables[1..])
    else if RemainingCapacity(tables[0]) >= |missing| then [Extension(tables[0].key, missing)]
    else
      var n := RemainingCapacity(tables[0]);
      [Extension(tables[0].key, missing[..n])] + Filled(missing[n..], tables[1..])
  }

  function LeftOver(missing: seq<Pubkey>, tables: seq<Table>): seq<Pubkey> {
    if tables == [] || missing == [] then missing
    else if RemainingCapacity(tables[0]) >= |missing| then []
    else LeftOver(missing[RemainingCapacity(tables[0])..], tables[1..])
  }

  method PlanLookupTableExtensions(candidates: seq<Pubkey>, tables: seq<Table>)
    returns (plan: seq<Extension>, remainder: seq<Pubkey>)
    ensures plan == Filled(Missing(candidates, Existing(tables)), tables)
    ensures remainder == LeftOver(Missing(candidates, Existing(tables)), tables)
  {
    hide Existing, Missing;
    var existing := CollectExisting(tables);
    var missing := CollectMissing(candidates, existing);
    plan := [];
    var cursor := 0;
    assert missing[0..] == missing && tables[0..] == tables;
    for i := 0 to |tables|
      invariant cursor <= |missing|
      invariant plan + Filled(missing[cursor..], tables[i..]) == Filled(missing, tables)
      invariant LeftOver(missing[cursor..], tables[i..]) == LeftOver(missing, tables)
    {
      assert tables[i..][0] == tables[i] && tables[i..][1..] == tables[i + 1..];
      if cursor >= |missing| { break; }
      var capacity := RemainingCapacity(tables[i]);
      FilledStep(missing, cursor, tables[i..]);
      if capacity == 0 { continue; }
      var end := if cursor + capacity < |missing| then cursor + capacity else |missing|;
      plan := plan + [Extension(tables[i].key, missing[cursor..end])];
      cursor := end;
    }
    remainder := missing[cursor..];
  }

  method CollectExisting(tables: seq<Table>) returns (existing: set<Pubkey>)
    ensures existing == Existing(tables)
  {
    existing := {};
    for i := 0 to |tables|
      invariant existing == Existing(tables[..i])
    {
      existing := existing + set j | 0 <= j < |tables[i].addresses| :: tables[i].addresses[j];
      ExistingSnoc(tables[..i], tables[i]);
      assert tables[..i] + [tables[i]] == tables[..i + 1];
    }
    assert tables[..|tables|] == tables;
  }

  method CollectMissing(candidates: seq<Pubkey>, existing: set<Pubkey>) returns (missing: seq<Pubkey>)
    ensures missing == Missing(candidates, existing)
  {
    missing := [];
    var seen: set<Pubkey> := {};
    for i := 0 to |candidates|
      invariant missing == Missing(candidates[..i], existing)
      invariant forall x :: x in seen <==> x in missing
    {
      var address := candidates[i];
      assert candidates[..i + 1][..i] == candidates[..i];
      if address in existing { continue; }
      if address in seen { continue; }
      seen := seen + {address};
      missing := missing + [address];
    }
    assert candidates[..|candidates|] == candidates;
  }

  /** One table's turn, seen from a cursor into the missing addresses. */
  lemma FilledStep(missing: seq<Pubkey>, cursor: nat, tables: seq<Table>)
    requires cursor < |missing| && tables != []
    ensures var capacity := RemainingCapacity(tables[0]);
            var end := if cursor + capacity < |missing| then cursor + capacity else |missing|;
            && Filled(missing[cursor..], tables)
               == (if capacity == 0 then [] else [Extension(tables[0].key, missing[cursor..end])])
                   + Filled(missing[end..], tables[1..])
            && LeftOver(missing[cursor..], tables) == LeftOver(missing[end..], tables[1..])
  {
    var capacity := RemainingCapacity(tables[0]);
    var rest := missing[cursor..];
    if cursor + capacity < |missing| {
      assert rest[..capacity] == missing[cursor..cursor + capacity];
      assert rest[capacity..] == missing[cursor + capacity..];
    } else {
      assert missing[cursor..|missing|] == rest;
    }
  }

  lemma ExistingSnoc(tables: seq<Table>, t: Table)
    ensures Existing(tables + [t]) == Existing(tables) + set j | 0 <= j < |t.addresses| :: t.addresses[j]
  {
    var all := tables + [t];
    forall x | x in Existing(tables) ensures x in Existing(all) {
      var i, j :| 0 <= i < |tables| && 0 <= j < |tables[i].addresses| && tables[i].addresses[j] == x;
      assert all[i] == tables[i];
    }
    forall j | 0 <= j < |t.addresses| ensures t.addresses[j] in Existing(all) {
      assert all[|tables|] == t;
    }
  }

  /** How many of the missing addresses a table takes. */
  function Share(missing: seq<Pubkey>, table: Table): (n: nat)
    ensures n <= |missing|
  {
    if RemainingCapacity(table) < |missing| then RemainingCapacity(table) else |missing|
  }

  lemma FilledHead(missing: seq<Pubkey>, tables: seq<Table>)
    requires tables != []
    ensures var n := Share(missing, tables[0]);
            && Filled(missing, tables)
               == (if n == 0 then [] else [Extension(tables[0].key, missing[..n])]) + Filled(missing[n..], tables[1..])
            && LeftOver(missing, tables) == LeftOver(missing[n..], tables[1..])
  {
    if missing != [] {
      FilledStep(missing, 0, tables);
      assert missing[0..] == missing;
    }
  }

  // ---------- applying a plan ----------

  /** Everything a plan appends to the table with a key. */
  function AddressesFor(plan: seq<Extension>, key: Pubkey): seq<Pubkey> {
    if plan == [] then []
    else (if plan[0].key == key then plan[0].addresses else []) + AddressesFor(plan[1..], key)
  }

  function Applied(plan: seq<Extension>, tables: seq<Table>): seq<Table> {
    seq(|tables|, i requires 0 <= i < |tables| =>
      Table(tables[i].key, tables[i].addresses + AddressesFor(plan, tables[i].key)))
  }

  function Planned(plan: seq<Extension>): seq<Pubkey> {
    if plan == [] then [] else plan[0].addresses + Planned(plan[1..])
  }

  predicate DistinctKeys(tables: seq<Table>) {
    forall i, j :: 0 <= i < j < |tables| ==> tables[i].key != tables[j].key
  }

  predicate KeysAmong(plan: seq<Extension>, tables: seq<Table>) {
    forall e :: e in plan ==> exists t :: t in tables && t.key == e.key
  }

  lemma {:induction false} FilledKeysAmong(missing: seq<Pubkey>, tables: seq<Table>)
    ensures KeysAmong(Filled(missing, tables), tables)
  {
    hide Filled;
    if tables == [] {
      assert Filled(missing, []) == [] by { NoTables(missing); }
    } else {
      var n := Share(missing, tables[0]);
      assert tables == [tables[0]] + tables[1..];
      assert tables[0] in tables;
      FilledHead(missing, tables);
      FilledKeysAmong(missing[n..], tables[1..]);
    }
  }

  lemma NoTables(missing: seq<Pubkey>)
    ensures Filled(missing, []) == [] && LeftOver(missing, []) == missing
  {}

  lemma {:induction false} NothingFor(plan: seq<Extension>, key: Pubkey)
    requires forall e :: e in plan ==> e.key != key
    ensures AddressesFor(plan, key) == []
  {
    if plan != [] { NothingFor(plan[1..], key); }
  }

  /** The first table gets its share of the missing addresses, and the others share the rest. */
  lemma AppliedHead(missing: seq<Pubkey>, tables: seq<Table>)
    requires DistinctKeys(tables) && tables != []
    ensures var n := Share(missing, tables[0]);
            Applied(Filled(missing, tables), tables)
            == [Table(tables[0].key, tables[0].addresses + missing[..n])]
               + Applied(Filled(missing[n..], tables[1..]), tables[1..])
  {
    hide Filled, AddressesFor;
    var n := Share(missing, tables[0]);
    var rest := Filled(missing[n..], tables[1..]);
    FilledHead(missing, tables);
    forall i | 0 <= i < |tables|
      ensures AddressesFor(Filled(missing, tables), tables[i].key) == if i == 0 then missing[..n]
          else AddressesFor(rest, tables[i].key)
    {
      if n > 0 { HeadFor(Extension(tables[0].key, missing[..n]), rest, tables[i].key); }
      else { assert [] + rest == rest; }
      if i == 0 { NothingForFirst(missing[n..], tables); }
    }
  }

  lemma HeadFor(e: Extension, rest: seq<Extension>, key: Pubkey)
    ensures AddressesFor([e] + rest, key) == (if e.key == key then e.addresses else []) + AddressesFor(rest, key)
  {
    assert ([e] + rest)[1..] == rest;
  }

  lemma NothingForFirst(missing: seq<Pubkey>, tables: seq<Table>)
    requires DistinctKeys(tables) && tables != []
    ensures AddressesFor(Filled(missing, tables[1..]), tables[0].key) == []
  {
    hide Filled;
    var rest := Filled(missing, tables[1..]);
    FilledKeysAmong(missing, tables[1..]);
    forall e | e in rest ensures e.key != tables[0].key {
      var t :| t in tables[1..] && t.key == e.key;
      var i :| 0 <= i < |tables[1..]| && tables[1..][i] == t;
      assert tables[i + 1].key == e.key;
    }
    NothingFor(rest, tables[0].key);
  }

  // ---------- what a plan guarantees ----------

  /** The planned addresses in order, then the remainder, are exactly the missing addresses. */
  lemma {:induction false} PlanPartitionsMissing(missing: seq<Pubkey>, tables: seq<Table>)
    ensures Planned(Filled(missing, tables)) + LeftOver(missing, tables) == missing
  {
    hide Filled, LeftOver, Planned;
    if tables == [] {
      NoTables(missing);
      assert Planned([]) == [] by { NothingToPlan(); }
      assert [] + missing == missing;
    } else {
      var n := Share(missing, tables[0]);
      FilledHead(missing, tables);
      PlannedHead(missing, tables);
      PlanPartitionsMissing(missing[n..], tables[1..]);
      var planned, left := Planned(Filled(missing[n..], tables[1..])), LeftOver(missing[n..], tables[1..]);
      assert missing[..n] + planned + left == missing[..n] + (planned + left);
      assert missing == missing[..n] + missing[n..];
    }
  }

  lemma NothingToPlan()
    ensures Planned([]) == []
  {}

  lemma PlannedHead(missing: seq<Pubkey>, tables: seq<Table>)
    requires tables != []
    ensures var n := Share(missing, tables[0]);
            Planned(Filled(missing, tables)) == missing[..n] + Planned(Filled(missing[n..], tables[1..]))
  {
    hide Filled;
    var n := Share(missing, tables[0]);
    var rest := Filled(missing[n..], tables[1..]);
    FilledHead(missing, tables);
    if n > 0 { assert ([Extension(tables[0].key, missing[..n])] + rest)[1..] == rest; }
    else { assert [] + rest == rest; }
  }

  /** Applying a plan takes no table past its capacity, and a remainder means every table is full. */
  lemma {:induction false} PlanRespectsCapacity(missing: seq<Pubkey>, tables: seq<Table>, i: nat)
    requires DistinctKeys(tables) && i < |tables|
    ensures var before, after := |tables[i].addresses|, |Applied(Filled(missing, tables), tables)[i].addresses|;
            && after <= (if before <= 256 then 256 else before)
            && (LeftOver(missing, tables) != [] ==> after >= 256)
  {
    hide Filled, LeftOver;
    var n := Share(missing, tables[0]);
    AppliedHead(missing, tables);
    FilledHead(missing, tables);
    if i > 0 {
      PlanRespectsCapacity(missing[n..], tables[1..], i - 1);
    } else if n == |missing| {
      assert missing[n..] == [];
      NothingMissing(tables[1..]);
    }
  }

  lemma NothingMissing(tables: seq<Table>)
    ensures Filled([], tables) == [] && LeftOver([], tables) == []
  {}

  /** After applying a plan, the tables hold what they held and what was planned. */
  lemma {:induction false} AppliedHoldsPlanned(missing: seq<Pubkey>, tables: seq<Table>, x: Pubkey)
    requires DistinctKeys(tables)
    ensures x in Existing(Applied(Filled(missing, tables), tables))
        <==> x in Existing(tables) || x in Planned(Filled(missing, tables))
  {
    hide Existing, Filled;
    if tables == [] {
      NoTables(missing);
      assert Applied(Filled(missing, tables), tables) == tables;
    } else {
      var n := Share(missing, tables[0]);
      AppliedHead(missing, tables);
      AppliedHoldsPlanned(missing[n..], tables[1..], x);
      ExistingCons(tables[0], tables[1..], x);
      ExistingCons(Table(tables[0].key, tables[0].addresses + missing[..n]),
                   Applied(Filled(missing[n..], tables[1..]), tables[1..]), x);
      assert tables == [tables[0]] + tables[1..];
      PlannedHead(missing, tables);
    }
  }

  lemma ExistingCons(t: Table, tables: seq<Table>, x: Pubkey)
    ensures x in Existing([t] + tables) <==> x in t.addresses || x in Existing(tables)
  {
    var all := [t] + tables;
    if x in Existing(all) {
      var i, j :| 0 <= i < |all| && 0 <= j < |all[i].addresses| && all[i].addresses[j] == x;
      if i > 0 { assert tables[i - 1].addresses[j] == x; }
    }
    if x in t.addresses {
      var j :| 0 <= j < |t.addresses| && t.addresses[j] == x;
      assert all[0].addresses[j] == x;
    }
    if x in Existing(tables) {
      var i, j :| 0 <= i < |tables| && 0 <= j < |tables[i].addresses| && tables[i].addresses[j] == x;
      assert all[i + 1].addresses[j] == x;
    }
  }

  /** Candidates still missing once more addresses exist. */
  lemma {:induction false} MissingAfterMore(candidates: seq<Pubkey>, existing: set<Pubkey>, more: set<Pubkey>)
    ensures Missing(candidates, existing + more) == Without(Missing(candidates, existing), more)
  {
    if candidates != [] {
      MissingAfterMore(candidates[..|candidates| - 1], existing, more);
      var rest, last := Missing(candidates[..|candidates| - 1], existing), candidates[|candidates| - 1];
      WithoutMembers(rest, more);
      if last !in existing && last !in rest { WithoutConcat(rest, [last], more); }
    }
  }

  function Without(s: seq<Pubkey>, gone: set<Pubkey>): seq<Pubkey> {
    if s == [] then [] else (if s[0] in gone then [] else [s[0]]) + Without(s[1..], gone)
  }

  lemma {:induction false} WithoutMembers(s: seq<Pubkey>, gone: set<Pubkey>)
    ensures forall x :: x in Without(s, gone) <==> x in s && x !in gone
  {
    if s != [] {
      assert s == [s[0]] + s[1..];
      WithoutMembers(s[1..], gone);
    }
  }

  lemma {:induction false} WithoutConcat(a: seq<Pubkey>, b: seq<Pubkey>, gone: set<Pubkey>)
    ensures Without(a + b, gone) == Without(a, gone) + Without(b, gone)
  {
    if a == [] {
      assert a + b == b;
    } else {
      assert (a + b)[1..] == a[1..] + b;
      WithoutConcat(a[1..], b, gone);
    }
  }

  lemma {:induction false} WithoutAll(s: seq<Pubkey>, gone: set<Pubkey>)
    ensures (forall x :: x in s ==> x in gone) ==> Without(s, gone) == []
    ensures (forall x :: x in s ==> x !in gone) ==> Without(s, gone) == s
  {
    if s != [] {
      assert s == [s[0]] + s[1..];
      WithoutAll(s[1..], gone);
    }
  }

  lemma {:induction false} FullTablesTakeNothing(missing: seq<Pubkey>, tables: seq<Table>)
    requires forall i :: 0 <= i < |tables| ==> |tables[i].addresses| >= LOOKUP_TABLE_MAX_ADDRESSES
    ensures Filled(missing, tables) == [] && LeftOver(missing, tables) == missing
  {
    if tables != [] && missing != [] {
      assert missing[0..] == missing;
      FullTablesTakeNothing(missing, tables[1..]);
    }
  }

  lemma AppliedKeepsKeys(plan: seq<Extension>, tables: seq<Table>)
    ensures |Applied(plan, tables)| == |tables|
    ensures forall i :: 0 <= i < |tables| ==> Applied(plan, tables)[i].key == tables[i].key
    ensures DistinctKeys(tables) ==> DistinctKeys(Applied(plan, tables))
  {}

  /** Once a plan has been applied, planning again adds nothing and leaves the same remainder. */
  lemma ReplanningAddsNothing(candidates: seq<Pubkey>, tables: seq<Table>)
    requires DistinctKeys(tables)
    ensures var missing := Missing(candidates, Existing(tables));
            var remainder := LeftOver(missing, tables);
            var after := Applied(Filled(missing, tables), tables);
            && Missing(candidates, Existing(after)) == remainder
            && Filled(Missing(candidates, Existing(after)), after) == []
            && LeftOver(Missing(candidates, Existing(after)), after) == remainder
  {
    hide Existing, Missing, Filled, LeftOver, Applied, Planned, Without, DistinctKeys;
    var missing := Missing(candidates, Existing(tables));
    var planned := Planned(Filled(missing, tables));
    var remainder := LeftOver(missing, tables);
    var after := Applied(Filled(missing, tables), tables);
    var gone := set x | x in planned;
    AppliedKeepsKeys(Filled(missing, tables), tables);
    forall x ensures x in Existing(after) <==> x in Existing(tables) + gone {
      AppliedHoldsPlanned(missing, tables, x);
    }
    assert Existing(after) == Existing(tables) + gone;
    MissingAfterMore(candidates, Existing(tables), gone);
    PlanPartitionsMissing(missing, tables);
    WithoutConcat(planned, remainder, gone);
    WithoutAll(planned, gone);
    DistinctParts(missing, planned, remainder);
    WithoutAll(remainder, gone);
    if remainder == [] {
      NothingMissing(after);
    } else {
      forall i | 0 <= i < |after| ensures |after[i].addresses| >= LOOKUP_TABLE_MAX_ADDRESSES {
        PlanRespectsCapacity(missing, tables, i);
      }
      FullTablesTakeNothing(remainder, after);
    }
  }

  lemma DistinctParts(whole: seq<Pubkey>, a: seq<Pubkey>, b: seq<Pubkey>)
    requires whole == a + b && forall i, j :: 0 <= i < j < |whole| ==> whole[i] != whole[j]
    ensures forall x :: x in b ==> x !in a
  {
    forall i, j | 0 <= i < |a| && 0 <= j < |b| ensures a[i] != b[j] {
      assert whole[i] == a[i] && whole[|a| + j] == b[j];
    }
  }

  // ---------- exactly when a table is overfilled ----------

  /** Entries with one key stand for one table. */
  predicate OneTablePerKey(tables: seq<Table>) {
    forall s, t :: s in tables && t in tables && s.key == t.key ==> s.addresses == t.addresses
  }

  /** Room in all the listed entries together. */
  function Caps(tables: seq<Table>): nat {
    if tables == [] then 0 else RemainingCapacity(tables[0]) + Caps(tables[1..])
  }

  /** Entry `j` has the key, and the entries before it cannot take all the addresses. */
  predicate ReachedAt(count: nat, tables: seq<Table>, key: Pubkey, j: int) {
    0 <= j < |tables| && tables[j].key == key && count > Caps(tables[..j])
  }

  /** An entry with the key is reached that is not the first with it. */
  predicate ReachedTwice(count: nat, tables: seq<Table>, key: Pubkey) {
    exists i, j :: 0 <= i < j < |tables| && tables[i].key == key && ReachedAt(count, tables, key, j)
  }

  predicate ReachedOnce(count: nat, tables: seq<Table>, key: Pubkey) {
    exists j :: 0 <= j < |tables| && ReachedAt(count, tables, key, j)
  }

  predicate EqualCapacity(tables: seq<Table>, key: Pubkey, c: nat) {
    forall t :: t in tables && t.key == key ==> RemainingCapacity(t) == c
  }

  lemma ReachedTail(count: nat, tables: seq<Table>, key: Pubkey, j: int)
    requires tables != [] && j > 0
    ensures var c := RemainingCapacity(tables[0]);
            ReachedAt(count, tables, key, j) <==>
              ReachedAt(if c < count then count - c else 0, tables[1..], key, j - 1)
  {
    if j < |tables| {
      assert tables[..j][0] == tables[0] && tables[..j][1..] == tables[1..][..j - 1];
    }
  }

  lemma {:induction false} SomethingFor(missing: seq<Pubkey>, tables: seq<Table>, key: Pubkey, c: nat)
    requires EqualCapacity(tables, key, c)
    ensures |AddressesFor(Filled(missing, tables), key)| > 0 <==> c > 0 && ReachedOnce(|missing|, tables, key)
  {
    hide Filled, AddressesFor, Caps;
    if tables == [] {
      NothingPlanned(missing, key);
    } else {
      var n := Share(missing, tables[0]);
      TailKeepsCapacity(tables, key, c);
      AddedByHead(missing, tables, key);
      SomethingFor(missing[n..], tables[1..], key, c);
      if tables[0].key == key {
        assert ReachedAt(|missing|, tables, key, 0) <==> |missing| > 0
          by { assert Caps(tables[..0]) == 0 by { NoCaps(); } }
      }
      ReachedOnceTail(|missing|, tables, key);
    }
  }

  lemma ReachedOnceTail(count: nat, tables: seq<Table>, key: Pubkey)
    requires tables != []
    ensures var c := RemainingCapacity(tables[0]);
            ReachedOnce(count, tables, key) <==>
              ReachedAt(count, tables, key, 0) || ReachedOnce(if c < count then count - c else 0, tables[1..], key)
  {
    hide ReachedAt;
    var c := RemainingCapacity(tables[0]);
    var left := if c < count then count - c else 0;
    if j :| 0 <= j < |tables| && ReachedAt(count, tables, key, j) && j != 0 {
      assert j > 0 by { AtAnEntry(count, tables, key, j); }
      ReachedTail(count, tables, key, j);
    }
    if j :| 0 <= j < |tables[1..]| && ReachedAt(left, tables[1..], key, j) {
      AtAnEntry(left, tables[1..], key, j);
      ReachedTail(count, tables, key, j + 1);
      assert ReachedAt(count, tables, key, j + 1);
    }
  }

  lemma AtAnEntry(count: nat, tables: seq<Table>, key: Pubkey, j: int)
    requires ReachedAt(count, tables, key, j)
    ensures 0 <= j < |tables| && tables[j].key == key
  {}

  lemma NoCaps()
    ensures Caps([]) == 0
  {}

  lemma NothingPlanned(missing: seq<Pubkey>, key: Pubkey)
    ensures AddressesFor(Filled(missing, []), key) == []
  {}

  lemma TailKeepsCapacity(tables: seq<Table>, key: Pubkey, c: nat)
    requires tables != [] && EqualCapacity(tables, key, c)
    ensures EqualCapacity(tables[1..], key, c)
    ensures tables[0].key == key ==> RemainingCapacity(tables[0]) == c
  {
    assert tables == [tables[0]] + tables[1..];
  }

  lemma AddedByHead(missing: seq<Pubkey>, tables: seq<Table>, key: Pubkey)
    requires tables != []
    ensures var n := Share(missing, tables[0]);
            |AddressesFor(Filled(missing, tables), key)|
            == (if tables[0].key == key then n else 0) + |AddressesFor(Filled(missing[n..], tables[1..]), key)|
  {
    hide Filled, AddressesFor;
    var n := Share(missing, tables[0]);
    var rest := Filled(missing[n..], tables[1..]);
    FilledHead(missing, tables);
    if n > 0 { HeadFor(Extension(tables[0].key, missing[..n]), rest, key); }
    else { assert [] + rest == rest; }
  }

  /** A key is given more than one table's room exactly when a later entry with it is reached too. */
  lemma {:induction false} MoreThanRoomExactly(missing: seq<Pubkey>, tables: seq<Table>, key: Pubkey, c: nat)
    requires EqualCapacity(tables, key, c)
    ensures |AddressesFor(Filled(missing, tables), key)| > c <==> c > 0 && ReachedTwice(|missing|, tables, key)
  {
    hide Filled, AddressesFor, Caps, ReachedAt;
    if tables == [] {
      NothingPlanned(missing, key);
    } else {
      var n := Share(missing, tables[0]);
      TailKeepsCapacity(tables, key, c);
      AddedByHead(missing, tables, key);
      ReachedTwiceTail(|missing|, tables, key);
      MoreThanRoomExactly(missing[n..], tables[1..], key, c);
      SomethingFor(missing[n..], tables[1..], key, c);
      if tables[0].key == key && |missing| <= c { NothingReached(tables[1..], key); }
    }
  }

  lemma ReachedTwiceTail(count: nat, tables: seq<Table>, key: Pubkey)
    requires tables != []
    ensures var c := RemainingCapacity(tables[0]);
            var left := if c < count then count - c else 0;
            && (ReachedTwice(left, tables[1..], key) ==> ReachedOnce(left, tables[1..], key))
            && (ReachedTwice(count, tables, key) <==>
                  || (tables[0].key == key && ReachedOnce(left, tables[1..], key))
                  || ReachedTwice(left, tables[1..], key))
  {
    hide ReachedAt;
    var c := RemainingCapacity(tables[0]);
    var left := if c < count then count - c else 0;
    if i, j :| 0 <= i < j < |tables| && tables[i].key == key && ReachedAt(count, tables, key, j) {
      AtAnEntry(count, tables, key, j);
      ReachedTail(count, tables, key, j);
      if i > 0 { assert tables[1..][i - 1].key == key && 0 <= i - 1 < j - 1; }
    }
    if j :| 0 <= j < |tables[1..]| && ReachedAt(left, tables[1..], key, j) && tables[0].key == key {
      AtAnEntry(left, tables[1..], key, j);
      ReachedTail(count, tables, key, j + 1);
      assert 0 <= 0 < j + 1 && ReachedAt(count, tables, key, j + 1);
    }
    if i, j :| 0 <= i < j < |tables[1..]| && tables[1..][i].key == key && ReachedAt(left, tables[1..], key, j) {
      AtAnEntry(left, tables[1..], key, j);
      ReachedTail(count, tables, key, j + 1);
      assert tables[i + 1].key == key && 0 <= i + 1 < j + 1 && ReachedAt(count, tables, key, j + 1);
    }
  }

  lemma NothingReached(tables: seq<Table>, key: Pubkey)
    ensures !ReachedOnce(0, tables, key)
  {}

  /** Most addresses a table may hold: what fits, or what it holds already. */
  function Limit(table: Table): nat {
    if |table.addresses| <= LOOKUP_TABLE_MAX_ADDRESSES then LOOKUP_TABLE_MAX_ADDRESSES else |table.addresses|
  }

  /**
    Applying a plan takes a table past its limit exactly when the table has room, is listed more than
    once, and so many addresses are missing that they reach a later entry of it.
   */
  lemma OverfilledExactly(candidates: seq<Pubkey>, tables: seq<Table>, m: nat)
    requires OneTablePerKey(tables) && m < |tables|
    ensures var missing := Missing(candidates, Existing(tables));
            |Applied(Filled(missing, tables), tables)[m].addresses| > Limit(tables[m]) <==>
              RemainingCapacity(tables[m]) > 0 && ReachedTwice(|missing|, tables, tables[m].key)
  {
    hide Missing, Existing, Filled, AddressesFor, ReachedTwice;
    var missing := Missing(candidates, Existing(tables));
    assert tables[m] in tables;
    MoreThanRoomExactly(missing, tables, tables[m].key, RemainingCapacity(tables[m]));
  }

  /** No table is overfilled exactly when no table with room has a later entry that is reached. */
  lemma CapacityRespectedExactly(candidates: seq<Pubkey>, tables: seq<Table>)
    requires OneTablePerKey(tables)
    ensures var missing := Missing(candidates, Existing(tables));
            (forall t :: t in Applied(Filled(missing, tables), tables) ==> |t.addresses| <= 256)
            <==>
            (forall t :: t in tables ==>
              && |t.addresses| <= 256
              && (RemainingCapacity(t) > 0 ==> !ReachedTwice(|missing|, tables, t.key)))
  {
    hide Missing, Existing, Filled, AddressesFor, ReachedTwice;
    var missing := Missing(candidates, Existing(tables));
    var after := Applied(Filled(missing, tables), tables);
    forall m | 0 <= m < |tables|
      ensures |after[m].addresses| <= LOOKUP_TABLE_MAX_ADDRESSES <==>
                && |tables[m].addresses| <= LOOKUP_TABLE_MAX_ADDRESSES
                && (RemainingCapacity(tables[m]) > 0 ==> !ReachedTwice(|missing|, tables, tables[m].key))
    {
      OverfilledExactly(candidates, tables, m);
    }
    assert forall m :: 0 <= m < |tables| ==> tables[m] in tables && after[m] in after;
  }

  /** Two missing addresses and a table listed twice that has room for one of them. */
  lemma SharedKeyOverflows(t: Table, x: Pubkey, y: Pubkey)
    requires |t.addresses| == 256 - 1
    requires x != y && x !in t.addresses && y !in t.addresses
    ensures var tables := [t, t];
            var missing := Missing([x, y], Existing(tables));
            && missing == [x, y]
            && |Applied(Filled(missing, tables), tables)[0].addresses| > 256
  {
    hide Existing, Filled, Applied, Caps;
    var tables := [t, t];
    assert x !in Existing(tables) && y !in Existing(tables) by { InNoTable(t, x); InNoTable(t, y); }
    assert [x, y][..1] == [x] && [x][..0] == [];
    assert Missing([x], Existing(tables)) == [x];
    assert tables[..1] == [t] && Caps([t]) == 1 by { RoomInOne(t); }
    assert ReachedAt(2, tables, t.key, 1);
    assert ReachedTwice(2, tables, t.key) by { assert 0 <= 0 < 1 < |tables| && tables[0].key == t.key; }
    OverfilledExactly([x, y], tables, 0);
  }

  lemma InNoTable(t: Table, x: Pubkey)
    requires x !in t.addresses
    ensures x !in Existing([t, t])
  {}

  lemma RoomInOne(t: Table)
    ensures Caps([t]) == RemainingCapacity(t)
  {
    NoCaps();
    assert [t][1..] == [];
  }
}
