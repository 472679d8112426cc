/** Plans cut into transactions, as lists of single additions, and resumed from the tables as they are. */
module LookupTableChunks {
  import opened LookupTablePlan

  const ALT_EXTEND_CHUNK_SIZE: nat := 20

  function Chunks(key: Pubkey, addresses: seq<Pubkey>): seq<Extension> {
    if addresses == [] then []
    else if |addresses| <= ALT_EXTEND_CHUNK_SIZE then [Extension(key, addresses)]
    else [Extension(key, addresses[..ALT_EXTEND_CHUNK_SIZE])] + Chunks(key, addresses[ALT_EXTEND_CHUNK_SIZE..])
  }

  function Chunked(plan: seq<Extension>): seq<Extension> {
    if plan == [] then [] else Chunks(plan[0].key, plan[0].addresses) + Chunked(plan[1..])
  }

  // ---------- a plan as a list of single additions ----------

  function Pairs(key: Pubkey, addresses: seq<Pubkey>): (r: seq<(Pubkey, Pubkey)>)
    ensures |r| == |addresses| && forall i :: 0 <= i < |r| ==> r[i] == (key, addresses[i])
  {
    seq(|addresses|, i requires 0 <= i < |addresses| => (key, addresses[i]))
  }

  /** Every address with its table, in the order in which they are added. */
  function Flat(plan: seq<Extension>): seq<(Pubkey, Pubkey)> {
    if plan == [] then [] else Pairs(plan[0].key, plan[0].addresses) + Flat(plan[1..])
  }

  function Pick(additions: seq<(Pubkey, Pubkey)>, key: Pubkey): seq<Pubkey> {
    if additions == [] then []
    else (if additions[0].0 == key then [additions[0].1] else []) + Pick(additions[1..], key)
  }

  lemma {:induction false} PickConcat(a: seq<(Pubkey, Pubkey)>, b: seq<(Pubkey, Pubkey)>, key: Pubkey)
    ensures Pick(a + b, key) == Pick(a, key) + Pick(b, key)
  {
    if a == [] {
      assert a + b == b;
    } else {
      assert (a + b)[1..] == a[1..] + b;
      PickConcat(a[1..], b, key);
    }
  }

  lemma {:induction false} PickPairs(key: Pubkey, addresses: seq<Pubkey>, other: Pubkey)
    ensures Pick(Pairs(key, addresses), other) == if other == key then addresses else []
  {
    if addresses != [] {
      assert Pairs(key, addresses)[1..] == Pairs(key, addresses[1..]);
      PickPairs(key, addresses[1..], other);
      assert addresses == [addresses[0]] + addresses[1..];
    }
  }

  /** What a plan appends to a table depends only on its single additions. */
  lemma {:induction false} AddressesByFlat(plan: seq<Extension>, key: Pubkey)
    ensures AddressesFor(plan, key) == Pick(Flat(plan), key)
  {
    if plan != [] {
      AddressesByFlat(plan[1..], key);
      PickPairs(plan[0].key, plan[0].addresses, key);
      PickConcat(Pairs(plan[0].key, plan[0].addresses), Flat(plan[1..]), key);
    }
  }

  lemma AppliedByFlat(a: seq<Extension>, b: seq<Extension>, tables: seq<Table>)
    requires Flat(a) == Flat(b)
    ensures Applied(a, tables) == Applied(b, tables)
  {
    forall i | 0 <= i < |tables| ensures AddressesFor(a, tables[i].key) == AddressesFor(b, tables[i].key) {
      AddressesByFlat(a, tables[i].key);
      AddressesByFlat(b, tables[i].key);
    }
  }

  lemma {:induction false} FlatConcat(a: seq<Extension>, b: seq<Extension>)
    ensures Flat(a + b) == Flat(a) + Flat(b)
  {
    hide Pairs;
    if a == [] {
      assert a + b == b;
    } else {
      assert (a + b)[1..] == a[1..] + b;
      FlatConcat(a[1..], b);
    }
  }

  lemma {:induction false} FlatLength(plan: seq<Extension>)
    ensures |Flat(plan)| == |Planned(plan)|
  {
    if plan != [] { FlatLength(plan[1..]); }
  }

  lemma FlatOne(e: Extension)
    ensures Flat([e]) == Pairs(e.key, e.addresses)
  {
    assert Flat([e][1..]) == [];
  }

  lemma {:induction false} FlatChunks(key: Pubkey, addresses: seq<Pubkey>)
    ensures Flat(Chunks(key, addresses)) == Pairs(key, addresses)
    ensures forall e :: e in Chunks(key, addresses) ==> 0 < |e.addresses| <= ALT_EXTEND_CHUNK_SIZE
    decreases |addresses|
  {
    hide Flat;
    if addresses == [] {
      assert Flat([]) == [] by { NothingFlat(); }
    } else if |addresses| <= ALT_EXTEND_CHUNK_SIZE {
      FlatOne(Extension(key, addresses));
    } else {
      var first, rest := addresses[..ALT_EXTEND_CHUNK_SIZE], addresses[ALT_EXTEND_CHUNK_SIZE..];
      FlatChunks(key, rest);
      FlatOne(Extension(key, first));
      FlatConcat([Extension(key, first)], Chunks(key, rest));
      assert Pairs(key, addresses) == Pairs(key, first) + Pairs(key, rest);
    }
  }

  lemma NothingFlat()
    ensures Flat([]) == []
  {}

  lemma {:induction false} FlatChunked(plan: seq<Extension>)
    ensures Flat(Chunked(plan)) == Flat(plan)
    ensures forall e :: e in Chunked(plan) ==> 0 < |e.addresses| <= ALT_EXTEND_CHUNK_SIZE
  {
    hide Chunks, Pairs;
    if plan != [] {
      FlatChunks(plan[0].key, plan[0].addresses);
      FlatConcat(Chunks(plan[0].key, plan[0].addresses), Chunked(plan[1..]));
      FlatChunked(plan[1..]);
    }
  }

  /** Sending a plan in chunks has the effect of the plan, in transactions of at most twenty addresses. */
  lemma ChunksHaveTheSameEffect(plan: seq<Extension>, tables: seq<Table>)
    ensures Applied(Chunked(plan), tables) == Applied(plan, tables)
    ensures forall e :: e in Chunked(plan) ==> 0 < |e.addresses| <= 20
  {
    hide Applied, Flat, Chunked;
    FlatChunked(plan);
    AppliedByFlat(Chunked(plan), plan, tables);
  }

  lemma {:induction false} ChunkedConcat(a: seq<Extension>, b: seq<Extension>)
    ensures Chunked(a + b) == Chunked(a) + Chunked(b)
  {
    hide Chunks;
    if a == [] {
      assert a + b == b;
    } else {
      assert (a + b)[1..] == a[1..] + b;
      ChunkedConcat(a[1..], b);
    }
  }

  // ---------- resuming from the tables as they are ----------

  /** Planning for fewer addresses plans the same additions, as far as they go. */
  lemma {:induction false} FlatPrefix(missing: seq<Pubkey>, tables: seq<Table>, s: nat)
    requires s <= |missing| && s <= |Flat(Filled(missing, tables))|
    ensures Flat(Filled(missing[..s], tables)) == Flat(Filled(missing, tables))[..s]
    decreases |tables|
  {
    hide Filled, Flat;
    if tables == [] {
      NoTables(missing);
      NoTables(missing[..s]);
      assert Flat([])[..s] == Flat([]) by { NothingFlat(); }
    } else {
      var n, part := Share(missing, tables[0]), missing[..s];
      FlatHead(missing, tables);
      FlatHead(part, tables);
      if s <= n {
        assert part[s..] == [];
        NothingMissing(tables[1..]);
        NothingFlat();
        assert part[..s] == part;
      } else {
        assert part[..n] == missing[..n] && part[n..] == missing[n..][..s - n];
        FlatPrefix(missing[n..], tables[1..], s - n);
      }
    }
  }

  lemma FlatHead(missing: seq<Pubkey>, tables: seq<Table>)
    requires tables != []
    ensures var n := Share(missing, tables[0]);
            Flat(Filled(missing, tables))
                == Pairs(tables[0].key, missing[..n]) + Flat(Filled(missing[n..], tables[1..]))
  {
    hide Filled;
    var n := Share(missing, tables[0]);
    var rest := Filled(missing[n..], tables[1..]);
    FilledHead(missing, tables);
    if n > 0 { assert ([Extension(tables[0].key, missing[..n])] + rest)[1..] == rest; }
    else { assert [] + rest == rest; }
  }

  /** Filling the tables with some addresses and then with more is filling them with all of them. */
  lemma {:induction false} FillInTwo(a: seq<Pubkey>, b: seq<Pubkey>, tables: seq<Table>)
    requires DistinctKeys(tables)
    requires LeftOver(a, tables) == []
    ensures var mid := Applied(Filled(a, tables), tables);
            && DistinctKeys(mid)
            && Applied(Filled(b, mid), mid) == Applied(Filled(a + b, tables), tables)
            && LeftOver(b, mid) == LeftOver(a + b, tables)
    decreases |tables|
  {
    hide Filled, Applied, LeftOver, AddressesFor;
    var mid := Applied(Filled(a, tables), tables);
    AppliedKeepsKeys(Filled(a, tables), tables);
    if tables == [] {
      NoTables(a);
      NoTables(b);
      assert a + b == b;
      NoTables(a + b);
      assert mid == [] && tables == mid;
    } else {
      var na, n := Share(a, tables[0]), Share(a + b, tables[0]);
      var head := Table(tables[0].key, tables[0].addresses + a[..na]);
      var rest := Applied(Filled(a[na..], tables[1..]), tables[1..]);
      AppliedHead(a, tables);
      FilledHead(a, tables);
      assert mid == [head] + rest && mid[0] == head && mid[1..] == rest;
      FillInTwo(a[na..], b, tables[1..]);
      var nb := Share(b, head);
      AppliedHead(b, mid);
      FilledHead(b, mid);
      AppliedHead(a + b, tables);
      FilledHead(a + b, tables);
      if na < |a| {
        assert nb == 0 && n == na && b[0..] == b;
        assert (a + b)[..n] == a[..na] && (a + b)[n..] == a[na..] + b;
        assert a[..na] + b[..0] == a[..na];
        assert head.addresses + b[..0] == head.addresses;
      } else {
        assert n == na + nb && a[na..] == [];
        assert (a + b)[..n] == a[..na] + b[..nb] && (a + b)[n..] == b[nb..];
        assert head.addresses + b[..nb] == tables[0].addresses + (a + b)[..n];
        assert rest == tables[1..] by { NothingMissing(tables[1..]); NothingApplied(tables[1..]); }
      }
    }
  }

  lemma NothingApplied(tables: seq<Table>)
    ensures Applied([], tables) == tables
  {
    forall i | 0 <= i < |tables| ensures Applied([], tables)[i] == tables[i] {
      assert tables[i].addresses + [] == tables[i].addresses;
    }
  }

  /** What has landed when sending stopped is what a plan for the first so many addresses adds. */
  lemma LandedIsAPlan(missing: seq<Pubkey>, tables: seq<Table>, k: nat)
    requires k <= |Chunked(Filled(missing, tables))|
    ensures var landed := Chunked(Filled(missing, tables))[..k];
            var s := |Flat(landed)|;
            && s <= |missing|
            && Applied(landed, tables) == Applied(Filled(missing[..s], tables), tables)
            && Planned(Filled(missing[..s], tables)) == missing[..s]
            && LeftOver(missing[..s], tables) == []
  {
    hide Filled, Chunked, Flat, Applied, LeftOver, Planned;
    var plan := Filled(missing, tables);
    var chunks := Chunked(plan);
    var landed := chunks[..k];
    assert chunks == landed + chunks[k..];
    FlatConcat(landed, chunks[k..]);
    FlatChunked(plan);
    FlatLength(plan);
    PlanPartitionsMissing(missing, tables);
    var s := |Flat(landed)|;
    FlatPrefix(missing, tables, s);
    assert Flat(plan)[..s] == Flat(landed);
    AppliedByFlat(landed, Filled(missing[..s], tables), tables);
    FlatLength(Filled(missing[..s], tables));
    PlanPartitionsMissing(missing[..s], tables);
    assert |LeftOver(missing[..s], tables)| == 0;
    assert Planned(Filled(missing[..s], tables)) + [] == Planned(Filled(missing[..s], tables));
  }

  /**
    Wherever sending stops, planning again from the tables as they then are ends in the tables that the
    whole plan would have given, with the same remainder.
   */
  lemma FreshPlanResumes(candidates: seq<Pubkey>, tables: seq<Table>, k: nat)
    requires DistinctKeys(tables)
    requires k <= |Chunked(Filled(Missing(candidates, Existing(tables)), tables))|
    ensures var missing := Missing(candidates, Existing(tables));
            var plan := Filled(missing, tables);
            var mid := Applied(Chunked(plan)[..k], tables);
            var still := Missing(candidates, Existing(mid));
            && Applied(Filled(still, mid), mid) == Applied(plan, tables)
            && LeftOver(still, mid) == LeftOver(missing, tables)
  {
    hide Existing, Missing, Filled, Chunked, Flat, Applied, LeftOver, Planned;
    var missing := Missing(candidates, Existing(tables));
    var landed := Chunked(Filled(missing, tables))[..k];
    LandedIsAPlan(missing, tables, k);
    var s := |Flat(landed)|;
    var done, rest := missing[..s], missing[s..];
    var mid := Applied(landed, tables);
    var gone := set x | x in done;
    assert missing == done + rest;
    forall x ensures x in Existing(mid) <==> x in Existing(tables) + gone {
      AppliedHoldsPlanned(done, tables, x);
    }
    assert Existing(mid) == Existing(tables) + gone;
    MissingAfterMore(candidates, Existing(tables), gone);
    WithoutConcat(done, rest, gone);
    WithoutAll(done, gone);
    DistinctParts(missing, done, rest);
    WithoutAll(rest, gone);
    assert Missing(candidates, Existing(mid)) == rest;
    FillInTwo(done, rest, tables);
  }

  /** A table's addresses go out in order, twenty in every chunk but the last. */
  lemma {:induction false} ChunksAreOfTwenty(key: Pubkey, addresses: seq<Pubkey>, i: nat)
    requires i < |Chunks(key, addresses)|
    ensures var chunk := Chunks(key, addresses)[i];
            && chunk.key == key
            && 20 * i < |addresses|
            && chunk.addresses == addresses[20 * i..if 20 * i + 20 <= |addresses| then 20 * i + 20 else |addresses|]
    ensures |Chunks(key, addresses)| == (|addresses| + 19) / 20
    decreases |addresses|
  {
    if |addresses| > ALT_EXTEND_CHUNK_SIZE {
      var rest := addresses[20..];
      if i > 0 { ChunksAreOfTwenty(key, rest, i - 1); } else { ChunksAreOfTwenty(key, rest, 0); }
    }
  }
}
