/**
  The history of one account stream as values: which arrivals were sent into the channel, which are
  held back in the overflow map, and what that says about the order each account is seen in.
 */
module OverflowHistory {

  datatype AccountKind =
    | Pump
    | PumpSwapPool
    | PumpSwapVault
    | Raydium
    | RaydiumVault
    | RaydiumClmmTickArray
    | Meteora
    | MeteoraVault
    | MeteoraBinArray
    | Whirlpool
    | WhirlpoolTickArray

  datatype AccountUpdate = AccountUpdate(pubkey: string, kind: AccountKind, slot: nat, data: seq<bv8>, isStartup: bool)

  /**
    Arrivals of subscribed accounts, the updates sent into the channel and those held back, each
    with the arrival it came from, and the number of held updates that were replaced.
   */
  datatype History = History(
    arrivals: seq<AccountUpdate>,
    sent: seq<AccountUpdate>,
    sentAt: seq<nat>,
    held: map<string, AccountUpdate>,
    heldAt: map<string, nat>,
    overwritten: nat)

  const NO_HISTORY := History([], [], [], map[], map[], 0)

  ghost predicate Newest(arrivals: seq<AccountUpdate>, j: nat)
    requires j < |arrivals|
  {
    forall l :: j < l < |arrivals| ==> arrivals[l].pubkey != arrivals[j].pubkey
  }

  /** Everything sent came from an arrival, and per account in arrival order. */
  ghost predicate InOrder(h: History) {
    && |h.sentAt| == |h.sent|
    && (forall i :: 0 <= i < |h.sent| ==> h.sentAt[i] < |h.arrivals| && h.arrivals[h.sentAt[i]] == h.sent[i])
    && (forall i, j :: 0 <= i < j < |h.sent| && h.sent[i].pubkey == h.sent[j].pubkey ==> h.sentAt[i] < h.sentAt[j])
  }

  /** Held updates are the newest of their accounts and newer than anything sent for them. */
  ghost predicate HoldsNewest(h: History) {
    && |h.sentAt| == |h.sent|
    && h.heldAt.Keys == h.held.Keys
    && (forall k :: k in h.held ==>
          && h.held[k].pubkey == k
          && h.heldAt[k] < |h.arrivals|
          && h.arrivals[h.heldAt[k]] == h.held[k]
          && Newest(h.arrivals, h.heldAt[k]))
    && (forall i :: 0 <= i < |h.sent| && h.sent[i].pubkey in h.held ==> h.sentAt[i] < h.heldAt[h.sent[i].pubkey])
  }

  /** The newest arrival of every account that is not held back has been sent. */
  ghost predicate NewestSent(h: History) {
    forall j :: 0 <= j < |h.arrivals| && Newest(h.arrivals, j) && h.arrivals[j].pubkey !in h.held ==> j in h.sentAt
  }

  ghost predicate Faithful(h: History) {
    && InOrder(h)
    && HoldsNewest(h)
    && NewestSent(h)
    && |h.sent| + |h.held| + h.overwritten == |h.arrivals|
  }

  // ---------- the three ways a history grows ----------

  /** An arrival sent at once, which happens only while nothing is held. */
  function SentAtOnce(h: History, u: AccountUpdate): History {
    h.(arrivals := h.arrivals + [u], sent := h.sent + [u], sentAt := h.sentAt + [|h.arrivals|])
  }

  /** An arrival held back, replacing an older held update of its account. */
  function HeldBack(h: History, u: AccountUpdate): History {
    h.(arrivals := h.arrivals + [u],
       held := h.held[u.pubkey := u],
       heldAt := h.heldAt[u.pubkey := |h.arrivals|],
       overwritten := h.overwritten + if u.pubkey in h.held then 1 else 0)
  }

  /** A held update sent later. */
  function Released(h: History, key: string): History
    requires key in h.held && key in h.heldAt
  {
    h.(sent := h.sent + [h.held[key]],
       sentAt := h.sentAt + [h.heldAt[key]],
       held := h.held - {key},
       heldAt := h.heldAt - {key})
  }

  lemma NewestAfterArrival(arrivals: seq<AccountUpdate>, u: AccountUpdate, j: nat)
    requires j <= |arrivals|
    ensures Newest(arrivals + [u], j) <==>
            j == |arrivals| || (Newest(arrivals, j) && arrivals[j].pubkey != u.pubkey)
  {
    var later := arrivals + [u];
    if j < |arrivals| {
      assert later[j] == arrivals[j];
      if Newest(later, j) {
        forall l | j < l < |arrivals| ensures arrivals[l].pubkey != arrivals[j].pubkey {
          assert later[l] == arrivals[l];
        }
        assert later[|arrivals|] == u;
      }
    }
  }

  lemma SentAtOnceFaithful(h: History, u: AccountUpdate)
    requires Faithful(h) && h.held == map[]
    ensures Faithful(SentAtOnce(h, u))
  {
    var g := SentAtOnce(h, u);
    forall j | 0 <= j < |g.arrivals| && Newest(g.arrivals, j) ensures j in g.sentAt {
      NewestAfterArrival(h.arrivals, u, j);
      if j == |h.arrivals| { assert g.sentAt[|h.sent|] == j; }
    }
  }

  lemma HeldBackFaithful(h: History, u: AccountUpdate)
    requires Faithful(h)
    ensures Faithful(HeldBack(h, u))
  {
    assert InOrder(HeldBack(h, u));
    HeldBackHoldsNewest(h, u);
    HeldBackNewestSent(h, u);
    hide HoldsNewest, NewestSent, InOrder;
    Inserted(h.held, u.pubkey, u);
  }

  lemma Inserted(m: map<string, AccountUpdate>, k: string, u: AccountUpdate)
    ensures |m[k := u]| == |m| + if k in m then 0 else 1
  {
    assert m[k := u].Keys == m.Keys + {k};
    assert |m[k := u]| == |m[k := u].Keys| && |m| == |m.Keys|;
  }

  lemma Removed(m: map<string, AccountUpdate>, k: string)
    requires k in m
    ensures |m - {k}| == |m| - 1
  {
    assert (m - {k}).Keys == m.Keys - {k};
    assert |m - {k}| == |(m - {k}).Keys| && |m| == |m.Keys|;
  }

  lemma HeldBackNewestSent(h: History, u: AccountUpdate)
    requires NewestSent(h)
    ensures NewestSent(HeldBack(h, u))
  {
    var g := HeldBack(h, u);
    forall j | 0 <= j < |g.arrivals| && Newest(g.arrivals, j) && g.arrivals[j].pubkey !in g.held
      ensures j in g.sentAt
    {
      NewestAfterArrival(h.arrivals, u, j);
    }
  }

  lemma HeldBackHoldsNewest(h: History, u: AccountUpdate)
    requires InOrder(h) && HoldsNewest(h)
    ensures HoldsNewest(HeldBack(h, u))
  {
    var g := HeldBack(h, u);
    forall k | k in g.held
      ensures g.held[k].pubkey == k && g.heldAt[k] < |g.arrivals| && g.arrivals[g.heldAt[k]] == g.held[k]
      ensures Newest(g.arrivals, g.heldAt[k])
    {
      NewestAfterArrival(h.arrivals, u, g.heldAt[k]);
      if k != u.pubkey { assert g.held[k] == h.held[k] && g.heldAt[k] == h.heldAt[k]; }
    }
  }

  lemma ReleasedFaithful(h: History, key: string)
    requires Faithful(h) && key in h.held
    ensures key in h.heldAt && Faithful(Released(h, key)) && InOrder(Released(h, key))
  {
    ReleasedInOrder(h, key);
    ReleasedHoldsNewest(h, key);
    ReleasedNewestSent(h, key);
    hide InOrder, HoldsNewest, NewestSent;
    Removed(h.held, key);
  }

  lemma ReleasedInOrder(h: History, key: string)
    requires InOrder(h) && HoldsNewest(h) && key in h.held
    ensures InOrder(Released(h, key))
  {
    var g := Released(h, key);
    forall i, j | 0 <= i < j < |g.sent| && g.sent[i].pubkey == g.sent[j].pubkey ensures g.sentAt[i] < g.sentAt[j] {
      assert g.sent[i] == h.sent[i] && g.sentAt[i] == h.sentAt[i];
    }
  }

  lemma ReleasedHoldsNewest(h: History, key: string)
    requires HoldsNewest(h) && key in h.held
    ensures HoldsNewest(Released(h, key))
  {
    var g := Released(h, key);
    forall k | k in g.held ensures g.held[k] == h.held[k] && g.heldAt[k] == h.heldAt[k] {}
    forall i | 0 <= i < |g.sent| && g.sent[i].pubkey in g.held ensures g.sentAt[i] < g.heldAt[g.sent[i].pubkey] {
      if i < |h.sent| { assert g.sent[i] == h.sent[i] && g.sentAt[i] == h.sentAt[i]; }
    }
  }

  lemma ReleasedNewestSent(h: History, key: string)
    requires HoldsNewest(h) && NewestSent(h) && key in h.held
    ensures NewestSent(Released(h, key))
  {
    var g := Released(h, key);
    var at := h.heldAt[key];
    forall j | 0 <= j < |g.arrivals| && Newest(g.arrivals, j) && g.arrivals[j].pubkey !in g.held
      ensures j in g.sentAt
    {
      if h.arrivals[j].pubkey == key {
        OneNewest(h.arrivals, at, j);
        assert g.sentAt[|h.sentAt|] == j;
      } else {
        assert j in h.sentAt;
      }
    }
  }

  lemma OneNewest(arrivals: seq<AccountUpdate>, i: nat, j: nat)
    requires i < |arrivals| && j < |arrivals| && arrivals[i].pubkey == arrivals[j].pubkey
    requires Newest(arrivals, i) && Newest(arrivals, j)
    ensures i == j
  {}

  // ---------- what a faithful history means for one account ----------

  function For(updates: seq<AccountUpdate>, key: string): seq<AccountUpdate> {
    if updates == [] then []
    else
      var u := updates[|updates| - 1];
      For(updates[..|updates| - 1], key) + if u.pubkey == key then [u] else []
  }

  /** Where the updates of an account are. */
  function IndexesFor(updates: seq<AccountUpdate>, key: string): (r: seq<nat>)
    ensures forall i :: 0 <= i < |r| ==> r[i] < |updates| && updates[r[i]].pubkey == key
    ensures forall i, j :: 0 <= i < j < |r| ==> r[i] < r[j]
    ensures forall j :: 0 <= j < |updates| && updates[j].pubkey == key ==> j in r
  {
    if updates == [] then []
    else
      var n := |updates| - 1;
      var rest := IndexesFor(updates[..n], key);
      assert forall j :: 0 <= j < n && updates[j].pubkey == key ==> updates[..n][j].pubkey == key && j in rest;
      rest + if updates[n].pubkey == key then [n] else []
  }

  predicate Subsequence(xs: seq<AccountUpdate>, ys: seq<AccountUpdate>) {
    if xs == [] then true
    else if ys == [] then false
    else
      var m, n := |xs| - 1, |ys| - 1;
      (xs[m] == ys[n] && Subsequence(xs[..m], ys[..n])) || Subsequence(xs, ys[..n])
  }

  /** What has been sent for an account, followed by what is held for it. */
  function Outgoing(h: History, key: string): seq<AccountUpdate> {
    For(h.sent, key) + if key in h.held then [h.held[key]] else []
  }

  lemma {:induction false} ForByIndex(updates: seq<AccountUpdate>, key: string)
    ensures |For(updates, key)| == |IndexesFor(updates, key)|
    ensures forall i :: 0 <= i < |For(updates, key)| ==> For(updates, key)[i] == updates[IndexesFor(updates, key)[i]]
  {
    if updates != [] { ForByIndex(updates[..|updates| - 1], key); }
  }

  lemma {:induction false} Embedded(xs: seq<AccountUpdate>, at: seq<nat>, arrivals: seq<AccountUpdate>, key: string)
    requires |at| == |xs|
    requires forall i :: 0 <= i < |xs| ==> at[i] < |arrivals| && arrivals[at[i]] == xs[i] && xs[i].pubkey == key
    requires forall i, j :: 0 <= i < j < |at| ==> at[i] < at[j]
    ensures Subsequence(xs, For(arrivals, key))
    decreases |arrivals|
  {
    if xs != [] {
      var m, n := |xs| - 1, |arrivals| - 1;
      var ys := For(arrivals, key);
      if at[m] == n {
        Embedded(xs[..m], at[..m], arrivals[..n], key);
        assert ys[..|ys| - 1] == For(arrivals[..n], key);
      } else {
        forall i | 0 <= i < |xs| ensures at[i] < n {}
        Embedded(xs, at, arrivals[..n], key);
        if arrivals[n].pubkey == key { assert ys[..|ys| - 1] == For(arrivals[..n], key); }
        else { assert ys == For(arrivals[..n], key); }
      }
    }
  }

  lemma {:induction false} LastArrival(arrivals: seq<AccountUpdate>, key: string) returns (j: nat)
    requires For(arrivals, key) != []
    ensures j < |arrivals| && arrivals[j].pubkey == key && Newest(arrivals, j)
    ensures arrivals[j] == For(arrivals, key)[|For(arrivals, key)| - 1]
  {
    var n := |arrivals| - 1;
    if arrivals[n].pubkey == key {
      j := n;
    } else {
      assert For(arrivals, key) == For(arrivals[..n], key);
      j := LastArrival(arrivals[..n], key);
      forall l | j < l < |arrivals| ensures arrivals[l].pubkey != key {
        if l < n { assert arrivals[..n][l] == arrivals[l]; }
      }
    }
  }

  /**
    Per account, what was sent followed by what is held is a subsequence of what arrived, and it
    ends in the newest arrival. With nothing held, the last update sent is the newest.
   */
  lemma AccountSeesNewest(h: History, key: string)
    requires Faithful(h)
    ensures Subsequence(Outgoing(h, key), For(h.arrivals, key))
    ensures For(h.arrivals, key) != [] ==>
              && Outgoing(h, key) != []
              && Outgoing(h, key)[|Outgoing(h, key)| - 1] == For(h.arrivals, key)[|For(h.arrivals, key)| - 1]
  {
    hide Outgoing;
    var at := OutgoingAt(h, key);
    Embedded(Outgoing(h, key), at, h.arrivals, key);
    if For(h.arrivals, key) != [] {
      var j := LastArrival(h.arrivals, key);
      NewestIsLast(h, key, at, j);
    }
  }

  /**
    Whatever part of the sent updates the consumer has taken, each account's are a subsequence of its
    arrivals; this holds also for a stream whose receiver has gone.
   */
  lemma DeliveredInOrder(h: History, delivered: seq<AccountUpdate>, key: string)
    requires InOrder(h) && delivered <= h.sent
    ensures Subsequence(For(delivered, key), For(h.arrivals, key))
  {
    var idx := IndexesFor(delivered, key);
    ForByIndex(delivered, key);
    forall i | 0 <= i < |idx| ensures delivered[idx[i]] == h.sent[idx[i]] {}
    var at := seq(|idx|, i requires 0 <= i < |idx| => h.sentAt[idx[i]]);
    Embedded(For(delivered, key), at, h.arrivals, key);
  }

  lemma NewestIsLast(h: History, key: string, at: seq<nat>, j: nat)
    requires Faithful(h)
    requires j < |h.arrivals| && h.arrivals[j].pubkey == key && Newest(h.arrivals, j)
    requires forall i :: 0 <= i < |at| ==> at[i] < |h.arrivals| && h.arrivals[at[i]].pubkey == key
    requires forall i, k :: 0 <= i < k < |at| ==> at[i] < at[k]
    requires |at| == |IndexesFor(h.sent, key)| + if key in h.held then 1 else 0
    requires key in h.held ==> at[|at| - 1] == h.heldAt[key]
    requires forall i :: 0 <= i < |IndexesFor(h.sent, key)| ==> at[i] == h.sentAt[IndexesFor(h.sent, key)[i]]
    ensures at != [] && at[|at| - 1] == j
  {
    hide InOrder;
    if key in h.held {
      OneNewest(h.arrivals, j, h.heldAt[key]);
    } else {
      var l := SentLast(h, key, j);
      var last := at[|at| - 1];
      assert at[l] == j;
      assert h.arrivals[last].pubkey == key;
      assert last <= j;
    }
  }

  lemma SentLast(h: History, key: string, j: nat) returns (l: nat)
    requires InOrder(h) && NewestSent(h) && key !in h.held
    requires j < |h.arrivals| && h.arrivals[j].pubkey == key && Newest(h.arrivals, j)
    ensures l < |IndexesFor(h.sent, key)| && h.sentAt[IndexesFor(h.sent, key)[l]] == j
  {
    hide Newest;
    assert j in h.sentAt;
    var i :| 0 <= i < |h.sentAt| && h.sentAt[i] == j;
    var idx := IndexesFor(h.sent, key);
    assert h.sent[i].pubkey == key;
    assert i in idx;
    l :| 0 <= l < |idx| && idx[l] == i;
  }

  /** The arrivals behind what is outgoing for an account, oldest first. */
  lemma OutgoingAt(h: History, key: string) returns (at: seq<nat>)
    requires InOrder(h) && HoldsNewest(h)
    ensures |at| == |Outgoing(h, key)|
    ensures forall i :: 0 <= i < |at| ==>
                          && at[i] < |h.arrivals|
                          && h.arrivals[at[i]] == Outgoing(h, key)[i]
                          && Outgoing(h, key)[i].pubkey == key
    ensures forall i, j :: 0 <= i < j < |at| ==> at[i] < at[j]
    ensures |at| == |IndexesFor(h.sent, key)| + if key in h.held then 1 else 0
    ensures key in h.held ==> at[|at| - 1] == h.heldAt[key]
    ensures forall i :: 0 <= i < |IndexesFor(h.sent, key)| ==> at[i] == h.sentAt[IndexesFor(h.sent, key)[i]]
  {
    var idx := IndexesFor(h.sent, key);
    ForByIndex(h.sent, key);
    at := seq(|idx|, i requires 0 <= i < |idx| => h.sentAt[idx[i]]);
    if key in h.held { at := at + [h.heldAt[key]]; }
  }
}
