/**
  The throttle that spaces submissions: callers take a lock, look at the clock, and either stamp the
  time of their grant or give the lock back and sleep. Any number of callers, in any interleaving.
 */
module SendThrottle {
  import opened Wrappers

  datatype Phase =
    | Wanting
    | Holding
    | Approved
    | Sleeping(until: nat)
    | Granted

  /** The clock, the guarded time of the last grant, and where every caller is. */
  datatype State = State(
    now: nat,
    last: nat,
    lock: Option<nat>,
    callers: map<nat, Phase>,
    grants: seq<nat>)

  datatype Action =
    | Tick(elapsed: nat)
    | Call(caller: nat)
    | Lock(caller: nat)
    | Check(caller: nat)
    | Stamp(caller: nat)
    | Wake(caller: nat)

  /** The time of the last grant is set back by the interval, unless the clock is younger than that. */
  function Init(now: nat, interval: nat): State {
    State(now, if now >= interval then now - interval else now, None, map[], [])
  }

  function Elapsed(s: State): nat {
    if s.now >= s.last then s.now - s.last else 0
  }

  predicate In(s: State, caller: nat, phase: Phase) {
    caller in s.callers && s.callers[caller] == phase
  }

  /** Whether an action can happen in a state. */
  predicate Enabled(s: State, action: Action) {
    match action
    case Tick(_) => true
    case Call(c) => c !in s.callers || s.callers[c].Granted?
    case Lock(c) => In(s, c, Wanting) && s.lock.None?
    case Check(c) => In(s, c, Holding) && s.lock == Some(c)
    case Stamp(c) => In(s, c, Approved) && s.lock == Some(c)
    case Wake(c) => c in s.callers && s.callers[c].Sleeping? && s.callers[c].until <= s.now
  }

  function Next(s: State, interval: nat, action: Action): State {
    match action
    case Tick(elapsed) => s.(now := s.now + elapsed)
    case Call(c) =>
      if interval == 0 then s.(callers := s.callers[c := Granted], grants := s.grants + [s.now])
      else s.(callers := s.callers[c := Wanting])
    case Lock(c) => s.(callers := s.callers[c := Holding], lock := Some(c))
    case Check(c) =>
      if Elapsed(s) >= interval then s.(callers := s.callers[c := Approved])
      else s.(callers := s.callers[c := Sleeping(s.now + (interval - Elapsed(s)))], lock := None)
    case Stamp(c) =>
      s.(last := s.now, callers := s.callers[c := Granted], lock := None, grants := s.grants + [s.now])
    case Wake(c) => s.(callers := s.callers[c := Wanting])
  }

  /** The state after a run, if every action of it was possible in its turn. */
  function Run(start: nat, interval: nat, actions: seq<Action>): Option<State> {
    if actions == [] then Some(Init(start, interval))
    else
      var before := Run(start, interval, actions[..|actions| - 1]);
      var action := actions[|actions| - 1];
      if before.None? || !Enabled(before.value, action) then None
      else Some(Next(before.value, interval, action))
  }

  predicate Spaced(grants: seq<nat>, interval: nat) {
    forall i :: 0 <= i < |grants| - 1 ==> grants[i] + interval <= grants[i + 1]
  }

  /** The lock holder is the only caller between taking the lock and giving it back. */
  predicate LockDiscipline(s: State) {
    && (s.lock.Some? ==> s.lock.value in s.callers)
    && forall c :: c in s.callers && (s.callers[c].Holding? || s.callers[c].Approved?) ==> s.lock == Some(c)
  }

  predicate Invariant(s: State, interval: nat) {
    && LockDiscipline(s)
    && s.last <= s.now
    && Spaced(s.grants, interval)
    && AtMost(s.grants, s.now)
    && (interval > 0 && s.grants != [] ==> s.last == s.grants[|s.grants| - 1])
    && (forall c :: c in s.callers && s.callers[c].Approved? ==> s.last + interval <= s.now)
    && (forall c :: c in s.callers && s.callers[c].Sleeping? ==> s.callers[c].until <= s.last + interval)
  }

  lemma StepKeepsInvariant(s: State, interval: nat, action: Action)
    requires Invariant(s, interval) && Enabled(s, action)
    ensures Invariant(Next(s, interval, action), interval)
  {
    var t := Next(s, interval, action);
    if t.grants != s.grants {
      forall i | 0 <= i < |t.grants| - 1 ensures t.grants[i] + interval <= t.grants[i + 1] {
        if i == |s.grants| - 1 { assert s.grants[i] in s.grants; }
      }
    }
  }

  /** At every moment of every run, consecutive grants are at least the interval apart. */
  lemma {:induction false} GrantsAreSpaced(start: nat, interval: nat, actions: seq<Action>)
    requires Run(start, interval, actions).Some?
    ensures Invariant(Run(start, interval, actions).value, interval)
    ensures Spaced(Run(start, interval, actions).value.grants, interval)
  {
    if actions != [] {
      var init, action := actions[..|actions| - 1], actions[|actions| - 1];
      GrantsAreSpaced(start, interval, init);
      StepKeepsInvariant(Run(start, interval, init).value, interval, action);
    }
  }

  // ---------- how many grants a window can hold ----------

  function CountWithin(grants: seq<nat>, from: nat, to: int): nat {
    if grants == [] then 0
    else
      CountWithin(grants[..|grants| - 1], from, to)
      + if from <= grants[|grants| - 1] <= to then 1 else 0
  }

  predicate AtMost(grants: seq<nat>, bound: int) {
    forall g :: g in grants ==> g <= bound
  }

  lemma {:induction false} EarlierGrantsOnly(grants: seq<nat>, from: nat, to: int, bound: int)
    requires bound <= to && AtMost(grants, bound)
    ensures CountWithin(grants, from, to) == CountWithin(grants, from, bound)
    ensures bound < from ==> CountWithin(grants, from, bound) == 0
  {
    if grants != [] {
      var init := grants[..|grants| - 1];
      assert forall g :: g in init ==> g in grants;
      assert grants[|grants| - 1] in grants;
      EarlierGrantsOnly(init, from, to, bound);
    }
  }

  lemma {:induction false} SpacedBefore(grants: seq<nat>, interval: nat)
    requires Spaced(grants, interval) && grants != []
    ensures Spaced(grants[..|grants| - 1], interval)
    ensures AtMost(grants[..|grants| - 1], grants[|grants| - 1] - interval)
  {
    var init := grants[..|grants| - 1];
    if init != [] {
      assert init[..|init| - 1] == grants[..|grants| - 2];
      forall i | 0 <= i < |init| - 1 ensures init[i] + interval <= init[i + 1] {
        assert grants[i] + interval <= grants[i + 1];
      }
      SpacedBefore(init, interval);
      assert init[|init| - 1] + interval <= grants[|grants| - 1] by {
        assert grants[|grants| - 2] + interval <= grants[|grants| - 2 + 1];
      }
      forall g | g in init ensures g <= grants[|grants| - 1] - interval {
        var i :| 0 <= i < |init| && init[i] == g;
        if i < |init| - 1 { assert init[..|init| - 1][i] in init[..|init| - 1]; }
      }
    }
  }

  lemma StepsInWindow(a: nat, interval: nat)
    requires interval > 0 && a >= interval
    ensures a / interval == (a - interval) / interval + 1
  {
    var q, m := (a - interval) / interval, (a - interval) % interval;
    assert a - interval == q * interval + m;
    assert a == (q + 1) * interval + m;
    var p, n := a / interval, a % interval;
    assert a == p * interval + n;
    if p > q + 1 { Apart(q + 1, p, interval); }
    if p < q + 1 { Apart(p, q + 1, interval); }
  }

  lemma Apart(a: nat, b: nat, d: nat)
    requires a < b
    ensures a * d + d <= b * d
  {
    assert (b - a - 1) * d >= 0;
    assert b * d == a * d + d + (b - a - 1) * d;
  }

  lemma QuotientMonotone(a: nat, b: nat, d: nat)
    requires a <= b && d > 0
    ensures a / d <= b / d
  {
    var p, q := a / d, b / d;
    assert a == p * d + a % d && b == q * d + b % d;
    if q < p { Apart(q, p, d); }
  }

  /** Whole intervals in a length of time. */
  function Whole(length: nat, interval: nat): nat
    requires interval > 0
  {
    length / interval
  }

  lemma OneMoreInterval(a: nat, b: nat, interval: nat)
    requires interval > 0 && a + interval <= b
    ensures Whole(a, interval) + 1 <= Whole(b, interval)
  {
    StepsInWindow(a + interval, interval);
    QuotientMonotone(a + interval, b, interval);
  }

  lemma {:induction false} SpacedGrantsFit(grants: seq<nat>, interval: nat, from: nat, to: int)
    requires Spaced(grants, interval) && interval > 0 && from <= to
    ensures CountWithin(grants, from, to) <= Whole(to - from, interval) + 1
  {
    hide Whole;
    if grants != [] {
      var init, last := grants[..|grants| - 1], grants[|grants| - 1];
      SpacedBefore(grants, interval);
      if from <= last <= to {
        EarlierGrantsOnly(init, from, to, last - interval);
        if last - interval >= from {
          SpacedGrantsFit(init, interval, from, last - interval);
          OneMoreInterval(last - interval - from, to - from, interval);
        }
      } else {
        SpacedGrantsFit(init, interval, from, to);
      }
    }
  }

  /** The grants within a window, its ends included. */
  function Within(grants: seq<nat>, from: nat, to: int): set<nat> {
    set i: nat | i < |grants| && from <= grants[i] <= to
  }

  lemma {:induction false} CountIsOfGrants(grants: seq<nat>, from: nat, to: int)
    ensures CountWithin(grants, from, to) == |Within(grants, from, to)|
  {
    if grants == [] {
      assert Within(grants, from, to) == {};
    } else {
      var n := |grants| - 1;
      CountIsOfGrants(grants[..n], from, to);
      assert Within(grants, from, to) == Within(grants[..n], from, to) + if from <= grants[n] <= to then {n} else {};
    }
  }

  /** In any run, a window of any length holds at most one grant more than whole intervals fit in it. */
  lemma WindowHoldsFewGrants(start: nat, interval: nat, actions: seq<Action>, from: nat, length: nat)
    requires interval > 0 && Run(start, interval, actions).Some?
    ensures |Within(Run(start, interval, actions).value.grants, from, from + length)| <= length / interval + 1
  {
    GrantsAreSpaced(start, interval, actions);
    SpacedGrantsFit(Run(start, interval, actions).value.grants, interval, from, from + length);
    CountIsOfGrants(Run(start, interval, actions).value.grants, from, from + length);
  }

  // ---------- when a caller is granted ----------

  /** The lock holder is approved exactly when the interval has passed; otherwise it waits for just that. */
  lemma CheckExactly(s: State, interval: nat, caller: nat)
    requires Enabled(s, Check(caller)) && s.last <= s.now
    ensures var t := Next(s, interval, Check(caller));
            && t.last == s.last && t.grants == s.grants && t.now == s.now
            && (In(t, caller, Approved) <==> s.last + interval <= s.now)
            && (s.now < s.last + interval ==> In(t, caller, Sleeping(s.last + interval)) && t.lock.None?)
  {}

  /** A run continued by one action. */
  lemma RunOn(start: nat, interval: nat, actions: seq<Action>, action: Action)
    requires Run(start, interval, actions).Some? && Enabled(Run(start, interval, actions).value, action)
    ensures Run(start, interval, actions + [action])
        == Some(Next(Run(start, interval, actions).value, interval, action))
  {
    assert (actions + [action])[..|actions|] == actions;
  }

  /**
    The first caller is granted at once, unless the clock is younger than the interval: then it waits for
    one whole interval.
   */
  lemma FirstCaller(start: nat, interval: nat, caller: nat)
    requires interval > 0
    ensures var asked := [Call(caller)] + [Lock(caller)] + [Check(caller)];
            && Run(start, interval, asked).Some?
            && (interval <= start ==>
                  && Run(start, interval, asked + [Stamp(caller)]).Some?
                  && Run(start, interval, asked + [Stamp(caller)]).value.grants == [start])
            && (start < interval ==> In(Run(start, interval, asked).value, caller, Sleeping(start + interval)))
  {
    hide Run;
    assert Run(start, interval, []) == Some(Init(start, interval)) by { NothingRun(start, interval); }
    RunOn(start, interval, [], Call(caller));
    assert [] + [Call(caller)] == [Call(caller)];
    RunOn(start, interval, [Call(caller)], Lock(caller));
    RunOn(start, interval, [Call(caller)] + [Lock(caller)], Check(caller));
    if interval <= start {
      RunOn(start, interval, [Call(caller)] + [Lock(caller)] + [Check(caller)], Stamp(caller));
      assert [] + [start] == [start];
    }
  }

  lemma NothingRun(start: nat, interval: nat)
    ensures Run(start, interval, []) == Some(Init(start, interval))
  {}

  /** A caller that sleeps until the interval has passed, and finds no other grant since, is granted. */
  lemma GrantedWhenDue(start: nat, interval: nat, actions: seq<Action>, caller: nat, wait: nat)
    requires interval > 0 && Run(start, interval, actions).Some?
    requires var s := Run(start, interval, actions).value;
             s.lock.None? && s.last + interval <= s.now + wait && In(s, caller, Sleeping(s.last + interval))
    ensures var s := Run(start, interval, actions).value;
            var woken := actions + [Tick(wait)] + [Wake(caller)];
            var more := woken + [Lock(caller)] + [Check(caller)] + [Stamp(caller)];
            && Run(start, interval, more).Some?
            && Run(start, interval, more).value.grants == s.grants + [s.now + wait]
            && Run(start, interval, more).value.last == s.now + wait
  {
    hide Run;
    var woken := actions + [Tick(wait)] + [Wake(caller)];
    RunOn(start, interval, actions, Tick(wait));
    RunOn(start, interval, actions + [Tick(wait)], Wake(caller));
    RunOn(start, interval, woken, Lock(caller));
    RunOn(start, interval, woken + [Lock(caller)], Check(caller));
    RunOn(start, interval, woken + [Lock(caller)] + [Check(caller)], Stamp(caller));
  }
}
