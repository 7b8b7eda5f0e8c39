/** The calls of `PeerHealth` with every atomic load, store and clock read as a step of its own,
    run by any number of concurrent callers in any interleaving. */
module HealthInterleaving {
  import opened Common
  import opened PeerHealth

  /** Where a caller is inside `record_success` or `record_failure`. */
  datatype Pc =
    | ClearFails
    | ClearUntil
    | AddFailure
    | ReadClock
    | StoreUntil(read: nat)
  {
    predicate Failing() { AddFailure? || ReadClock? || StoreUntil? }

    /** Between counting a failure that reaches the threshold and storing its cooldown. */
    predicate Pending() { ReadClock? || StoreUntil? }
  }

  datatype State = State(clock: nat, lastRead: nat, fails: nat, until: nat, callers: map<nat, Pc>)

  datatype Action =
    | Tick(now: nat)
    | Call(id: nat, success: bool)
    | Advance(id: nat)

  /** One atomic operation of one caller; a caller that is done leaves the map. */
  function Operate(cfg: PeerCfg, s: State, id: nat): State
    requires id in s.callers
  {
    match s.callers[id]
    case ClearFails => s.(fails := 0, callers := s.callers[id := ClearUntil])
    case ClearUntil => s.(until := 0, callers := s.callers - {id})
    case AddFailure =>
      if s.fails + 1 >= Threshold(cfg)
      then s.(fails := s.fails + 1, callers := s.callers[id := ReadClock])
      else s.(fails := s.fails + 1, callers := s.callers - {id})
    case ReadClock =>
      s.(lastRead := s.clock, callers := s.callers[id := StoreUntil(s.clock)])
    case StoreUntil(read) => s.(until := read + cfg.failTimeout, callers := s.callers - {id})
  }

  ghost predicate Next(cfg: PeerCfg, s: State, a: Action, s': State) {
    match a
    case Tick(now) => s.clock <= now && s' == s.(clock := now)
    case Call(id, success) =>
      id !in s.callers
      && s' == s.(callers := s.callers[id := if success then ClearFails else AddFailure])
    case Advance(id) => id in s.callers && s' == Operate(cfg, s, id)
  }

  ghost predicate NextAt(cfg: PeerCfg, states: seq<State>, actions: seq<Action>, i: nat)
    requires |states| == |actions| + 1 && i < |actions|
  {
    Next(cfg, states[i], actions[i], states[i + 1])
  }

  ghost predicate IsRun(cfg: PeerCfg, states: seq<State>, actions: seq<Action>) {
    && |states| == |actions| + 1
    && forall i | 0 <= i < |actions| :: NextAt(cfg, states, actions, i)
  }

  ghost predicate Initial(s: State) {
    s.lastRead <= s.clock && s.fails == 0 && s.until == 0 && s.callers == map[]
  }

  /** No cooldown, stored or about to be stored, reaches past the latest clock read plus
      `fail_timeout`. */
  ghost predicate CooldownBounded(cfg: PeerCfg, s: State) {
    && s.lastRead <= s.clock
    && s.until <= s.lastRead + cfg.failTimeout
    && forall id | id in s.callers && s.callers[id].StoreUntil? :: s.callers[id].read <= s.lastRead
  }

  lemma {:induction false} CooldownStaysBounded(cfg: PeerCfg, states: seq<State>, actions: seq<Action>, n: nat)
    requires IsRun(cfg, states, actions) && Initial(states[0]) && n < |states|
    ensures CooldownBounded(cfg, states[n])
  {
    if n > 0 {
      CooldownStaysBounded(cfg, states, actions, n - 1);
      assert NextAt(cfg, states, actions, n - 1);
    }
  }

  ghost predicate NobodyFailing(s: State) {
    forall id | id in s.callers :: !s.callers[id].Failing()
  }

  ghost predicate NoNewFailures(actions: seq<Action>, from: nat) {
    forall i | from <= i < |actions| && actions[i].Call? :: actions[i].success
  }

  lemma {:induction false} QuietStaysQuiet(cfg: PeerCfg, states: seq<State>, actions: seq<Action>, m: nat, n: nat)
    requires IsRun(cfg, states, actions) && m <= n < |states|
    requires NobodyFailing(states[m]) && NoNewFailures(actions, m)
    ensures NobodyFailing(states[n]) && states[n].lastRead == states[m].lastRead
    decreases n - m
  {
    if m < n {
      QuietStaysQuiet(cfg, states, actions, m, n - 1);
      assert NextAt(cfg, states, actions, n - 1);
    }
  }

  /** In every interleaving, a peer that is not marked down and stops failing is available again
      once `fail_timeout` has passed since the last clock read of a failing call. */
  lemma PeerRecovers(cfg: PeerCfg, states: seq<State>, actions: seq<Action>, m: nat, n: nat)
    requires IsRun(cfg, states, actions) && Initial(states[0]) && m <= n < |states|
    requires !cfg.down && NobodyFailing(states[m]) && NoNewFailures(actions, m)
    requires states[n].clock >= states[m].lastRead + cfg.failTimeout
    ensures Available(cfg, Health(states[n].fails, states[n].until), states[n].clock)
  {
    CooldownStaysBounded(cfg, states, actions, n);
    QuietStaysQuiet(cfg, states, actions, m, n);
  }

  // ----- When the history result survives -----

  ghost function Pending(s: State): set<nat> {
    set id | id in s.callers && s.callers[id].Pending()
  }

  /** Some success is between its two stores. */
  ghost predicate Clearing(s: State) {
    exists id :: id in s.callers && s.callers[id].ClearUntil?
  }

  /** No success is between its two stores while a failure that reached the threshold has yet to
      store its cooldown. */
  ghost predicate Separate(s: State) {
    Clearing(s) ==> Pending(s) == {}
  }

  /** The call that a step completes, if any: a success counts from its first store, a failure
      from its last one, with the clock it read (or could have read, below the threshold). */
  ghost function Completes(cfg: PeerCfg, s: State, a: Action): seq<Outcome> {
    if !a.Advance? || a.id !in s.callers then []
    else match s.callers[a.id]
      case ClearFails => [Success]
      case AddFailure => if s.fails + 1 < Threshold(cfg) then [Failure(s.clock)] else []
      case StoreUntil(read) => [Failure(read)]
      case _ => []
  }

  /** The calls completed by the first `n` steps, in order. */
  ghost function History(cfg: PeerCfg, states: seq<State>, actions: seq<Action>, n: nat): seq<Outcome>
    requires |states| == |actions| + 1 && n <= |actions|
  {
    if n == 0 then []
    else History(cfg, states, actions, n - 1) + Completes(cfg, states[n - 1], actions[n - 1])
  }

  /** What the two fields hold, given the calls completed so far. */
  ghost predicate Explained(cfg: PeerCfg, s: State, h: seq<Outcome>) {
    && s.fails == Streak(h) + |Pending(s)|
    && (if s.fails < Threshold(cfg) then Pending(s) == {} else Streak(h) + 1 >= Threshold(cfg))
    && (if Clearing(s) then s.fails < Threshold(cfg) else s.until == Replay(cfg, h).failedUntil)
  }

  lemma OneMoreCall(cfg: PeerCfg, h: seq<Outcome>, o: Outcome)
    ensures Streak(h + [o]) == if o.Success? then 0 else Streak(h) + 1
    ensures Replay(cfg, h + [o]) == Record(cfg, Replay(cfg, h), o)
    ensures Replay(cfg, h).fails == Streak(h) && (Streak(h) < Threshold(cfg) ==> Replay(cfg, h).failedUntil == 0)
  {
    assert (h + [o])[..|h|] == h;
    HealthIsHistory(cfg, h);
  }

  lemma SameClearing(s: State, s': State)
    requires forall id :: (id in s.callers && s.callers[id].ClearUntil?)
                     <==> (id in s'.callers && s'.callers[id].ClearUntil?)
    ensures Clearing(s) <==> Clearing(s')
  {
    if Clearing(s) {
      var id :| id in s.callers && s.callers[id].ClearUntil?;
      assert s'.callers[id].ClearUntil?;
    }
    if Clearing(s') {
      var id :| id in s'.callers && s'.callers[id].ClearUntil?;
      assert s.callers[id].ClearUntil?;
    }
  }

  lemma PendingAfter(cfg: PeerCfg, s: State, id: nat)
    requires id in s.callers && s.callers[id].Failing()
    ensures var s' := Operate(cfg, s, id);
            && (s.callers[id].AddFailure? && s'.fails < Threshold(cfg) ==> Pending(s') == Pending(s))
            && (s.callers[id].AddFailure? && s'.fails >= Threshold(cfg) ==>
                  Pending(s') != {} && |Pending(s')| == |Pending(s)| + 1)
            && (s.callers[id].ReadClock? ==> Pending(s') == Pending(s))
            && (s.callers[id].StoreUntil? ==> Pending(s) != {} && |Pending(s')| == |Pending(s)| - 1)
  {
    var s' := Operate(cfg, s, id);
    forall k | k != id ensures k in Pending(s') <==> k in Pending(s) {
    }
    var rest := Pending(s) - {id};
    assert Pending(s') == if id in s'.callers && s'.callers[id].Pending() then rest + {id} else rest;
    assert Pending(s) == if s.callers[id].Pending() then rest + {id} else rest;
  }

  lemma ClearingAfter(cfg: PeerCfg, s: State, id: nat)
    requires id in s.callers && s.callers[id].Failing()
    ensures Clearing(s) <==> Clearing(Operate(cfg, s, id))
  {
    SameClearing(s, Operate(cfg, s, id));
  }

  lemma ExplainedByFailure(cfg: PeerCfg, s: State, id: nat, h: seq<Outcome>)
    requires id in s.callers && s.callers[id].Failing() && Explained(cfg, s, h)
    requires Separate(s) && Separate(Operate(cfg, s, id))
    ensures Explained(cfg, Operate(cfg, s, id), h + Completes(cfg, s, Advance(id)))
  {
    PendingAfter(cfg, s, id);
    ClearingAfter(cfg, s, id);
    OneMoreCall(cfg, h, Failure(if s.callers[id].StoreUntil? then s.callers[id].read else s.clock));
    assert h + [] == h;
  }

  lemma ExplainedBySuccess(cfg: PeerCfg, s: State, id: nat, h: seq<Outcome>)
    requires id in s.callers && !s.callers[id].Failing() && Explained(cfg, s, h)
    requires Separate(s) && Separate(Operate(cfg, s, id))
    ensures Explained(cfg, Operate(cfg, s, id), h + Completes(cfg, s, Advance(id)))
  {
    var s' := Operate(cfg, s, id);
    OneMoreCall(cfg, h, Success);
    assert h + [] == h && Pending(s') == Pending(s);
    if s.callers[id].ClearFails? {
      assert s'.callers[id].ClearUntil? && Clearing(s');
    } else {
      assert Clearing(s);
    }
  }

  lemma ExplainedByOther(cfg: PeerCfg, s: State, a: Action, s': State, h: seq<Outcome>)
    requires !a.Advance? && Next(cfg, s, a, s') && Explained(cfg, s, h)
    ensures Explained(cfg, s', h)
  {
    assert Pending(s') == Pending(s);
    SameClearing(s, s');
  }

  lemma {:induction false} SeparateStaysExplained(cfg: PeerCfg, states: seq<State>, actions: seq<Action>, n: nat)
    requires IsRun(cfg, states, actions) && Initial(states[0]) && n < |states|
    requires forall i | 0 <= i <= n :: Separate(states[i])
    ensures Explained(cfg, states[n], History(cfg, states, actions, n))
  {
    if n == 0 {
      assert Pending(states[0]) == {};
    } else {
      SeparateStaysExplained(cfg, states, actions, n - 1);
      assert NextAt(cfg, states, actions, n - 1);
      var s, a, h := states[n - 1], actions[n - 1], History(cfg, states, actions, n - 1);
      assert Separate(s) && Separate(states[n]);
      assert h + [] == h;
      if !a.Advance? {
        ExplainedByOther(cfg, s, a, states[n], h);
      } else if s.callers[a.id].Failing() {
        ExplainedByFailure(cfg, s, a.id, h);
      } else {
        ExplainedBySuccess(cfg, s, a.id, h);
      }
    }
  }

  /** The two models of health agree: in every interleaving that keeps them separate, whenever no
      call is in progress the health is that of the completed calls as whole steps. */
  lemma SeparateIsHistory(cfg: PeerCfg, states: seq<State>, actions: seq<Action>, n: nat)
    requires IsRun(cfg, states, actions) && Initial(states[0]) && n < |states|
    requires forall i | 0 <= i <= n :: Separate(states[i])
    requires states[n].callers == map[]
    ensures Health(states[n].fails, states[n].until) == Replay(cfg, History(cfg, states, actions, n))
  {
    SeparateStaysExplained(cfg, states, actions, n);
    assert Pending(states[n]) == {};
    HealthIsHistory(cfg, History(cfg, states, actions, n));
  }

  /** A single caller at a time is always separate. */
  lemma OneCallerIsSeparate(s: State)
    requires |s.callers| <= 1
    ensures Separate(s)
  {
    if Clearing(s) {
      var id :| id in s.callers && s.callers[id].ClearUntil?;
      forall k | k in s.callers ensures k == id {
        assert {id, k} <= s.callers.Keys;
        assert |{id, k}| <= |s.callers.Keys| by { SubsetSize({id, k}, s.callers.Keys); }
      }
    }
  }

  // ----- When it does not -----

  /** `t` is reached from `s` when the callers in `ids` advance one after the other. */
  ghost predicate Path(cfg: PeerCfg, s: State, ids: seq<nat>, t: State)
    decreases ids
  {
    if ids == [] then s == t
    else ids[0] in s.callers && Path(cfg, Operate(cfg, s, ids[0]), ids[1..], t)
  }

  lemma {:induction false} PathConcat(cfg: PeerCfg, s: State, a: seq<nat>, t: State, b: seq<nat>, u: State)
    requires Path(cfg, s, a, t) && Path(cfg, t, b, u)
    ensures Path(cfg, s, a + b, u)
    decreases a
  {
    if a == [] {
      assert a + b == b;
    } else {
      PathConcat(cfg, Operate(cfg, s, a[0]), a[1..], t, b, u);
      assert (a + b)[1..] == a[1..] + b;
    }
  }

  /** Such a path is a run without further calls. */
  lemma {:induction false} PathIsRun(cfg: PeerCfg, s: State, ids: seq<nat>, t: State)
    returns (states: seq<State>, actions: seq<Action>)
    requires Path(cfg, s, ids, t)
    ensures IsRun(cfg, states, actions) && states[0] == s && states[|actions|] == t
    ensures forall i | 0 <= i < |actions| :: actions[i].Advance?
    decreases ids
  {
    if ids == [] {
      states, actions := [s], [];
    } else {
      var later, steps := PathIsRun(cfg, Operate(cfg, s, ids[0]), ids[1..], t);
      states, actions := [s] + later, [Advance(ids[0])] + steps;
      forall i | 0 <= i < |actions| ensures NextAt(cfg, states, actions, i) {
        assert i > 0 ==> NextAt(cfg, later, steps, i - 1);
      }
    }
  }

  function StepsLeft(pc: Pc): nat {
    match pc
    case ClearFails => 2
    case ClearUntil => 1
    case AddFailure => 3
    case ReadClock => 2
    case StoreUntil(_) => 1
  }

  /** One caller runs to its end. */
  lemma {:induction false} Finish(cfg: PeerCfg, s: State, id: nat) returns (ids: seq<nat>, t: State)
    requires id in s.callers
    ensures Path(cfg, s, ids, t) && t.callers == s.callers - {id}
    ensures s.callers[id].Pending() ==> t.fails == s.fails && t.until >= cfg.failTimeout
    ensures s.callers[id].ClearUntil? ==> t.fails == s.fails && t.until == 0
    decreases StepsLeft(s.callers[id])
  {
    var s' := Operate(cfg, s, id);
    if id in s'.callers {
      var rest;
      rest, t := Finish(cfg, s', id);
      ids := [id] + rest;
      assert ids[1..] == rest;
      assert s'.callers - {id} == s.callers - {id};
    } else {
      ids, t := [id], s';
      assert ids[1..] == [];
    }
  }

  /** All callers but those in `keep` run to their end. */
  lemma {:induction false} FinishOthers(cfg: PeerCfg, s: State, keep: set<nat>) returns (ids: seq<nat>, t: State)
    requires keep <= s.callers.Keys
    ensures Path(cfg, s, ids, t) && t.callers.Keys == keep
    ensures forall id | id in keep :: t.callers[id] == s.callers[id]
    decreases |s.callers|
  {
    var left := s.callers.Keys - keep;
    if left == {} {
      assert s.callers.Keys == keep;
      ids, t := [], s;
    } else {
      var id :| id in left;
      var first, s' := Finish(cfg, s, id);
      assert s'.callers.Keys == s.callers.Keys - {id};
      var rest;
      rest, t := FinishOthers(cfg, s', keep);
      PathConcat(cfg, s, first, s', rest, t);
      ids := first + rest;
    }
  }

  /** No history of whole calls ends in this health. */
  ghost predicate Unexplained(cfg: PeerCfg, s: State) {
    forall h :: Replay(cfg, h) != Health(s.fails, s.until)
  }

  /** Once a success is between its two stores while a failure has yet to store its cooldown, the
      calls in progress can end in a full streak without its cooldown, or in a cooldown without its
      streak. */
  lemma OverlapCanFinishUnexplained(cfg: PeerCfg, s: State) returns (ids: seq<nat>, t: State)
    requires !Separate(s) && cfg.failTimeout > 0
    ensures Path(cfg, s, ids, t) && t.callers == map[] && Unexplained(cfg, t)
  {
    var a :| a in s.callers && s.callers[a].ClearUntil?;
    var b :| b in Pending(s);
    var others, s' := FinishOthers(cfg, s, {a, b});
    var first, second := if s'.fails < Threshold(cfg) then a else b, if s'.fails < Threshold(cfg) then b else a;
    var ids1, s1 := Finish(cfg, s', first);
    assert s1.callers.Keys == {second} && s1.callers[second] == s.callers[second];
    var ids2, s2 := Finish(cfg, s1, second);
    assert s2.callers.Keys == {};
    PathConcat(cfg, s, others, s', ids1, s1);
    PathConcat(cfg, s, others + ids1, s1, ids2, s2);
    ids, t := others + ids1 + ids2, s2;
    forall h ensures Replay(cfg, h) != Health(t.fails, t.until) {
      HealthIsHistory(cfg, h);
    }
  }

  /** One run goes on where another ends. */
  lemma RunConcat(cfg: PeerCfg, states: seq<State>, actions: seq<Action>, later: seq<State>, steps: seq<Action>)
    requires IsRun(cfg, states, actions) && IsRun(cfg, later, steps) && states[|actions|] == later[0]
    ensures IsRun(cfg, states + later[1..], actions + steps)
  {
    var all, acts, n := states + later[1..], actions + steps, |actions|;
    assert forall i | 0 <= i < |later| :: all[n + i] == later[i];
    forall i | 0 <= i < |acts| ensures NextAt(cfg, all, acts, i) {
      if i < n {
        assert NextAt(cfg, states, actions, i);
      } else {
        assert NextAt(cfg, later, steps, i - n);
      }
    }
  }

  /** The separation is needed in every state of every run: if it is lost after `n` steps, then from
      there the calls in progress alone can take the run to an end, with no caller left, in a health
      that no history of whole calls explains. */
  lemma OverlapCanLoseHistory(cfg: PeerCfg, states: seq<State>, actions: seq<Action>, n: nat)
    returns (states': seq<State>, actions': seq<Action>)
    requires IsRun(cfg, states, actions) && n <= |actions| && !Separate(states[n]) && cfg.failTimeout > 0
    ensures IsRun(cfg, states', actions') && n <= |actions'|
    ensures states'[..n + 1] == states[..n + 1] && actions'[..n] == actions[..n]
    ensures forall i | n <= i < |actions'| :: actions'[i].Advance?
    ensures var end := states'[|actions'|]; end.callers == map[] && Unexplained(cfg, end)
  {
    var ids, t := OverlapCanFinishUnexplained(cfg, states[n]);
    var later, steps := PathIsRun(cfg, states[n], ids, t);
    var first, acts := states[..n + 1], actions[..n];
    forall i | 0 <= i < n ensures NextAt(cfg, first, acts, i) {
      assert NextAt(cfg, states, actions, i);
    }
    RunConcat(cfg, first, acts, later, steps);
    states', actions' := first + later[1..], acts + steps;
    assert states'[|actions'|] == t by {
      if |steps| > 0 { assert states'[|actions'|] == later[1..][|steps| - 1]; }
    }
  }

  ghost function RaceActions(): seq<Action> {
    [Call(0, true), Advance(0), Call(1, false), Advance(1), Advance(1), Advance(1), Advance(0)]
  }

  ghost function RaceStates(cfg: PeerCfg, t: nat): seq<State> {
    var until := t + cfg.failTimeout;
    [State(t, 0, 0, 0, map[]),
     State(t, 0, 0, 0, map[0 := ClearFails]),
     State(t, 0, 0, 0, map[0 := ClearUntil]),
     State(t, 0, 0, 0, map[0 := ClearUntil, 1 := AddFailure]),
     State(t, 0, 1, 0, map[0 := ClearUntil, 1 := ReadClock]),
     State(t, t, 1, 0, map[0 := ClearUntil, 1 := StoreUntil(t)]),
     State(t, t, 1, until, map[0 := ClearUntil]),
     State(t, t, 1, 0, map[])]
  }

  lemma RaceStep(cfg: PeerCfg, t: nat, i: nat)
    requires cfg.maxFails <= 1 && i < 7
    ensures NextAt(cfg, RaceStates(cfg, t), RaceActions(), i)
  {
    var s, s' := RaceStates(cfg, t)[i], RaceStates(cfg, t)[i + 1];
    if i == 5 {
      assert s.callers - {1} == s'.callers;
    } else if i == 6 {
      assert s.callers - {0} == s'.callers;
    }
  }

  /** The exact history result does not survive interleaving: a success that is overtaken between
      its two stores by a whole failure erases the cooldown and keeps the count.  No order of the
      two calls as whole steps ends in that state. */
  lemma RaceErasesCooldown(cfg: PeerCfg, t: nat)
    requires cfg.maxFails <= 1 && t > 0
    ensures var states, actions := RaceStates(cfg, t), RaceActions();
            && IsRun(cfg, states, actions) && Initial(states[0]) && states[7].callers == map[]
            && var h := Health(states[7].fails, states[7].until);
               && h != Replay(cfg, [Success, Failure(t)])
               && h != Replay(cfg, [Failure(t), Success])
  {
    forall i | 0 <= i < 7 ensures NextAt(cfg, RaceStates(cfg, t), RaceActions(), i) {
      RaceStep(cfg, t, i);
    }
    HealthIsHistory(cfg, [Success, Failure(t)]);
    HealthIsHistory(cfg, [Failure(t), Success]);
    assert [Success, Failure(t)][..1] == [Success];
    assert Streak([Success, Failure(t)]) == 1;
  }
}
