/** `limit_conn` of src/limit.rs: a table of in-flight counts per key.  Every accepted request
    holds a guard that gives its count back when dropped. */
module LimitConn {
  import opened Common

  type Counts = map<string, nat>

  function Count(m: Counts, key: string): nat {
    if key in m then m[key] else 0
  }

  datatype Event =
    | Acquire(key: string, maxConn: nat, ok: bool, purged: Option<string>)
    | Release(key: string)

  ghost predicate HasIdle(m: Counts) {
    exists k :: k in m && m[k] == 0
  }

  /** An idle entry makes way for a new key when the table is full. */
  ghost predicate Purges(m: Counts, maxEntries: nat, key: string, purged: Option<string>) {
    if key !in m && |m| >= maxEntries && HasIdle(m)
    then purged.Some? && purged.value in m && m[purged.value] == 0
    else purged.None?
  }

  function Drop(m: Counts, purged: Option<string>): Counts {
    if purged.Some? then m - {purged.value} else m
  }

  ghost predicate Step(maxEntries: nat, m: Counts, ev: Event, m': Counts) {
    match ev
    case Acquire(key, maxConn, ok, purged) =>
      && Purges(m, maxEntries, key, purged)
      && var n := Count(Drop(m, purged), key);
         && ok == (n < maxConn)
         && m' == Drop(m, purged)[key := if ok then n + 1 else n]
    case Release(key) =>
      m' == if key in m then m[key := SaturatingSub(m[key], 1)] else m
  }

  /** The guards alive after an event; a guard exists only where one was handed out. */
  ghost function Guards(live: multiset<string>, ev: Event): multiset<string> {
    match ev
    case Acquire(key, _, ok, _) => if ok then live + multiset{key} else live
    case Release(key) => live - multiset{key}
  }

  ghost predicate CountsGuards(m: Counts, live: multiset<string>) {
    forall k :: live[k] == Count(m, k)
  }

  /** No event parts the counts from the guards. */
  lemma StepCountsGuards(maxEntries: nat, m: Counts, live: multiset<string>, ev: Event, m': Counts)
    requires CountsGuards(m, live) && Step(maxEntries, m, ev, m')
    requires ev.Release? ==> ev.key in live
    ensures CountsGuards(m', Guards(live, ev))
  {
    forall k ensures Guards(live, ev)[k] == Count(m', k) {
      assert live[k] == Count(m, k);
    }
  }

  /** `iter().find(..)` over the table, in any order. */
  method FindIdle(m: Counts) returns (idle: Option<string>)
    ensures idle.Some? ==> idle.value in m && m[idle.value] == 0
    ensures idle.None? ==> !HasIdle(m)
  {
    var keys := m.Keys;
    while keys != {}
      invariant keys <= m.Keys
      invariant forall k | k in m.Keys - keys :: m[k] != 0
      decreases |keys|
    {
      var k :| k in keys;
      if m[k] == 0 {
        return Some(k);
      }
      keys := keys - {k};
    }
    return None;
  }

  class LimitConnZone {
    const maxEntries: nat
    var counts: Counts
    ghost var live: multiset<string>

    /** Each key's stored count is the number of its live guards. */
    ghost predicate Valid()
      reads this
    {
      CountsGuards(counts, live)
    }

    constructor (maxEntries: nat)
      ensures Valid() && live == multiset{} && counts == map[] && this.maxEntries == maxEntries
    {
      this.maxEntries, counts, live := maxEntries, map[], multiset{};
    }

    /** Make room for a new key, if the table is full and something in it is idle. */
    method Purge(key: string) returns (ghost purged: Option<string>)
      modifies this`counts
      ensures Purges(old(counts), maxEntries, key, purged)
      ensures counts == Drop(old(counts), purged)
    {
      purged := None;
      if key !in counts && |counts| >= maxEntries {
        var dead := FindIdle(counts);
        if dead.Some? {
          counts := counts - {dead.value};
        }
        purged := dead;
      }
    }

    method TryAcquire(key: string, maxConn: nat) returns (ok: bool, ghost purged: Option<string>)
      requires Valid()
      modifies this
      ensures Valid()
      ensures ok <==> old(live)[key] < maxConn
      ensures Step(maxEntries, old(counts), Acquire(key, maxConn, ok, purged), counts)
      ensures live == Guards(old(live), Acquire(key, maxConn, ok, purged))
    {
      purged := Purge(key);
      if key !in counts {
        counts := counts[key := 0];
      }
      if counts[key] >= maxConn {
        ok := false;
      } else {
        counts := counts[key := counts[key] + 1];
        live := live + multiset{key};
        ok := true;
      }
      assert counts == Drop(old(counts), purged)[key := counts[key]];
      StepCountsGuards(maxEntries, old(counts), old(live), Acquire(key, maxConn, ok, purged), counts);
    }

    /** Dropping a live guard: the entry is present and the decrement does not clamp. */
    method DropGuard(key: string)
      requires Valid() && key in live
      modifies this
      ensures Valid()
      ensures Step(maxEntries, old(counts), Release(key), counts)
      ensures live == Guards(old(live), Release(key))
      ensures Count(counts, key) + 1 == Count(old(counts), key)
    {
      if key in counts {
        counts := counts[key := SaturatingSub(counts[key], 1)];
      }
      live := live - multiset{key};
    }
  }

  // ----- Runs -----

  /** Guards alive after the first `n` events. */
  ghost function LiveAfter(events: seq<Event>, n: nat): multiset<string>
    requires n <= |events|
  {
    if n == 0 then multiset{} else Guards(LiveAfter(events, n - 1), events[n - 1])
  }

  ghost predicate StepAt(maxEntries: nat, tables: seq<Counts>, events: seq<Event>, i: nat)
    requires |tables| == |events| + 1 && i < |events|
  {
    && Step(maxEntries, tables[i], events[i], tables[i + 1])
    && (events[i].Release? ==> events[i].key in LiveAfter(events, i))
  }

  /** A run from an empty zone; only live guards are dropped. */
  ghost predicate IsRun(maxEntries: nat, tables: seq<Counts>, events: seq<Event>) {
    && |tables| == |events| + 1 && tables[0] == map[]
    && forall i | 0 <= i < |events| :: StepAt(maxEntries, tables, events, i)
  }

  /** In every run the stored count of a key is the number of its live guards, so eviction
      never forgets a held key. */
  lemma {:induction false} CountsAreLiveGuards(maxEntries: nat, tables: seq<Counts>, events: seq<Event>, n: nat)
    requires IsRun(maxEntries, tables, events) && n < |tables|
    ensures CountsGuards(tables[n], LiveAfter(events, n))
  {
    if n > 0 {
      CountsAreLiveGuards(maxEntries, tables, events, n - 1);
      assert StepAt(maxEntries, tables, events, n - 1);
      StepCountsGuards(maxEntries, tables[n - 1], LiveAfter(events, n - 1), events[n - 1], tables[n]);
    }
  }

  ghost predicate OneCapAt(events: seq<Event>, i: nat, key: string, cap: nat)
    requires i < |events|
  {
    events[i].Acquire? && events[i].key == key ==> events[i].maxConn == cap
  }

  lemma GuardsGrow(live: multiset<string>, ev: Event, key: string, cap: nat)
    requires live[key] <= cap && (ev.Acquire? && ev.key == key && ev.ok ==> live[key] < cap)
    ensures Guards(live, ev)[key] <= cap
  {
  }

  /** A request is accepted exactly when its key has fewer live guards than its cap, and the
      guards of a key called with one cap never exceed it. */
  lemma {:induction false} GuardsWithinCap(maxEntries: nat, tables: seq<Counts>, events: seq<Event>,
                                           key: string, cap: nat, n: nat)
    requires IsRun(maxEntries, tables, events) && n < |tables|
    requires forall i | 0 <= i < |events| :: OneCapAt(events, i, key, cap)
    ensures LiveAfter(events, n)[key] <= cap
    ensures n < |events| && events[n].Acquire? && events[n].key == key ==>
              (events[n].ok <==> LiveAfter(events, n)[key] < cap)
  {
    if n > 0 {
      GuardsWithinCap(maxEntries, tables, events, key, cap, n - 1);
      GuardsGrow(LiveAfter(events, n - 1), events[n - 1], key, cap);
    }
    if n < |events| {
      DecisionAt(maxEntries, tables, events, n);
      assert OneCapAt(events, n, key, cap);
    }
  }

  lemma DecisionAt(maxEntries: nat, tables: seq<Counts>, events: seq<Event>, n: nat)
    requires IsRun(maxEntries, tables, events) && n < |events|
    ensures events[n].Acquire? ==> (events[n].ok <==> LiveAfter(events, n)[events[n].key] < events[n].maxConn)
  {
    CountsAreLiveGuards(maxEntries, tables, events, n);
    assert StepAt(maxEntries, tables, events, n);
    Decision(maxEntries, tables[n], LiveAfter(events, n), events[n], tables[n + 1]);
  }

  lemma Decision(maxEntries: nat, m: Counts, live: multiset<string>, ev: Event, m': Counts)
    requires CountsGuards(m, live) && Step(maxEntries, m, ev, m')
    ensures ev.Acquire? ==> (ev.ok <==> live[ev.key] < ev.maxConn)
  {
    if ev.Acquire? {
      assert live[ev.key] == Count(m, ev.key);
    }
  }

  ghost function Held(live: multiset<string>): set<string> {
    set k | k in live
  }

  ghost predicate HeldAt(events: seq<Event>, i: nat, peak: nat)
    requires i <= |events|
  {
    |Held(LiveAfter(events, i))| <= peak
  }

  /** At most `peak` keys are ever held at once. */
  ghost predicate HeldWithin(events: seq<Event>, peak: nat) {
    forall i | 0 <= i <= |events| :: HeldAt(events, i, peak)
  }

  /** A new key is admitted to a full table without an idle entry only next to held keys. */
  lemma FullTable(m: Counts, live: multiset<string>)
    requires CountsGuards(m, live) && !HasIdle(m)
    ensures m.Keys == Held(live)
  {
    assert forall k :: k in m ==> live[k] == m[k] > 0;
    assert forall k :: k in Held(live) ==> Count(m, k) > 0;
  }

  /** Event `i` asks for a cap of at least 1, if caps are meant to be positive. */
  ghost predicate CapAt(events: seq<Event>, i: nat, capsPositive: bool)
    requires i < |events|
  {
    capsPositive && events[i].Acquire? ==> events[i].maxConn >= 1
  }

  ghost predicate CapsWithin(events: seq<Event>, capsPositive: bool) {
    forall i | 0 <= i < |events| :: CapAt(events, i, capsPositive)
  }

  /** With every cap at least 1 the table never exceeds its limit or the most keys ever held at
      once; with caps of 0 it can exceed them by one. */
  lemma {:induction false} TableStaysBounded(maxEntries: nat, tables: seq<Counts>, events: seq<Event>,
                                             n: nat, peak: nat, capsPositive: bool, bound: nat)
    requires IsRun(maxEntries, tables, events) && n < |tables|
    requires HeldWithin(events, peak) && CapsWithin(events, capsPositive)
    requires bound == Max(maxEntries, peak + if capsPositive then 0 else 1)
    ensures |tables[n]| <= bound
  {
    if n > 0 {
      TableStaysBounded(maxEntries, tables, events, n - 1, peak, capsPositive, bound);
      StepBoundAt(maxEntries, tables, events, n - 1, peak, capsPositive, bound);
    }
  }

  lemma StepBoundAt(maxEntries: nat, tables: seq<Counts>, events: seq<Event>,
                    i: nat, peak: nat, capsPositive: bool, bound: nat)
    requires IsRun(maxEntries, tables, events) && i < |events| && |tables[i]| <= bound
    requires HeldWithin(events, peak) && CapsWithin(events, capsPositive)
    requires bound == Max(maxEntries, peak + if capsPositive then 0 else 1)
    ensures |tables[i + 1]| <= bound
  {
    CountsAreLiveGuards(maxEntries, tables, events, i);
    assert StepAt(maxEntries, tables, events, i) && CapAt(events, i, capsPositive);
    assert HeldAt(events, i, peak) && HeldAt(events, i + 1, peak);
    StepBound(maxEntries, tables[i], LiveAfter(events, i), events[i], tables[i + 1],
              peak, capsPositive, bound);
  }

  lemma StepBound(maxEntries: nat, m: Counts, live: multiset<string>, ev: Event, m': Counts,
                  peak: nat, capsPositive: bool, bound: nat)
    requires CountsGuards(m, live) && Step(maxEntries, m, ev, m')
    requires bound == Max(maxEntries, peak + if capsPositive then 0 else 1) && |m| <= bound
    requires |Held(live)| <= peak && |Held(Guards(live, ev))| <= peak
    requires capsPositive && ev.Acquire? ==> ev.maxConn >= 1
    ensures |m'| <= bound
  {
    StepSize(maxEntries, m, live, ev, m');
    HeldGrows(live, ev);
  }

  /** What one event does to the size of the table. */
  lemma StepSize(maxEntries: nat, m: Counts, live: multiset<string>, ev: Event, m': Counts)
    requires CountsGuards(m, live) && Step(maxEntries, m, ev, m')
    ensures || |m'| <= Max(|m|, maxEntries)
            || (ev.Acquire? && |m'| == |Held(live)| + 1 && ev.key !in Held(live) && ev.ok == (ev.maxConn > 0))
  {
    if ev.Acquire? && ev.key !in m {
      var room := Drop(m, ev.purged);
      assert m'.Keys == room.Keys + {ev.key};
      if ev.purged.Some? {
        assert room.Keys == m.Keys - {ev.purged.value};
      } else if |m| >= maxEntries {
        FullTable(m, live);
      }
    } else {
      assert m'.Keys == m.Keys;
    }
  }

  lemma HeldGrows(live: multiset<string>, ev: Event)
    ensures ev.Acquire? && ev.ok && ev.key !in Held(live) ==> |Held(Guards(live, ev))| == |Held(live)| + 1
  {
    if ev.Acquire? && ev.ok {
      assert Held(Guards(live, ev)) == Held(live) + {ev.key};
    }
  }

  /** An entry is purged only for a new key, from a full table, and when nobody holds its key. */
  lemma PurgesOnlyWhenFull(maxEntries: nat, m: Counts, live: multiset<string>, ev: Event, m': Counts)
    requires CountsGuards(m, live) && Step(maxEntries, m, ev, m') && ev.Acquire? && ev.purged.Some?
    ensures ev.key !in m && |m| >= maxEntries && ev.purged.value in m && live[ev.purged.value] == 0
  {
    assert live[ev.purged.value] == Count(m, ev.purged.value);
  }

  // ----- Caps of 0 -----

  /** A refused key is entered in a full table without an idle entry. */
  ghost predicate EntersRefused(maxEntries: nat, m: Counts, ev: Event) {
    ev.Acquire? && ev.maxConn == 0 && ev.key !in m && |m| >= maxEntries && !HasIdle(m)
  }

  /** The table grows past its size, its limit and the keys held afterwards exactly when a cap of 0
      enters a refused key; it then exceeds them by one. */
  lemma GrowsPastIff(maxEntries: nat, m: Counts, live: multiset<string>, ev: Event, m': Counts)
    requires CountsGuards(m, live) && Step(maxEntries, m, ev, m')
    ensures var bound := Max(Max(|m|, maxEntries), |Held(Guards(live, ev))|);
            && (|m'| > bound <==> EntersRefused(maxEntries, m, ev))
            && (|m'| > bound ==> |m'| == bound + 1)
  {
    StepSize(maxEntries, m, live, ev, m');
    HeldGrows(live, ev);
    if EntersRefused(maxEntries, m, ev) {
      FullTable(m, live);
      assert m'.Keys == m.Keys + {ev.key};
      assert Guards(live, ev) == live;
    }
  }

  ghost predicate RefusedAt(maxEntries: nat, tables: seq<Counts>, events: seq<Event>, i: nat)
    requires |tables| == |events| + 1 && i < |events|
  {
    EntersRefused(maxEntries, tables[i], events[i])
  }

  /** A run whose table never takes in a refused key stays within the bound for positive caps,
      whatever its caps. */
  lemma {:induction false} BoundedUnlessRefused(maxEntries: nat, tables: seq<Counts>, events: seq<Event>,
                                                n: nat, peak: nat)
    requires IsRun(maxEntries, tables, events) && n < |tables| && HeldWithin(events, peak)
    requires forall i | 0 <= i < n :: !RefusedAt(maxEntries, tables, events, i)
    ensures |tables[n]| <= Max(maxEntries, peak)
  {
    if n > 0 {
      BoundedUnlessRefused(maxEntries, tables, events, n - 1, peak);
      UnrefusedStep(maxEntries, tables, events, n - 1, peak);
    }
  }

  lemma UnrefusedStep(maxEntries: nat, tables: seq<Counts>, events: seq<Event>, i: nat, peak: nat)
    requires IsRun(maxEntries, tables, events) && i < |events| && HeldWithin(events, peak)
    requires !RefusedAt(maxEntries, tables, events, i) && |tables[i]| <= Max(maxEntries, peak)
    ensures |tables[i + 1]| <= Max(maxEntries, peak)
  {
    CountsAreLiveGuards(maxEntries, tables, events, i);
    assert StepAt(maxEntries, tables, events, i) && HeldAt(events, i + 1, peak);
    GrowsPastIff(maxEntries, tables[i], LiveAfter(events, i), events[i], tables[i + 1]);
  }

  // For every limit there is a run that exceeds it: fill the table with held keys, then refuse one.

  ghost function Name(i: nat): string {
    seq(i, _ => 'k')
  }

  /** The table with the first `n` names held once each. */
  ghost function Full(n: nat): Counts {
    if n == 0 then map[] else Full(n - 1)[Name(n - 1) := 1]
  }

  ghost function FillEvent(limit: nat, i: nat): Event {
    Acquire(Name(i), if i < limit then 1 else 0, i < limit, None)
  }

  ghost function FillEvents(limit: nat): seq<Event> {
    seq(limit + 1, i requires 0 <= i <= limit => FillEvent(limit, i))
  }

  ghost function FillTables(limit: nat): seq<Counts> {
    seq(limit + 2, i requires 0 <= i < limit + 2 =>
          if i <= limit then Full(i) else Full(limit)[Name(limit) := 0])
  }

  lemma {:induction false} FullHolds(n: nat, i: nat)
    requires i >= n
    ensures |Full(n)| == n && Name(i) !in Full(n)
    ensures !HasIdle(Full(n))
  {
    if n > 0 {
      FullHolds(n - 1, i);
      FullHolds(n - 1, n - 1);
      assert |Name(i)| != |Name(n - 1)|;
      assert Full(n).Keys == Full(n - 1).Keys + {Name(n - 1)};
    }
  }

  lemma FillStep(limit: nat, i: nat)
    requires i <= limit
    ensures Step(limit, FillTables(limit)[i], FillEvents(limit)[i], FillTables(limit)[i + 1])
  {
    FullHolds(i, i);
  }

  lemma HeldByOneMore(live: multiset<string>, ev: Event)
    ensures |Held(Guards(live, ev))| <= |Held(live)| + if ev.Acquire? && ev.ok then 1 else 0
  {
    var before, after := Held(live), Held(Guards(live, ev));
    if ev.Acquire? && ev.ok {
      assert after == before + {ev.key};
    } else {
      SubsetSize(after, before);
    }
  }

  lemma {:induction false} FillHeld(limit: nat, i: nat)
    requires i <= limit + 1
    ensures |Held(LiveAfter(FillEvents(limit), i))| <= Min(i, limit)
  {
    if i == 0 {
      assert Held(multiset{}) == {};
    } else {
      FillHeld(limit, i - 1);
      HeldByOneMore(LiveAfter(FillEvents(limit), i - 1), FillEvent(limit, i - 1));
    }
  }

  /** With a cap of 0 the bound for positive caps fails by one, for every limit. */
  lemma ZeroCapGrowsTable(limit: nat)
    ensures var events, tables := FillEvents(limit), FillTables(limit);
            && IsRun(limit, tables, events) && HeldWithin(events, limit)
            && |tables[limit + 1]| == Max(limit, limit) + 1
  {
    var events, tables := FillEvents(limit), FillTables(limit);
    forall i | 0 <= i < |events| ensures StepAt(limit, tables, events, i) {
      FillStep(limit, i);
    }
    forall i | 0 <= i <= |events| ensures HeldAt(events, i, limit) {
      FillHeld(limit, i);
    }
    FullHolds(limit, limit);
    assert tables[limit + 1].Keys == Full(limit).Keys + {Name(limit)};
  }
}
