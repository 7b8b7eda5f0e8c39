/** `limit_req` of src/limit.rs: one token bucket per key in a table of bounded size, with
    least-recently-touched eviction.  Tokens and clock readings are exact reals. */
module LimitReq {
  import opened Common

  datatype Bucket = Bucket(tokens: real, last: real)

  type Table = map<string, Bucket>

  datatype Limits = Limits(rate: real, maxEntries: nat)

  function Capacity(burst: nat): real { burst as real + 1.0 }

  function MinReal(a: real, b: real): real { if a <= b then a else b }

  /** `Instant::duration_since` saturates at zero. */
  function Elapsed(now: real, last: real): real {
    if now >= last then now - last else 0.0
  }

  /** What a rate grants over a span of time. */
  function Grant(rate: real, span: real): real { span * rate }

  function Refill(b: Bucket, burst: nat, rate: real, now: real): real {
    MinReal(b.tokens + Grant(rate, Elapsed(now, b.last)), Capacity(burst))
  }

  function Find(m: Table, key: string): Option<Bucket> {
    if key in m then Some(m[key]) else None
  }

  /** One request against one bucket (a missing bucket starts full): the bucket afterwards and
      whether the request is accepted. */
  function Touch(b: Option<Bucket>, burst: nat, rate: real, now: real): (Bucket, bool) {
    var start := if b.Some? then b.value else Bucket(Capacity(burst), now);
    var t := Refill(start, burst, rate, now);
    if t >= 1.0 then (Bucket(t - 1.0, now), true) else (Bucket(t, now), false)
  }

  ghost predicate LeastRecent(m: Table, k: string) {
    k in m && forall j | j in m :: m[k].last <= m[j].last
  }

  /** Which key, if any, makes way for `key`. */
  ghost predicate MakesWay(m: Table, maxEntries: nat, key: string, evicted: Option<string>) {
    if key !in m && |m| >= maxEntries && m != map[]
    then evicted.Some? && LeastRecent(m, evicted.value)
    else evicted.None?
  }

  function Drop(m: Table, evicted: Option<string>): Table {
    if evicted.Some? then m - {evicted.value} else m
  }

  datatype Call = Call(key: string, burst: nat, now: real, ok: bool, evicted: Option<string>)

  ghost predicate Step(z: Limits, m: Table, c: Call, m': Table) {
    && MakesWay(m, z.maxEntries, c.key, c.evicted)
    && var room := Drop(m, c.evicted);
       var (bucket, ok) := Touch(Find(room, c.key), c.burst, z.rate, c.now);
       c.ok == ok && m' == room[c.key := bucket]
  }

  /** The `min_by` scan over the table, in any order. */
  method FindOldest(m: Table) returns (oldest: Option<string>)
    ensures oldest.None? <==> m == map[]
    ensures oldest.Some? ==> LeastRecent(m, oldest.value)
  {
    oldest := None;
    var keys := m.Keys;
    while keys != {}
      invariant keys <= m.Keys
      invariant oldest.None? ==> keys == m.Keys
      invariant oldest.Some? ==> oldest.value in m
      invariant oldest.Some? ==> forall j | j in m.Keys - keys :: m[oldest.value].last <= m[j].last
      decreases |keys|
    {
      var k :| k in keys;
      if oldest.None? || m[k].last < m[oldest.value].last {
        oldest := Some(k);
      }
      keys := keys - {k};
    }
  }

  class LimitReqZone {
    const limits: Limits
    var buckets: Table

    constructor (rate: real, maxEntries: nat)
      ensures limits == Limits(rate, maxEntries) && buckets == map[]
    {
      limits, buckets := Limits(rate, maxEntries), map[];
    }

    method Allow(key: string, burst: nat, now: real) returns (ok: bool, ghost evicted: Option<string>)
      modifies this
      ensures Step(limits, old(buckets), Call(key, burst, now, ok, evicted), buckets)
    {
      evicted := None;
      var capacity := Capacity(burst);
      if key !in buckets && |buckets| >= limits.maxEntries {
        var oldest := FindOldest(buckets);
        if oldest.Some? {
          buckets := buckets - {oldest.value};
        }
        evicted := oldest;
      }
      ghost var room := buckets;
      if key !in buckets {
        buckets := buckets[key := Bucket(capacity, now)];
      }
      var elapsed := Elapsed(now, buckets[key].last);
      var tokens := MinReal(buckets[key].tokens + Grant(limits.rate, elapsed), capacity);
      if tokens >= 1.0 {
        buckets := buckets[key := Bucket(tokens - 1.0, now)];
        ok := true;
      } else {
        buckets := buckets[key := Bucket(tokens, now)];
        ok := false;
      }
      assert (buckets[key], ok) == Touch(Find(room, key), burst, limits.rate, now);
      assert buckets == room[key := buckets[key]];
    }
  }

  // ----- Runs -----

  ghost predicate StepAt(z: Limits, tables: seq<Table>, calls: seq<Call>, i: nat)
    requires |tables| == |calls| + 1 && i < |calls|
  {
    Step(z, tables[i], calls[i], tables[i + 1])
  }

  ghost predicate IsRun(z: Limits, tables: seq<Table>, calls: seq<Call>) {
    && |tables| == |calls| + 1
    && forall i | 0 <= i < |calls| :: StepAt(z, tables, calls, i)
  }

  ghost predicate Ascending(times: seq<real>) {
    forall i, j | 0 <= i <= j < |times| :: times[i] <= times[j]
  }

  ghost predicate MonotoneClock(calls: seq<Call>) {
    forall i, j | 0 <= i <= j < |calls| :: calls[i].now <= calls[j].now
  }

  /** The table never outgrows its cap (a cap of 0 still leaves room for one bucket). */
  lemma {:induction false} TableStaysBounded(z: Limits, tables: seq<Table>, calls: seq<Call>, n: nat)
    requires IsRun(z, tables, calls) && n < |tables|
    requires |tables[0]| <= Max(1, z.maxEntries)
    ensures |tables[n]| <= Max(1, z.maxEntries)
  {
    if n > 0 {
      TableStaysBounded(z, tables, calls, n - 1);
      assert StepAt(z, tables, calls, n - 1);
      var m, c := tables[n - 1], calls[n - 1];
      var room := Drop(m, c.evicted);
      assert room.Keys == if c.evicted.Some? then m.Keys - {c.evicted.value} else m.Keys;
      assert tables[n].Keys == room.Keys + {c.key};
      assert |room.Keys + {c.key}| <= |room.Keys| + 1;
    }
  }

  /** A key's tokens lie between 0 and `burst + 1`. */
  ghost predicate InRange(m: Table, key: string, burst: nat) {
    key in m ==> 0.0 <= m[key].tokens <= Capacity(burst)
  }

  ghost predicate BurstsWithin(calls: seq<Call>, key: string, burst: nat) {
    forall i | 0 <= i < |calls| && calls[i].key == key :: calls[i].burst <= burst
  }

  lemma GrantNonnegative(rate: real, span: real)
    requires rate >= 0.0 && span >= 0.0
    ensures Grant(rate, span) >= 0.0
  {
  }

  lemma GrantAdds(rate: real, a: real, b: real)
    ensures Grant(rate, a + b) == Grant(rate, a) + Grant(rate, b)
  {
  }

  lemma {:induction false} TokensStayInRange(z: Limits, tables: seq<Table>, calls: seq<Call>,
                                             key: string, burst: nat, n: nat)
    requires IsRun(z, tables, calls) && n < |tables| && z.rate >= 0.0
    requires BurstsWithin(calls, key, burst) && InRange(tables[0], key, burst)
    ensures InRange(tables[n], key, burst)
  {
    if n > 0 {
      TokensStayInRange(z, tables, calls, key, burst, n - 1);
      assert StepAt(z, tables, calls, n - 1);
      var m, c := tables[n - 1], calls[n - 1];
      if c.key == key && key in m {
        GrantNonnegative(z.rate, Elapsed(c.now, m[key].last));
      }
    }
  }

  ghost function Accepted(calls: seq<Call>, key: string, n: nat): nat
    requires n <= |calls|
  {
    if n == 0 then 0
    else Accepted(calls, key, n - 1) + if calls[n - 1].key == key && calls[n - 1].ok then 1 else 0
  }

  ghost function Evictions(calls: seq<Call>, key: string, n: nat): nat
    requires n <= |calls|
  {
    if n == 0 then 0
    else Evictions(calls, key, n - 1) + if calls[n - 1].evicted == Some(key) then 1 else 0
  }

  /** How far the clock readings of the first `n` calls moved forward, adding up all steps. */
  ghost function Forward(calls: seq<Call>, n: nat): (f: real)
    requires n <= |calls|
    ensures f >= 0.0
  {
    if n <= 1 then 0.0
    else Forward(calls, n - 1) + Elapsed(calls[n - 1].now, calls[n - 2].now)
  }

  /** How far they moved back: calls that read the clock before, and took the lock after, a
      racing call. */
  ghost function Drift(calls: seq<Call>, n: nat): (d: real)
    requires n <= |calls|
    ensures d >= 0.0
  {
    if n <= 1 then 0.0
    else Drift(calls, n - 1) + Elapsed(calls[n - 2].now, calls[n - 1].now)
  }

  /** The forward steps are the time between the first and the last call plus the drift. */
  lemma {:induction false} ForwardIsSpanPlusDrift(calls: seq<Call>, n: nat)
    requires 0 < n <= |calls|
    ensures Forward(calls, n) == calls[n - 1].now - calls[0].now + Drift(calls, n)
  {
    if n > 1 {
      ForwardIsSpanPlusDrift(calls, n - 1);
    }
  }

  lemma {:induction false} MonotoneHasNoDrift(calls: seq<Call>, n: nat)
    requires MonotoneClock(calls) && n <= |calls|
    ensures Drift(calls, n) == 0.0
  {
    if n > 1 {
      MonotoneHasNoDrift(calls, n - 1);
      assert calls[n - 2].now <= calls[n - 1].now;
    }
  }

  /** The potential of a key, `forward` being the forward steps of a stretch whose latest clock
      reading is `now`: the requests it has accepted, plus what its bucket holds or may still be
      granted for steps already made, are covered by one full bucket per eviction (`credit` in
      all), one for the present bucket, and the refill over `forward`.  A bucket from before the
      stretch that has not been touched has accepted nothing. */
  ghost predicate Covered(m: Table, key: string, burst: nat, rate: real, now: real, forward: real,
                          accepted: real, credit: real)
  {
    if key !in m then accepted <= credit + Grant(rate, forward)
    else
      || accepted == 0.0 <= credit
      || accepted + m[key].tokens + Grant(rate, Elapsed(now, m[key].last))
         <= credit + Capacity(burst) + Grant(rate, forward)
  }

  /** The time since a reading grows by no more than the forward steps made since. */
  lemma GrantOverStep(rate: real, last: real, now: real, next: real, forward: real)
    requires rate >= 0.0
    ensures Grant(rate, forward + Elapsed(next, now)) == Grant(rate, forward) + Grant(rate, Elapsed(next, now))
    ensures Grant(rate, Elapsed(next, last)) <= Grant(rate, Elapsed(now, last)) + Grant(rate, Elapsed(next, now))
    ensures 0.0 <= Grant(rate, Elapsed(next, now)) && 0.0 <= Grant(rate, Elapsed(next, last))
  {
    GrantAdds(rate, forward, Elapsed(next, now));
    GrantAdds(rate, Elapsed(now, last), Elapsed(next, now));
    var slack := Elapsed(now, last) + Elapsed(next, now) - Elapsed(next, last);
    GrantAdds(rate, Elapsed(next, last), slack);
    GrantNonnegative(rate, slack);
    GrantNonnegative(rate, Elapsed(next, now));
    GrantNonnegative(rate, Elapsed(next, last));
  }

  lemma TouchedNow(rate: real, now: real)
    ensures Grant(rate, Elapsed(now, now)) == 0.0
  {
  }

  /** A request on a bucket, present or new. */
  lemma TouchSpends(b: Option<Bucket>, burst: nat, rate: real, now: real)
    requires rate >= 0.0
    ensures var (b', ok) := Touch(b, burst, rate, now);
            var spent := (if ok then 1.0 else 0.0) + b'.tokens;
            && b'.last == now && spent <= Capacity(burst)
            && (b.Some? ==> spent <= b.value.tokens + Grant(rate, Elapsed(now, b.value.last)))
  {
    TouchedNow(rate, now);
  }

  lemma StepCovered(z: Limits, m: Table, c: Call, m': Table, key: string, burst: nat,
                    now: real, forward: real, accepted: real, credit: real)
    requires Step(z, m, c, m') && z.rate >= 0.0 && forward >= 0.0 && credit >= 0.0
    requires c.key == key ==> c.burst <= burst
    requires InRange(m, key, burst)
    requires Covered(m, key, burst, z.rate, now, forward, accepted, credit)
    ensures Covered(m', key, burst, z.rate, c.now, forward + Elapsed(c.now, now),
                    accepted + (if c.key == key && c.ok then 1.0 else 0.0),
                    credit + (if c.evicted == Some(key) then Capacity(burst) else 0.0))
  {
    GrantNonnegative(z.rate, forward);
    GrantOverStep(z.rate, if key in m then m[key].last else now, now, c.now, forward);
    if key in m {
      GrantNonnegative(z.rate, Elapsed(now, m[key].last));
    }
    if c.key == key {
      TouchSpends(Find(m, key), c.burst, z.rate, c.now);
      TouchedNow(z.rate, c.now);
    }
  }

  /** One full bucket for each eviction of the key. */
  ghost function EvictionCredit(calls: seq<Call>, key: string, burst: nat, n: nat): (c: real)
    requires n <= |calls|
    ensures c >= 0.0
  {
    if n == 0 then 0.0
    else EvictionCredit(calls, key, burst, n - 1)
         + if calls[n - 1].evicted == Some(key) then Capacity(burst) else 0.0
  }

  lemma {:induction false} CreditIsProduct(calls: seq<Call>, key: string, burst: nat, n: nat)
    requires n <= |calls|
    ensures EvictionCredit(calls, key, burst, n) == Evictions(calls, key, n) as real * Capacity(burst)
  {
    if n > 0 {
      CreditIsProduct(calls, key, burst, n - 1);
    }
  }

  lemma {:induction false} Potential(z: Limits, tables: seq<Table>, calls: seq<Call>,
                                     key: string, burst: nat, n: nat)
    requires IsRun(z, tables, calls) && 0 < n <= |calls| && z.rate >= 0.0
    requires BurstsWithin(calls, key, burst) && InRange(tables[0], key, burst)
    ensures Covered(tables[n], key, burst, z.rate, calls[n - 1].now, Forward(calls, n),
                    Accepted(calls, key, n) as real, EvictionCredit(calls, key, burst, n))
  {
    var c := calls[n - 1];
    var before := if n == 1 then c.now else calls[n - 2].now;
    var accepted, credit := Accepted(calls, key, n - 1) as real, EvictionCredit(calls, key, burst, n - 1);
    assert Covered(tables[n - 1], key, burst, z.rate, before, Forward(calls, n - 1), accepted, credit) by {
      if n > 1 {
        Potential(z, tables, calls, key, burst, n - 1);
      } else {
        assert Grant(z.rate, 0.0) == 0.0;
      }
    }
    assert StepAt(z, tables, calls, n - 1);
    TokensStayInRange(z, tables, calls, key, burst, n - 1);
    StepCovered(z, tables[n - 1], c, tables[n], key, burst, before, Forward(calls, n - 1), accepted, credit);
  }

  lemma AcceptedWithinCredit(z: Limits, tables: seq<Table>, calls: seq<Call>, key: string, burst: nat)
    requires IsRun(z, tables, calls) && calls != [] && z.rate >= 0.0
    requires BurstsWithin(calls, key, burst) && InRange(tables[0], key, burst)
    ensures Accepted(calls, key, |calls|) as real
         <= EvictionCredit(calls, key, burst, |calls|) + Capacity(burst) + Grant(z.rate, Forward(calls, |calls|))
  {
    var n := |calls|;
    Potential(z, tables, calls, key, burst, n);
    TokensStayInRange(z, tables, calls, key, burst, n);
    GrantNonnegative(z.rate, Forward(calls, n));
    if key in tables[n] {
      GrantNonnegative(z.rate, Elapsed(calls[n - 1].now, tables[n][key].last));
    }
  }

  /** Token-bucket bound: in any stretch of any run, the requests of one key that are accepted
      number at most (1 + evictions of the key) * (burst + 1) + rate * F, where F is how far the
      clock moved forward from call to call and `burst` bounds the bursts the key is called with. */
  lemma TokenBucketBound(z: Limits, tables: seq<Table>, calls: seq<Call>, key: string, burst: nat)
    requires IsRun(z, tables, calls) && calls != [] && z.rate >= 0.0
    requires BurstsWithin(calls, key, burst) && InRange(tables[0], key, burst)
    ensures Accepted(calls, key, |calls|) as real
         <= (1 + Evictions(calls, key, |calls|)) as real * Capacity(burst) + Grant(z.rate, Forward(calls, |calls|))
  {
    AcceptedWithinCredit(z, tables, calls, key, burst);
    OneMoreBucket(calls, key, burst, |calls|);
  }

  /** When calls take the lock in the order of their clock readings, F is the time T that the
      stretch spans. */
  lemma TokenBucketBoundInOrder(z: Limits, tables: seq<Table>, calls: seq<Call>, key: string, burst: nat)
    requires IsRun(z, tables, calls) && calls != [] && z.rate >= 0.0 && MonotoneClock(calls)
    requires BurstsWithin(calls, key, burst) && InRange(tables[0], key, burst)
    ensures Accepted(calls, key, |calls|) as real
         <= (1 + Evictions(calls, key, |calls|)) as real * Capacity(burst)
            + Grant(z.rate, calls[|calls| - 1].now - calls[0].now)
  {
    TokenBucketBound(z, tables, calls, key, burst);
    ForwardIsSpanPlusDrift(calls, |calls|);
    MonotoneHasNoDrift(calls, |calls|);
  }

  /** A call that evicts nobody does to the table what it does to its bucket. */
  lemma CallInPlace(z: Limits, m: Table, c: Call, bucket: Bucket)
    requires c.evicted.None? && (c.key in m || m == map[])
    requires Touch(Find(m, c.key), c.burst, z.rate, c.now) == (bucket, c.ok)
    ensures Step(z, m, c, m[c.key := bucket])
  {
  }

  // ----- The bound with the time spanned -----

  /** A stretch of a run whose calls read `times[at..]`, and a key called with bursts up to `burst`. */
  ghost predicate Reads(z: Limits, tables: seq<Table>, calls: seq<Call>, key: string, burst: nat,
                        times: seq<real>, at: nat)
  {
    && IsRun(z, tables, calls) && calls != [] && z.rate >= 0.0
    && BurstsWithin(calls, key, burst) && InRange(tables[0], key, burst)
    && at + |calls| <= |times| && forall i | 0 <= i < |calls| :: calls[i].now == times[at + i]
  }

  ghost predicate WithinSpan(z: Limits, calls: seq<Call>, key: string, burst: nat)
    requires calls != []
  {
    Accepted(calls, key, |calls|) as real
    <= (1 + Evictions(calls, key, |calls|)) as real * Capacity(burst)
       + Grant(z.rate, calls[|calls| - 1].now - calls[0].now)
  }

  /** Whatever the limits, the keys and the bursts, calls that read the clock at these times stay
      within the bound for the time they span. */
  ghost predicate SpanBounds(times: seq<real>) {
    forall z, tables, calls, key, burst, at: nat | Reads(z, tables, calls, key, burst, times, at) ::
      WithinSpan(z, calls, key, burst)
  }

  lemma {:induction false} FirstDescent(times: seq<real>) returns (k: nat)
    requires !Ascending(times)
    ensures k + 1 < |times| && times[k] > times[k + 1]
  {
    var i, j :| 0 <= i <= j < |times| && times[i] > times[j];
    k := i;
    while times[k] <= times[k + 1]
      invariant i <= k < j && times[k] > times[j]
      decreases j - k
    {
      k := k + 1;
    }
  }

  ghost function LatePair(key: string, a: real, b: real): seq<Call> {
    [Call(key, 1, a, true, None), Call(key, 1, b, true, None)]
  }

  ghost function LatePairTables(key: string, a: real, b: real): seq<Table> {
    [map[], map[key := Bucket(1.0, a)], map[key := Bucket(0.0, b)]]
  }

  /** A new key called twice, the second time with an older reading: both are accepted. */
  lemma LatePairRun(z: Limits, key: string, a: real, b: real)
    requires a > b && z.rate == 1.0
    ensures IsRun(z, LatePairTables(key, a, b), LatePair(key, a, b))
    ensures Accepted(LatePair(key, a, b), key, 2) == 2 && Evictions(LatePair(key, a, b), key, 2) == 0
  {
    var tables, calls := LatePairTables(key, a, b), LatePair(key, a, b);
    assert Grant(1.0, 0.0) == 0.0;
    assert Touch(None, 1, 1.0, a) == (Bucket(1.0, a), true);
    assert Touch(Some(Bucket(1.0, a)), 1, 1.0, b) == (Bucket(0.0, b), true);
    CallInPlace(z, tables[0], calls[0], Bucket(1.0, a));
    CallInPlace(z, tables[1], calls[1], Bucket(0.0, b));
    assert tables[1][key := Bucket(0.0, b)] == tables[2];
    assert StepAt(z, tables, calls, 0) && StepAt(z, tables, calls, 1);
    assert Accepted(calls, key, 1) == 1 && Evictions(calls, key, 1) == 0;
  }

  lemma DescentBreaksSpan(times: seq<real>, k: nat)
    requires k + 1 < |times| && times[k] > times[k + 1]
    ensures !SpanBounds(times)
  {
    var a, b, z, key := times[k], times[k + 1], Limits(1.0, 0), "";
    var tables, calls := LatePairTables(key, a, b), LatePair(key, a, b);
    LatePairRun(z, key, a, b);
    assert Reads(z, tables, calls, key, 1, times, k);
    assert Grant(1.0, b - a) == b - a;
    assert !WithinSpan(z, calls, key, 1);
  }

  /** The time spanned bounds the accepted requests of every run over given readings exactly when
      the readings are in order. */
  lemma SpanBoundsIffInOrder(times: seq<real>)
    ensures SpanBounds(times) <==> Ascending(times)
  {
    if !Ascending(times) {
      var k := FirstDescent(times);
      DescentBreaksSpan(times, k);
    } else {
      forall z, tables, calls, key, burst, at: nat | Reads(z, tables, calls, key, burst, times, at)
        ensures WithinSpan(z, calls, key, burst)
      {
        TokenBucketBoundInOrder(z, tables, calls, key, burst);
      }
    }
  }

  /** Two callers that take turns with readings 0 and 1: every other call is late. */
  ghost function SwingCall(key: string, i: nat): Call {
    Call(key, 0, if i % 2 == 0 then 0.0 else 1.0, i == 0 || i % 2 == 1, None)
  }

  ghost function SwingCalls(key: string, n: nat): seq<Call> {
    seq(n, i requires 0 <= i < n => SwingCall(key, i))
  }

  ghost function SwingTable(key: string, i: nat): Table {
    if i == 0 then map[] else map[key := Bucket(0.0, SwingCall(key, i - 1).now)]
  }

  ghost function SwingTables(key: string, n: nat): seq<Table> {
    seq(n + 1, i requires 0 <= i <= n => SwingTable(key, i))
  }

  lemma Alternates(i: nat)
    requires i > 0
    ensures i % 2 == 1 <==> (i - 1) % 2 == 0
  {
  }

  /** A touch on an empty bucket, with readings 0 and 1. */
  lemma SwingTouch(before: real, now: real)
    requires (before == 0.0 && now == 1.0) || (before == 1.0 && now == 0.0)
    ensures Touch(Some(Bucket(0.0, before)), 0, 1.0, now) == (Bucket(0.0, now), now == 1.0)
  {
    assert Elapsed(now, before) == now;
    assert Grant(1.0, now) == now;
  }

  lemma SwingFirst(z: Limits, key: string)
    requires z.rate == 1.0
    ensures Step(z, map[], Call(key, 0, 0.0, true, None), map[key := Bucket(0.0, 0.0)])
  {
    assert Grant(1.0, 0.0) == 0.0;
    assert Touch(None, 0, 1.0, 0.0) == (Bucket(0.0, 0.0), true);
    CallInPlace(z, map[], Call(key, 0, 0.0, true, None), Bucket(0.0, 0.0));
  }

  lemma SwingPair(z: Limits, key: string, before: real, now: real)
    requires z.rate == 1.0
    requires (before == 0.0 && now == 1.0) || (before == 1.0 && now == 0.0)
    ensures Step(z, map[key := Bucket(0.0, before)], Call(key, 0, now, now == 1.0, None), map[key := Bucket(0.0, now)])
  {
    var m: Table := map[key := Bucket(0.0, before)];
    SwingTouch(before, now);
    CallInPlace(z, m, Call(key, 0, now, now == 1.0, None), Bucket(0.0, now));
    assert m[key := Bucket(0.0, now)] == map[key := Bucket(0.0, now)];
  }

  lemma SwingStep(z: Limits, key: string, i: nat)
    requires z.rate == 1.0
    ensures Step(z, SwingTable(key, i), SwingCall(key, i), SwingTable(key, i + 1))
  {
    var low, high: Table := map[key := Bucket(0.0, 0.0)], map[key := Bucket(0.0, 1.0)];
    if i == 0 {
      assert SwingTable(key, 0) == map[] && SwingTable(key, 1) == low;
      SwingFirst(z, key);
    } else if i % 2 == 1 {
      Alternates(i);
      assert SwingTable(key, i) == low && SwingTable(key, i + 1) == high;
      assert SwingCall(key, i) == Call(key, 0, 1.0, true, None);
      SwingPair(z, key, 0.0, 1.0);
    } else {
      Alternates(i);
      assert SwingTable(key, i) == high && SwingTable(key, i + 1) == low;
      assert SwingCall(key, i) == Call(key, 0, 0.0, false, None);
      SwingPair(z, key, 1.0, 0.0);
    }
  }

  lemma {:induction false} SwingCounts(key: string, n: nat, k: nat)
    requires 0 < k <= n
    ensures Accepted(SwingCalls(key, n), key, k) == 1 + k / 2
    ensures Evictions(SwingCalls(key, n), key, k) == 0
    ensures Forward(SwingCalls(key, n), k) == (k / 2) as real
  {
    if k > 1 {
      SwingCounts(key, n, k - 1);
    }
  }

  lemma StepThere(z: Limits, tables: seq<Table>, calls: seq<Call>, i: nat, m: Table, c: Call, m': Table)
    requires |tables| == |calls| + 1 && i < |calls|
    requires tables[i] == m && calls[i] == c && tables[i + 1] == m' && Step(z, m, c, m')
    ensures StepAt(z, tables, calls, i)
  {
  }

  lemma SwingIsRun(z: Limits, key: string, n: nat)
    requires z.rate == 1.0
    ensures IsRun(z, SwingTables(key, n), SwingCalls(key, n))
  {
    var calls, tables := SwingCalls(key, n), SwingTables(key, n);
    forall i | 0 <= i < n ensures StepAt(z, tables, calls, i) {
      SwingStep(z, key, i);
      StepThere(z, tables, calls, i, SwingTable(key, i), SwingCall(key, i), SwingTable(key, i + 1));
    }
  }

  lemma OneMoreThan(half: nat, rate: real)
    requires rate == 1.0
    ensures (1 + half) as real == Capacity(0) + Grant(rate, half as real)
  {
  }

  /** The time spanned does not bound the accepted requests when calls are late: this run spans
      at most one second at rate 1 and burst 0, yet half of its calls are accepted.  It meets the
      bound of `TokenBucketBound` with equality. */
  lemma LateCallsOutrunSpan(z: Limits, key: string, n: nat)
    requires z.rate == 1.0 && n > 0
    ensures var calls, tables := SwingCalls(key, n), SwingTables(key, n);
            && IsRun(z, tables, calls) && tables[0] == map[]
            && calls[n - 1].now - calls[0].now <= 1.0
            && Accepted(calls, key, n) == 1 + n / 2 && Evictions(calls, key, n) == 0
            && Accepted(calls, key, n) as real == Capacity(0) + Grant(z.rate, Forward(calls, n))
  {
    SwingIsRun(z, key, n);
    SwingCounts(key, n, n);
    OneMoreThan(n / 2, z.rate);
  }

  lemma OneMoreBucket(calls: seq<Call>, key: string, burst: nat, n: nat)
    requires n <= |calls|
    ensures EvictionCredit(calls, key, burst, n) + Capacity(burst)
         == (1 + Evictions(calls, key, n)) as real * Capacity(burst)
  {
    CreditIsProduct(calls, key, burst, n);
  }

  // ----- Who is evicted -----

  ghost predicate StrictClock(calls: seq<Call>) {
    forall i, j | 0 <= i < j < |calls| :: calls[i].now < calls[j].now
  }

  /** Call `p` is the last of the first `n` calls for a key. */
  ghost predicate LastCall(calls: seq<Call>, key: string, p: nat, n: nat)
    requires n <= |calls|
  {
    p < n && calls[p].key == key && forall i | p < i < n :: calls[i].key != key
  }

  /** A bucket carries the reading of its key's last call. */
  lemma {:induction false} LastTouch(z: Limits, tables: seq<Table>, calls: seq<Call>, key: string, n: nat)
    returns (p: nat)
    requires IsRun(z, tables, calls) && tables[0] == map[] && n <= |calls| && key in tables[n]
    ensures LastCall(calls, key, p, n) && tables[n][key].last == calls[p].now
  {
    assert n > 0;
    assert StepAt(z, tables, calls, n - 1);
    if calls[n - 1].key == key {
      p := n - 1;
    } else {
      p := LastTouch(z, tables, calls, key, n - 1);
    }
  }

  ghost function CalledAfter(calls: seq<Call>, p: nat, n: nat): set<string>
    requires n < |calls|
  {
    set i | p < i <= n :: calls[i].key
  }

  /** With calls in strict order eviction is least recently used: since its last call `p`, the
      evicted key has seen calls for at least `max_entries` others. */
  lemma EvictedIsLeastRecent(z: Limits, tables: seq<Table>, calls: seq<Call>, n: nat) returns (p: nat)
    requires IsRun(z, tables, calls) && tables[0] == map[] && StrictClock(calls)
    requires n < |calls| && calls[n].evicted.Some?
    ensures LastCall(calls, calls[n].evicted.value, p, n)
    ensures calls[n].evicted.value !in CalledAfter(calls, p, n)
    ensures |CalledAfter(calls, p, n)| >= z.maxEntries
  {
    var k, m := calls[n].evicted.value, tables[n];
    assert StepAt(z, tables, calls, n);
    p := LastTouch(z, tables, calls, k, n);
    var others := m.Keys - {k} + {calls[n].key};
    assert k in m && calls[n].key !in m && |m| >= z.maxEntries;
    assert |others| == |m|;
    assert k !in CalledAfter(calls, p, n);
    forall j | j in others ensures j in CalledAfter(calls, p, n) {
      if j == calls[n].key {
        assert calls[n].key in CalledAfter(calls, p, n);
      } else {
        var q := LastTouch(z, tables, calls, j, n);
        assert m[k].last <= m[j].last;
        assert p < q && calls[q].key == j;
      }
    }
    SubsetSize(others, CalledAfter(calls, p, n));
  }

  /** The table after a call, which leaves its key's bucket with its own reading. */
  ghost function AfterCall(m: Table, c: Call, tokens: real): Table {
    Drop(m, c.evicted)[c.key := Bucket(tokens, c.now)]
  }

  lemma StepIsAfterCall(z: Limits, m: Table, c: Call, m': Table)
    requires Step(z, m, c, m')
    ensures c.key in m' && m' == AfterCall(m, c, m'[c.key].tokens)
  {
  }

  /** A bucket is evicted only for a new key and only from a full table. */
  lemma EvictsOnlyWhenFull(z: Limits, m: Table, c: Call, m': Table)
    requires Step(z, m, c, m') && c.evicted.Some?
    ensures c.key !in m && |m| >= z.maxEntries && c.evicted.value in m && c.evicted.value != c.key
    ensures m'.Keys == m.Keys - {c.evicted.value} + {c.key}
  {
  }

  /** A late call makes its key the next victim, although it was called last. */
  lemma LateCallIsEvicted(m: Table, c: Call, tokens: real, maxEntries: nat, next: string, evicted: Option<string>)
    requires forall j | j in m && j != c.key :: c.now < m[j].last
    requires var m' := AfterCall(m, c, tokens);
             next !in m' && |m'| >= maxEntries && MakesWay(m', maxEntries, next, evicted)
    ensures evicted == Some(c.key)
  {
    var m' := AfterCall(m, c, tokens);
    assert c.key in m' && m'[c.key].last == c.now;
    assert LeastRecent(m', evicted.value);
    assert forall j | j in m' && j != c.key :: j in m && m'[j] == m[j];
  }

  // ----- Denied requests are free -----

  /** The decisions of one bucket over a sequence of request times. */
  ghost function Replay(b: Option<Bucket>, burst: nat, rate: real, times: seq<real>): (ds: seq<bool>)
    ensures |ds| == |times|
    decreases times
  {
    if times == [] then []
    else
      var (b', ok) := Touch(b, burst, rate, times[0]);
      [ok] + Replay(Some(b'), burst, rate, times[1..])
  }

  /** The elements at the positions marked in `keep`. */
  ghost function Keep<T>(xs: seq<T>, keep: seq<bool>): seq<T>
    requires |xs| == |keep|
  {
    if xs == [] then []
    else (if keep[0] then [xs[0]] else []) + Keep(xs[1..], keep[1..])
  }

  ghost predicate Between(p: real, x: real, q: real) {
    p <= x <= q || q <= x <= p
  }

  /** Whoever is left out reads the clock between the call kept before it and the call after it.
      `kept` is the latest kept reading and `last` the latest reading. */
  ghost predicate Orderly(kept: real, last: real, times: seq<real>, keep: seq<bool>)
    requires |keep| == |times|
    decreases times
  {
    times == [] || (Between(kept, last, times[0])
                    && Orderly(if keep[0] then times[0] else kept, times[0], times[1..], keep[1..]))
  }

  /** `a` is what `b` becomes if it is only refilled until `a.last`. */
  ghost predicate RefillOf(a: Option<Bucket>, b: Option<Bucket>, burst: nat, rate: real) {
    match (a, b)
    case (None, None) => true
    case (Some(x), Some(y)) => x.tokens == Refill(y, burst, rate, x.last)
    case _ => false
  }

  /** Clamped refill composes over an interval split at a reading in between. */
  lemma RefillComposes(x: Bucket, y: Bucket, burst: nat, rate: real, now: real)
    requires rate >= 0.0 && RefillOf(Some(x), Some(y), burst, rate) && Between(y.last, x.last, now)
    ensures Refill(x, burst, rate, now) == Refill(y, burst, rate, now)
  {
    GrantAdds(rate, Elapsed(x.last, y.last), Elapsed(now, x.last));
    GrantNonnegative(rate, Elapsed(now, x.last));
  }

  lemma GrantOrder(rate: real, a: real, b: real)
    requires rate > 0.0
    ensures a < b <==> Grant(rate, a) < Grant(rate, b)
  {
  }

  /** When one denied call is free.  A bucket is called at `x`, which is denied, and then at `now`.
      The second call finds what it would have found without the first exactly when `x` was read
      between the bucket's last reading and `now`, or the bucket is full by `now` anyhow. */
  lemma DeniedCallIsFreeIff(b: Bucket, burst: nat, rate: real, x: real, now: real)
    requires rate > 0.0 && !Touch(Some(b), burst, rate, x).1
    ensures Touch(Some(Touch(Some(b), burst, rate, x).0), burst, rate, now) == Touch(Some(b), burst, rate, now)
       <==> Between(b.last, x, now) || Refill(b, burst, rate, now) == Capacity(burst)
  {
    var direct, detour := Elapsed(now, b.last), Elapsed(x, b.last) + Elapsed(now, x);
    GrantAdds(rate, Elapsed(x, b.last), Elapsed(now, x));
    GrantOrder(rate, direct, detour);
    assert direct <= detour && (direct == detour <==> Between(b.last, x, now));
  }

  lemma TouchSoon(b: Bucket, burst: nat, rate: real)
    requires b.tokens <= Capacity(burst)
    ensures Touch(Some(b), burst, rate, b.last) ==
            if b.tokens >= 1.0 then (Bucket(b.tokens - 1.0, b.last), true) else (b, false)
  {
    TouchedNow(rate, b.last);
  }

  /** Buckets that hold different amounts show it: some later calls are decided differently. */
  lemma {:induction false} TokensShow(x: Bucket, y: Bucket, burst: nat, rate: real) returns (times: seq<real>)
    requires rate > 0.0 && x.last == y.last && 0.0 <= x.tokens < y.tokens <= Capacity(burst)
    ensures Replay(Some(x), burst, rate, times) != Replay(Some(y), burst, rate, times)
    decreases x.tokens.Floor
  {
    TouchSoon(x, burst, rate);
    TouchSoon(y, burst, rate);
    if x.tokens >= 1.0 {
      var x', y' := Bucket(x.tokens - 1.0, x.last), Bucket(y.tokens - 1.0, y.last);
      var rest := TokensShow(x', y', burst, rate);
      times := [x.last] + rest;
      assert times[1..] == rest;
      assert Replay(Some(x), burst, rate, times)[1..] == Replay(Some(x'), burst, rate, rest);
      assert Replay(Some(y), burst, rate, times)[1..] == Replay(Some(y'), burst, rate, rest);
    } else if y.tokens >= 1.0 {
      times := [x.last];
      assert Replay(Some(x), burst, rate, times)[0] != Replay(Some(y), burst, rate, times)[0];
    } else {
      times := [WhenFull(y, rate)];
      FirstToken(x, y, burst, rate);
      assert Replay(Some(x), burst, rate, times)[0] != Replay(Some(y), burst, rate, times)[0];
    }
  }

  /** When a bucket with less than one token will hold one. */
  ghost function WhenFull(y: Bucket, rate: real): real
    requires rate > 0.0
  {
    y.last + (1.0 - y.tokens) / rate
  }

  lemma FirstToken(x: Bucket, y: Bucket, burst: nat, rate: real)
    requires rate > 0.0 && x.last == y.last && 0.0 <= x.tokens < y.tokens < 1.0
    ensures !Touch(Some(x), burst, rate, WhenFull(y, rate)).1 && Touch(Some(y), burst, rate, WhenFull(y, rate)).1
  {
    var wait := (1.0 - y.tokens) / rate;
    assert wait * rate == 1.0 - y.tokens;
    assert wait > 0.0;
    assert Grant(rate, wait) == 1.0 - y.tokens;
    assert Elapsed(WhenFull(y, rate), y.last) == wait;
  }

  lemma TouchRefilled(a: Option<Bucket>, b: Option<Bucket>, burst: nat, rate: real, now: real)
    requires rate >= 0.0 && RefillOf(a, b, burst, rate)
    requires a.Some? ==> Between(b.value.last, a.value.last, now)
    ensures Touch(a, burst, rate, now) == Touch(b, burst, rate, now)
    ensures var (b', ok) := Touch(a, burst, rate, now);
            && b'.last == now
            && RefillOf(Some(b'), Some(b'), burst, rate)
            && (!ok ==> RefillOf(Some(b'), b, burst, rate))
  {
    if a.Some? {
      RefillComposes(a.value, b.value, burst, rate, now);
    }
  }

  /** Where a bucket stands before its first call. */
  ghost function LastOf(b: Option<Bucket>, times: seq<real>): real {
    if b.Some? then b.value.last else if times != [] then times[0] else 0.0
  }

  /** The same in terms of decisions: whatever calls follow at `now` and later, they are decided as
      if `x` had not been, exactly under that condition. */
  lemma DeniedCallNeverShowsIff(b: Bucket, burst: nat, rate: real, x: real, now: real)
    requires rate > 0.0 && 0.0 <= b.tokens <= Capacity(burst) && !Touch(Some(b), burst, rate, x).1
    ensures var late := Touch(Some(b), burst, rate, x).0;
            ((forall times :: Replay(Some(late), burst, rate, [now] + times) == Replay(Some(b), burst, rate, [now] + times))
             <==> Between(b.last, x, now) || Refill(b, burst, rate, now) == Capacity(burst))
  {
    var late := Touch(Some(b), burst, rate, x).0;
    var (p, okp) := Touch(Some(late), burst, rate, now);
    var (q, okq) := Touch(Some(b), burst, rate, now);
    DeniedCallIsFreeIff(b, burst, rate, x, now);
    forall times
      ensures Replay(Some(late), burst, rate, [now] + times) == [okp] + Replay(Some(p), burst, rate, times)
      ensures Replay(Some(b), burst, rate, [now] + times) == [okq] + Replay(Some(q), burst, rate, times)
    {
      assert ([now] + times)[1..] == times;
    }
    if (p, okp) != (q, okq) {
      var times := [];
      if okp == okq {
        AfterTouch(late, burst, rate, now);
        AfterTouch(b, burst, rate, now);
        if p.tokens < q.tokens {
          times := TokensShow(p, q, burst, rate);
        } else {
          times := TokensShow(q, p, burst, rate);
        }
        assert ([okp] + Replay(Some(p), burst, rate, times))[1..] == Replay(Some(p), burst, rate, times);
        assert ([okq] + Replay(Some(q), burst, rate, times))[1..] == Replay(Some(q), burst, rate, times);
      } else {
        assert ([okp] + Replay(Some(p), burst, rate, times))[0] != ([okq] + Replay(Some(q), burst, rate, times))[0];
      }
      assert Replay(Some(late), burst, rate, [now] + times) != Replay(Some(b), burst, rate, [now] + times);
    }
  }

  lemma AfterTouch(b: Bucket, burst: nat, rate: real, now: real)
    requires rate > 0.0 && 0.0 <= b.tokens
    ensures var b' := Touch(Some(b), burst, rate, now).0; b'.last == now && 0.0 <= b'.tokens <= Capacity(burst)
  {
    GrantNonnegative(rate, Elapsed(now, b.last));
  }

  lemma {:induction false} DenialsLeaveNoTrace(a: Option<Bucket>, b: Option<Bucket>, burst: nat, rate: real,
                                               times: seq<real>, keep: seq<bool>)
    requires rate >= 0.0 && |keep| == |times|
    requires RefillOf(a, b, burst, rate)
    requires Orderly(LastOf(b, times), LastOf(a, times), times, keep)
    requires forall i | 0 <= i < |times| && !keep[i] :: !Replay(a, burst, rate, times)[i]
    ensures Replay(b, burst, rate, Keep(times, keep)) == Keep(Replay(a, burst, rate, times), keep)
    decreases times
  {
    if times != [] {
      var now, rest := times[0], times[1..];
      TouchRefilled(a, b, burst, rate, now);
      var (a', ok) := Touch(a, burst, rate, now);
      var tail := Replay(Some(a'), burst, rate, rest);
      assert Replay(a, burst, rate, times) == [ok] + tail;
      assert forall i | 0 <= i < |rest| :: ([ok] + tail)[i + 1] == tail[i];
      assert ([ok] + tail)[1..] == tail;
      DenialsLeaveNoTrace(Some(a'), if keep[0] then Some(a') else b, burst, rate, rest, keep[1..]);
      var kept := Keep(rest, keep[1..]);
      if keep[0] {
        assert Keep(times, keep) == [now] + kept;
        assert ([now] + kept)[1..] == kept;
        assert Replay(b, burst, rate, [now] + kept) == [ok] + Replay(Some(a'), burst, rate, kept);
      } else {
        assert Keep(times, keep) == kept;
      }
    }
  }

  ghost function TimesOf(calls: seq<Call>, key: string): seq<real> {
    if calls == [] then []
    else (if calls[0].key == key then [calls[0].now] else []) + TimesOf(calls[1..], key)
  }

  ghost function DecisionsOf(calls: seq<Call>, key: string): seq<bool> {
    if calls == [] then []
    else (if calls[0].key == key then [calls[0].ok] else []) + DecisionsOf(calls[1..], key)
  }

  /** The key is called with one burst value and never evicted. */
  ghost predicate Undisturbed(calls: seq<Call>, key: string, burst: nat) {
    forall i | 0 <= i < |calls| ::
      calls[i].evicted != Some(key) && (calls[i].key == key ==> calls[i].burst == burst)
  }

  /** An undisturbed key sees its own bucket only. */
  lemma {:induction false} KeyRunsAlone(z: Limits, tables: seq<Table>, calls: seq<Call>, key: string, burst: nat)
    requires IsRun(z, tables, calls) && Undisturbed(calls, key, burst)
    ensures DecisionsOf(calls, key) == Replay(Find(tables[0], key), burst, z.rate, TimesOf(calls, key))
    decreases calls
  {
    if calls != [] {
      assert StepAt(z, tables, calls, 0);
      forall i | 0 <= i < |calls[1..]| ensures StepAt(z, tables[1..], calls[1..], i) {
        assert StepAt(z, tables, calls, i + 1);
      }
      KeyRunsAlone(z, tables[1..], calls[1..], key, burst);
      assert calls[0].evicted != Some(key);
      if calls[0].key == key {
        assert TimesOf(calls, key)[1..] == TimesOf(calls[1..], key);
      } else {
        assert Find(tables[1], key) == Find(tables[0], key);
        assert [] + TimesOf(calls[1..], key) == TimesOf(calls[1..], key);
        assert [] + DecisionsOf(calls[1..], key) == DecisionsOf(calls[1..], key);
      }
    }
  }

  /** Denied requests are free: take a run in which a key is never evicted and uses one burst
      value, and any second run whose calls for that key are the first run's calls with some
      denied ones left out, each of which read the clock between its neighbours.  Every remaining
      call gets the same decision. */
  lemma DeniedRequestsAreFree(z: Limits, tables: seq<Table>, calls: seq<Call>,
                              tables': seq<Table>, calls': seq<Call>,
                              key: string, burst: nat, keep: seq<bool>)
    requires z.rate >= 0.0
    requires IsRun(z, tables, calls) && Undisturbed(calls, key, burst)
    requires IsRun(z, tables', calls') && Undisturbed(calls', key, burst)
    requires Find(tables[0], key) == Find(tables'[0], key)
    requires InRange(tables[0], key, burst)
    requires |keep| == |TimesOf(calls, key)| == |DecisionsOf(calls, key)|
    requires var start := LastOf(Find(tables[0], key), TimesOf(calls, key));
             Orderly(start, start, TimesOf(calls, key), keep)
    requires forall i | 0 <= i < |keep| && !keep[i] :: !DecisionsOf(calls, key)[i]
    requires TimesOf(calls', key) == Keep(TimesOf(calls, key), keep)
    ensures DecisionsOf(calls', key) == Keep(DecisionsOf(calls, key), keep)
  {
    var start := Find(tables[0], key);
    KeyRunsAlone(z, tables, calls, key, burst);
    KeyRunsAlone(z, tables', calls', key, burst);
    DenialsLeaveNoTrace(start, start, burst, z.rate, TimesOf(calls, key), keep);
  }

  /** Whatever is left out of calls that take the lock in the order of their readings. */
  lemma {:induction false} AscendingIsOrderly(kept: real, last: real, times: seq<real>, keep: seq<bool>)
    requires |keep| == |times| && Ascending(times) && kept <= last && (times != [] ==> last <= times[0])
    ensures Orderly(kept, last, times, keep)
    decreases times
  {
    if times != [] {
      assert forall i | 0 <= i < |times[1..]| :: times[1..][i] == times[i + 1];
      AscendingIsOrderly(if keep[0] then times[0] else kept, times[0], times[1..], keep[1..]);
    }
  }

  lemma {:induction false} TimesAscend(calls: seq<Call>, key: string)
    requires MonotoneClock(calls)
    ensures Ascending(TimesOf(calls, key))
    ensures forall i | 0 <= i < |TimesOf(calls, key)| :: calls != [] && calls[0].now <= TimesOf(calls, key)[i]
  {
    if calls != [] {
      assert forall i | 0 <= i < |calls[1..]| :: calls[1..][i] == calls[i + 1];
      TimesAscend(calls[1..], key);
    }
  }

  /** In a run without late calls every choice of denied calls may be left out. */
  lemma MonotoneIsOrderly(z: Limits, tables: seq<Table>, calls: seq<Call>, key: string, keep: seq<bool>)
    requires IsRun(z, tables, calls) && MonotoneClock(calls) && |keep| == |TimesOf(calls, key)|
    requires key in tables[0] && calls != [] ==> tables[0][key].last <= calls[0].now
    ensures var start := LastOf(Find(tables[0], key), TimesOf(calls, key));
            Orderly(start, start, TimesOf(calls, key), keep)
  {
    TimesAscend(calls, key);
    var start := LastOf(Find(tables[0], key), TimesOf(calls, key));
    AscendingIsOrderly(start, start, TimesOf(calls, key), keep);
  }

  /** A late denied call is not free: it sets the bucket's reading back, and the next call is
      granted the time in between once more.  On a new bucket with burst 0 the call after it is
      accepted, and denied without it. */
  lemma LateDenialCounts(rate: real)
    requires rate > 0.0
    ensures var q := 1.0 / rate;
            && Replay(None, 0, rate, [q, 0.0, q]) == [true, false, true]
            && Replay(None, 0, rate, [q, q]) == [true, false]
  {
    var q := 1.0 / rate;
    var spent, late := Bucket(0.0, q), Bucket(0.0, 0.0);
    assert Grant(rate, 0.0) == 0.0 && Grant(rate, q) == 1.0;
    assert Touch(None, 0, rate, q) == (spent, true);
    assert Touch(Some(spent), 0, rate, 0.0) == (late, false);
    assert Touch(Some(spent), 0, rate, q) == (spent, false);
    assert Touch(Some(late), 0, rate, q) == (spent, true);
    assert [q, 0.0, q][1..] == [0.0, q] && [0.0, q][1..] == [q] && [q, q][1..] == [q] && [q][1..] == [];
    assert Replay(Some(spent), 0, rate, [q]) == [false];
    assert Replay(Some(late), 0, rate, [q]) == [true];
    assert Replay(Some(spent), 0, rate, [0.0, q]) == [false, true];
  }

  // ----- What a new key is granted -----

  ghost function Times(n: nat, now: real): seq<real> {
    seq(n, _ => now)
  }

  lemma {:induction false} SpendsAll(tokens: nat, burst: nat, rate: real, now: real)
    requires tokens <= burst + 1
    ensures var ds := Replay(Some(Bucket(tokens as real, now)), burst, rate, Times(tokens + 1, now));
            (forall i | 0 <= i < tokens :: ds[i]) && !ds[tokens]
  {
    var b, times := Bucket(tokens as real, now), Times(tokens + 1, now);
    TouchSoon(b, burst, rate);
    assert times[1..] == Times(tokens, now);
    if tokens > 0 {
      SpendsAll(tokens - 1, burst, rate, now);
      assert (tokens - 1) as real == tokens as real - 1.0;
    }
  }

  /** A new key is granted `burst + 1` requests at one reading, and no more. */
  lemma NewKeyBurst(burst: nat, rate: real, now: real)
    ensures var ds := Replay(None, burst, rate, Times(burst + 2, now));
            (forall i | 0 <= i < burst + 1 :: ds[i]) && !ds[burst + 1]
  {
    SpendsAll(burst + 1, burst, rate, now);
    TouchedNow(rate, now);
    var full := Bucket((burst + 1) as real, now);
    assert Touch(None, burst, rate, now) == Touch(Some(full), burst, rate, now);
  }

  /** After a denial, the key is granted its next request as soon as the rate has made up for the
      token that it lacks, and not before. */
  lemma NextGrant(b: Bucket, burst: nat, rate: real, wait: real)
    requires rate > 0.0 && wait >= 0.0 && 0.0 <= b.tokens < 1.0
    ensures Touch(Some(b), burst, rate, b.last + wait).1 <==> b.tokens + wait * rate >= 1.0
  {
  }
}
