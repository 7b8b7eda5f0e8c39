/** Whole runs of the response cache: every sequence of lookups and stores that starts from
    an empty zone of `max` bytes.  Stores are the ones `forward` makes through
    `maybe_cache`, never of a server error, each with the rules of the location it comes from,
    since several locations may share a zone.  Readings of the clock come in any order, because
    they are taken before the lock. */
module CacheRuns {
  import opened Common
  import opened VarySignature
  import opened ResponseCache
  import opened CachePolicy

  datatype Event =
    | Looked(key: string, req: Headers, now: nat, hit: Option<Entry>)
    | Stored(key: string, req: Headers, resp: Response, rules: seq<Rule>, ttl: nat, now: nat,
             victims: seq<Victim>, mid: State)
  {
    ghost function Entry(): Entry
      requires Stored?
    {
      EntryFor(req, resp, now + ttl)
    }

    /** This store put its entry in the table: it was not larger than the whole budget. */
    ghost predicate Accepted(max: nat) {
      Stored? && EntryBytes(Entry()) <= max
    }
  }

  ghost predicate Step(max: nat, s: State, ev: Event, s': State) {
    match ev
    case Looked(key, req, now, hit) =>
      hit == Hit(s, key, req, now) && s' == AfterGet(s, key, now)
    case Stored(key, req, resp, rules, ttl, now, victims, mid) =>
      && !ServerError(resp.status)
      && Decide(true, resp.headers, resp.status, |resp.body|, rules) == Store(ttl)
      && Puts(s, key, ev.Entry(), max, victims, mid, s')
  }

  ghost predicate IsRun(max: nat, states: seq<State>, events: seq<Event>) {
    && |states| == |events| + 1
    && states[0] == State(map[], 0)
    && forall i | 0 <= i < |events| :: StepAt(max, states, events, i)
  }

  ghost predicate StepAt(max: nat, states: seq<State>, events: seq<Event>, i: nat)
    requires |states| == |events| + 1 && i < |events|
  {
    Step(max, states[i], events[i], states[i + 1])
  }

  /** Accounting: in every state of every run the byte counter is the sum of the entry sizes
      and within budget, no key has an empty list, and signatures are distinct. */
  lemma {:induction false} RunKeepsInv(max: nat, states: seq<State>, events: seq<Event>, i: nat)
    requires IsRun(max, states, events) && i < |states|
    ensures Inv(states[i], max)
  {
    if i > 0 {
      RunKeepsInv(max, states, events, i - 1);
      assert StepAt(max, states, events, i - 1);
      match events[i - 1]
      case Looked(key, _, now, _) =>
        GetKeepsInv(states[i - 1], key, now, max);
      case Stored(key, _, _, _, _, _, victims, mid) =>
        PutKeepsInv(states[i - 1], key, events[i - 1].Entry(), max, victims, mid, states[i]);
    }
  }

  /** The event takes the entry out of the table: a lookup finds it expired, an eviction
      picks what is filed under its signature, or a newer entry replaces it. */
  ghost predicate Drops(max: nat, ev: Event, key: string, e: Entry) {
    match ev
    case Looked(k, _, now, _) => k == key && e.expiresAt <= now
    case Stored(k, _, _, _, _, _, victims, _) =>
      || Taken(victims, key, e.varySignature)
      || (ev.Accepted(max) && k == key && ev.Entry().varySignature == e.varySignature)
  }

  /** The event stores the entry under the key. */
  ghost predicate Enters(max: nat, ev: Event, key: string, e: Entry) {
    ev.Accepted(max) && ev.key == key && ev.Entry() == e
  }

  /** Event `j` stored the entry and no event before `i` dropped it. */
  ghost predicate LiveSince(max: nat, events: seq<Event>, i: nat, key: string, e: Entry, j: nat)
    requires i <= |events|
  {
    && j < i
    && Enters(max, events[j], key, e)
    && forall m | j < m < i :: !Drops(max, events[m], key, e)
  }

  lemma StepHolds(max: nat, s: State, ev: Event, s': State, key: string, e: Entry)
    requires Inv(s, max) && Step(max, s, ev, s')
    ensures Holds(s'.entries, key, e)
       <==> Enters(max, ev, key, e) || (Holds(s.entries, key, e) && !Drops(max, ev, key, e))
  {
    match ev
    case Looked(k, _, now, _) =>
      GetHolds(s, k, now, key, e);
    case Stored(k, _, _, _, _, _, victims, mid) =>
      PutHolds(s, k, ev.Entry(), max, victims, mid, s', key, e);
  }

  ghost predicate Live(max: nat, events: seq<Event>, i: nat, key: string, e: Entry)
    requires i <= |events|
  {
    exists j: nat :: LiveSince(max, events, i, key, e, j)
  }

  /** What an entry in the table after event `i` says about the event. */
  lemma LiveBefore(max: nat, events: seq<Event>, i: nat, key: string, e: Entry, j: nat)
    requires i < |events| && LiveSince(max, events, i + 1, key, e, j)
    ensures j == i ==> Enters(max, events[i], key, e)
    ensures j < i ==> LiveSince(max, events, i, key, e, j)
                      && !Drops(max, events[i], key, e) && !Enters(max, events[i], key, e)
  {
    assert j < i ==> !Drops(max, events[i], key, e);
  }

  lemma LiveStays(max: nat, events: seq<Event>, n: nat, key: string, e: Entry)
    requires n < |events|
    requires Enters(max, events[n], key, e) || (Live(max, events, n, key, e) && !Drops(max, events[n], key, e))
    ensures Live(max, events, n + 1, key, e)
  {
    if Enters(max, events[n], key, e) {
      assert LiveSince(max, events, n + 1, key, e, n);
    } else {
      var j: nat :| LiveSince(max, events, n, key, e, j);
      assert LiveSince(max, events, n + 1, key, e, j);
    }
  }

  lemma LiveStep(max: nat, events: seq<Event>, n: nat, key: string, e: Entry)
    requires n < |events|
    ensures Live(max, events, n + 1, key, e)
       <==> Enters(max, events[n], key, e) || (Live(max, events, n, key, e) && !Drops(max, events[n], key, e))
  {
    if Live(max, events, n + 1, key, e) && !Enters(max, events[n], key, e) {
      var j: nat :| LiveSince(max, events, n + 1, key, e, j);
      LiveBefore(max, events, n, key, e, j);
    } else if Enters(max, events[n], key, e) || (Live(max, events, n, key, e) && !Drops(max, events[n], key, e)) {
      LiveStays(max, events, n, key, e);
    }
  }

  lemma HistoryStep(max: nat, states: seq<State>, events: seq<Event>, i: nat, key: string, e: Entry)
    requires IsRun(max, states, events) && i < |events|
    requires Holds(states[i].entries, key, e) <==> Live(max, events, i, key, e)
    ensures Holds(states[i + 1].entries, key, e) <==> Live(max, events, i + 1, key, e)
  {
    RunKeepsInv(max, states, events, i);
    assert StepAt(max, states, events, i);
    StepHolds(max, states[i], events[i], states[i + 1], key, e);
    LiveStep(max, events, i, key, e);
  }

  /** The table always holds exactly the accepted stores that no later event dropped. */
  lemma {:induction false} TableIsHistory(max: nat, states: seq<State>, events: seq<Event>, i: nat,
                                          key: string, e: Entry)
    requires IsRun(max, states, events) && i < |states|
    ensures Holds(states[i].entries, key, e) <==> Live(max, events, i, key, e)
  {
    if i > 0 {
      TableIsHistory(max, states, events, i - 1, key, e);
      HistoryStep(max, states, events, i - 1, key, e);
    }
  }

  lemma {:induction false} MatchIsMember(vs: seq<Entry>, req: Headers)
    ensures FirstMatch(vs, req).Some? ==>
              var e := FirstMatch(vs, req).value;
              e in vs && Signature(req, e.varyHeaders) == e.varySignature
    ensures FirstMatch(vs, req).None? ==>
              forall e | e in vs :: Signature(req, e.varyHeaders) != e.varySignature
  {
    if vs != [] {
      MatchIsMember(vs[1..], req);
    }
  }

  /** Soundness of hits: whatever a lookup returns has the status, headers and body of a response
      that was stored under the same key by an earlier event, was cacheable when stored and no server error, has not expired, and its storing request showed the
      same value as this one for every header in its Vary list. */
  lemma HitIsSound(max: nat, states: seq<State>, events: seq<Event>, i: nat)
    requires IsRun(max, states, events) && i < |events|
    requires events[i].Looked? && events[i].hit.Some?
    ensures var e := events[i].hit.value;
            && e.expiresAt > events[i].now && !ServerError(e.status)
            && exists j: nat ::
                 && LiveSince(max, events, i, events[i].key, e, j)
                 && events[j].Stored? && events[j].key == events[i].key
                 && e.status == events[j].resp.status && e.headers == events[j].resp.headers
                 && e.body == events[j].resp.body && e.varyHeaders == VaryList(events[j].resp.headers)
                 && Decide(true, e.headers, e.status, |e.body|, events[j].rules) == Store(events[j].ttl)
                 && e.expiresAt == events[j].now + events[j].ttl
                 && forall n | 0 <= n < |e.varyHeaders| ::
                      VaryValue(events[i].req, e.varyHeaders[n]) == VaryValue(events[j].req, e.varyHeaders[n])
  {
    var s, ev := states[i], events[i];
    assert StepAt(max, states, events, i);
    var e := ev.hit.value;
    var vs := Variants(s.entries, ev.key);
    MatchIsMember(Fresh(vs, ev.now), ev.req);
    FreshMember(vs, ev.now, e);
    TableIsHistory(max, states, events, i, ev.key, e);
    var j: nat :| LiveSince(max, events, i, ev.key, e, j);
    assert StepAt(max, states, events, j);
    SignatureInjective(ev.req, events[j].req, e.varyHeaders);
  }

  /** Server errors never enter the table, whatever statuses the rules cover. */
  lemma NoServerErrorHeld(max: nat, states: seq<State>, events: seq<Event>, i: nat, key: string, e: Entry)
    requires IsRun(max, states, events) && i < |states| && Holds(states[i].entries, key, e)
    ensures !ServerError(e.status)
  {
    TableIsHistory(max, states, events, i, key, e);
    var j: nat :| LiveSince(max, events, i, key, e, j);
    assert StepAt(max, states, events, j);
  }

  // ----- The answer of a lookup, whatever the Vary lists -----

  lemma {:induction false} MatchPrecedes(vs: seq<Entry>, req: Headers, f: Entry)
    requires f in vs && Signature(req, f.varyHeaders) == f.varySignature
    ensures FirstMatch(vs, req).Some?
    ensures var e := FirstMatch(vs, req).value; e == f || Precedes(vs, e, f)
  {
    if Signature(req, vs[0].varyHeaders) != vs[0].varySignature {
      MatchPrecedes(vs[1..], req, f);
    }
  }

  /** The order before an event was the same, unless the event stored the second entry; it did not
      store the first. */
  lemma StepPrecedes(max: nat, states: seq<State>, events: seq<Event>, i: nat, key: string, x: Entry, y: Entry)
    requires IsRun(max, states, events) && i < |events|
    requires Precedes(Variants(states[i + 1].entries, key), x, y)
    ensures if events[i].Accepted(max) && events[i].key == key
            then y == events[i].Entry() || (x != events[i].Entry() && Precedes(Variants(states[i].entries, key), x, y))
            else Precedes(Variants(states[i].entries, key), x, y)
  {
    RunKeepsInv(max, states, events, i);
    assert StepAt(max, states, events, i);
    match events[i]
    case Looked(k, _, now, _) =>
      GetPrecedes(states[i], k, now, key, x, y);
    case Stored(k, _, _, _, _, _, victims, mid) =>
      PutPrecedes(states[i], k, events[i].Entry(), max, victims, mid, states[i + 1], key, x, y);
  }

  lemma OlderBefore(max: nat, states: seq<State>, events: seq<Event>, i: nat, key: string,
                    x: Entry, y: Entry, jx: nat, jy: nat)
    requires IsRun(max, states, events) && i < |events|
    requires Precedes(Variants(states[i + 1].entries, key), x, y)
    requires LiveSince(max, events, i + 1, key, x, jx) && LiveSince(max, events, i + 1, key, y, jy)
    ensures jx < i
    ensures jy < i ==>
              && Precedes(Variants(states[i].entries, key), x, y)
              && LiveSince(max, events, i, key, x, jx) && LiveSince(max, events, i, key, y, jy)
  {
    LiveBefore(max, events, i, key, x, jx);
    LiveBefore(max, events, i, key, y, jy);
    StepPrecedes(max, states, events, i, key, x, y);
    RunKeepsInv(max, states, events, i + 1);
    PrecedesDistinct(Variants(states[i + 1].entries, key), x, y);
  }

  /** The variants of a key stand in the order in which they were stored. */
  lemma {:induction false} OlderFirst(max: nat, states: seq<State>, events: seq<Event>, i: nat, key: string,
                                      x: Entry, y: Entry, jx: nat, jy: nat)
    requires IsRun(max, states, events) && i < |states|
    requires Precedes(Variants(states[i].entries, key), x, y)
    requires LiveSince(max, events, i, key, x, jx) && LiveSince(max, events, i, key, y, jy)
    ensures jx < jy
  {
    OlderBefore(max, states, events, i - 1, key, x, y, jx, jy);
    if jy < i - 1 {
      OlderFirst(max, states, events, i - 1, key, x, y, jx, jy);
    }
  }

  /** Store `m` could answer lookup `i`: its entry is still in the table, has not expired, and its
      own Vary list gives the request its signature. */
  ghost predicate Candidate(max: nat, events: seq<Event>, i: nat, m: nat)
    requires i < |events| && events[i].Looked?
  {
    && m < i && events[m].Accepted(max)
    && var e := events[m].Entry();
       && LiveSince(max, events, i, events[i].key, e, m)
       && e.expiresAt > events[i].now
       && Signature(events[i].req, e.varyHeaders) == e.varySignature
  }

  /** Store `j` is the oldest that could. */
  ghost predicate OldestCandidate(max: nat, events: seq<Event>, i: nat, j: nat)
    requires i < |events| && events[i].Looked?
  {
    Candidate(max, events, i, j) && forall m | 0 <= m < j :: !Candidate(max, events, i, m)
  }

  /** A candidate is among the unexpired variants that the lookup scans. */
  lemma CandidateScanned(max: nat, states: seq<State>, events: seq<Event>, i: nat, m: nat)
    requires IsRun(max, states, events) && i < |events| && events[i].Looked? && Candidate(max, events, i, m)
    ensures events[m].Entry() in Fresh(Variants(states[i].entries, events[i].key), events[i].now)
  {
    var e := events[m].Entry();
    TableIsHistory(max, states, events, i, events[i].key, e);
    FreshMember(Variants(states[i].entries, events[i].key), events[i].now, e);
  }

  /** What is answered is a candidate. */
  lemma HitIsCandidate(max: nat, states: seq<State>, events: seq<Event>, i: nat) returns (j: nat)
    requires IsRun(max, states, events) && i < |events| && events[i].Looked? && events[i].hit.Some?
    ensures Candidate(max, events, i, j) && events[j].Entry() == events[i].hit.value
  {
    var s, ev := states[i], events[i];
    assert StepAt(max, states, events, i);
    var e, vs := ev.hit.value, Variants(s.entries, ev.key);
    MatchIsMember(Fresh(vs, ev.now), ev.req);
    FreshMember(vs, ev.now, e);
    TableIsHistory(max, states, events, i, ev.key, e);
    j :| LiveSince(max, events, i, ev.key, e, j);
  }

  /** No candidate is older than the one that answers. */
  lemma HitIsOldest(max: nat, states: seq<State>, events: seq<Event>, i: nat, j: nat, m: nat)
    requires IsRun(max, states, events) && i < |events| && events[i].Looked? && Candidate(max, events, i, m)
    ensures events[i].hit.Some?
    ensures Candidate(max, events, i, j) && events[j].Entry() == events[i].hit.value ==> j <= m
  {
    var s, ev, f := states[i], events[i], events[m].Entry();
    assert StepAt(max, states, events, i);
    var vs := Variants(s.entries, ev.key);
    CandidateScanned(max, states, events, i, m);
    MatchPrecedes(Fresh(vs, ev.now), ev.req, f);
    var e := ev.hit.value;
    if Candidate(max, events, i, j) && events[j].Entry() == e {
      if e == f {
        LiveOnce(max, events, i, ev.key, e, j, m);
      } else {
        FreshPrecedes(vs, ev.now, e, f);
        OlderFirst(max, states, events, i, ev.key, e, f, j, m);
      }
    }
  }

  /** An entry in the table was put there by one event. */
  lemma LiveOnce(max: nat, events: seq<Event>, i: nat, key: string, e: Entry, j: nat, m: nat)
    requires i <= |events| && LiveSince(max, events, i, key, e, j) && LiveSince(max, events, i, key, e, m)
    ensures j == m
  {
    assert Drops(max, events[j], key, e) && Drops(max, events[m], key, e);
  }

  /** The exact answer of every lookup: the entry of the oldest store under its key that is still
      in the table, has not expired and whose own Vary list gives the request its signature. */
  lemma HitIffOldestCandidate(max: nat, states: seq<State>, events: seq<Event>, i: nat, e: Entry)
    requires IsRun(max, states, events) && i < |events| && events[i].Looked?
    ensures events[i].hit == Some(e)
       <==> exists j: nat :: OldestCandidate(max, events, i, j) && events[j].Entry() == e
    ensures events[i].hit == None <==> forall j: nat :: !Candidate(max, events, i, j)
  {
    if events[i].hit.Some? {
      var j := HitIsCandidate(max, states, events, i);
      forall m | 0 <= m < j ensures !Candidate(max, events, i, m) {
        if Candidate(max, events, i, m) {
          HitIsOldest(max, states, events, i, j, m);
        }
      }
      assert OldestCandidate(max, events, i, j);
      forall k: nat | OldestCandidate(max, events, i, k) ensures k == j {
        HitIsOldest(max, states, events, i, j, k);
      }
    }
    forall k: nat | Candidate(max, events, i, k) ensures events[i].hit.Some? {
      HitIsOldest(max, states, events, i, k, k);
    }
  }

  /** When a lookup is answered by the latest store that could: exactly when no other could. */
  lemma LatestAnswersIff(max: nat, states: seq<State>, events: seq<Event>, i: nat, j: nat)
    requires IsRun(max, states, events) && i < |events| && events[i].Looked? && Candidate(max, events, i, j)
    requires forall m | j < m < i :: !Candidate(max, events, i, m)
    ensures events[i].hit == Some(events[j].Entry()) <==> forall m: nat | m != j :: !Candidate(max, events, i, m)
  {
    var e := events[j].Entry();
    HitIffOldestCandidate(max, states, events, i, e);
    if events[i].hit == Some(e) {
      var k: nat :| OldestCandidate(max, events, i, k) && events[k].Entry() == e;
      LiveOnce(max, events, i, events[i].key, e, j, k);
    } else if forall m: nat | m != j :: !Candidate(max, events, i, m) {
      assert OldestCandidate(max, events, i, j);
    }
  }

  /** A variant stored without Vary answers every request: as long as it stays in the table and
      does not expire, nothing stored after it under its key is ever answered. */
  lemma UnvariedVariantShadows(max: nat, states: seq<State>, events: seq<Event>, i: nat, m: nat)
    requires IsRun(max, states, events) && i < |events| && events[i].Looked?
    requires m < i && events[m].Accepted(max) && VaryList(events[m].resp.headers) == []
    requires LiveSince(max, events, i, events[i].key, events[m].Entry(), m)
    requires events[m].Entry().expiresAt > events[i].now
    ensures exists j: nat :: j <= m && OldestCandidate(max, events, i, j)
                             && events[i].hit == Some(events[j].Entry())
  {
    SignatureInjective(events[i].req, events[m].req, []);
    assert Candidate(max, events, i, m);
    HitIsOldest(max, states, events, i, m, m);
    var e := events[i].hit.value;
    HitIffOldestCandidate(max, states, events, i, e);
    var j: nat :| OldestCandidate(max, events, i, j) && events[j].Entry() == e;
    HitIsOldest(max, states, events, i, j, m);
  }

  ghost predicate Storable(resp: Response, rules: seq<Rule>, ttl: nat) {
    ttl > 0 && !ServerError(resp.status) && Decide(true, resp.headers, resp.status, |resp.body|, rules) == Store(ttl)
  }

  /** Two stores under one key from an empty zone, then a lookup. */
  ghost function TwoStores(key: string, e1: Entry, e2: Entry): seq<State> {
    var s0 := State(map[], 0);
    var s1 := Insert(s0, key, e1);
    var s2 := Insert(s1, key, e2);
    [s0, s1, s2, AfterGet(s2, key, 0)]
  }

  /** A run in which the older store wins: any unvaried response, then any varied one under the
      same key, then a lookup by the very request that fetched the second. */
  ghost function ShadowEvents(key: string, r1: Headers, resp1: Response, rules1: seq<Rule>, ttl1: nat,
                              r2: Headers, resp2: Response, rules2: seq<Rule>, ttl2: nat): seq<Event>
  {
    var e1, e2 := EntryFor(r1, resp1, ttl1), EntryFor(r2, resp2, ttl2);
    var s := TwoStores(key, e1, e2);
    [Stored(key, r1, resp1, rules1, ttl1, 0, [], s[0]),
     Stored(key, r2, resp2, rules2, ttl2, 0, [], s[1]),
     Looked(key, r2, 0, Some(e1))]
  }

  lemma ShadowLists(key: string, e1: Entry, e2: Entry)
    requires e1.varySignature != e2.varySignature
    ensures var s := TwoStores(key, e1, e2);
            && Variants(s[1].entries, key) == [e1] && s[1].totalBytes == EntryBytes(e1)
            && Variants(s[2].entries, key) == [e1, e2] && s[2].totalBytes == EntryBytes(e1) + EntryBytes(e2)
  {
    var s := TwoStores(key, e1, e2);
    assert Without([], e1.varySignature) + [e1] == [e1] && BytesAt([], e1.varySignature) == 0;
    assert Without([e1], e2.varySignature) == [e1] by { assert [e1][1..] == []; }
    assert BytesAt([e1], e2.varySignature) == 0 by { assert [e1][1..] == []; }
    assert [e1] + [e2] == [e1, e2];
  }

  lemma OlderStoreWins(max: nat, key: string, r1: Headers, resp1: Response, rules1: seq<Rule>, ttl1: nat,
                       r2: Headers, resp2: Response, rules2: seq<Rule>, ttl2: nat)
    requires Storable(resp1, rules1, ttl1) && VaryList(resp1.headers) == []
    requires Storable(resp2, rules2, ttl2) && VaryList(resp2.headers) != []
    requires EntryBytes(EntryFor(r1, resp1, ttl1)) + EntryBytes(EntryFor(r2, resp2, ttl2)) <= max
    ensures var e1, e2 := EntryFor(r1, resp1, ttl1), EntryFor(r2, resp2, ttl2);
            var events := ShadowEvents(key, r1, resp1, rules1, ttl1, r2, resp2, rules2, ttl2);
            && IsRun(max, TwoStores(key, e1, e2), events)
            && Candidate(max, events, 2, 1) && events[2].hit == Some(events[0].Entry()) && e1 != e2
  {
    var e1, e2 := EntryFor(r1, resp1, ttl1), EntryFor(r2, resp2, ttl2);
    var states := TwoStores(key, e1, e2);
    var events := ShadowEvents(key, r1, resp1, rules1, ttl1, r2, resp2, rules2, ttl2);
    assert e1.varySignature == "" && e2.varySignature != "";
    ShadowLists(key, e1, e2);
    assert StepAt(max, states, events, 0) && StepAt(max, states, events, 1);
    assert Fresh([e1, e2], 0)[0] == e1;
    assert Signature(r2, []) == "" by { assert VaryValues(r2, []) == []; }
    assert Hit(states[2], key, r2, 0) == Some(e1);
    assert StepAt(max, states, events, 2);
    assert LiveSince(max, events, 2, key, e2, 1);
  }

  /** Such as a response without headers, then one that varies on a single header. */
  lemma OlderStoreWinsExample(max: nat, key: string, name: string, req: Headers, body1: string, body2: string, ttl: nat)
    requires Plain(name) && ttl > 0 && |body1| <= MAX_ENTRY_BYTES && |body2| <= MAX_ENTRY_BYTES
    requires var resp1, resp2 := Response(200, [], body1), Response(200, [("vary", name)], body2);
             EntryBytes(EntryFor(req, resp1, ttl)) + EntryBytes(EntryFor(req, resp2, ttl)) <= max
    ensures var resp1, resp2 := Response(200, [], body1), Response(200, [("vary", name)], body2);
            var e1, e2, rules := EntryFor(req, resp1, ttl), EntryFor(req, resp2, ttl), [Rule([], ttl)];
            var events := ShadowEvents(key, req, resp1, rules, ttl, req, resp2, rules, ttl);
            IsRun(max, TwoStores(key, e1, e2), events) && events[2].hit == Some(events[0].Entry())
  {
    var resp1, resp2 := Response(200, [], body1), Response(200, [("vary", name)], body2);
    var rules := [Rule([], ttl)];
    VaryLine(name);
    assert LastRule(rules, 200) == Some(ttl) by { assert rules[1..] == []; }
    OlderStoreWins(max, key, req, resp1, rules, ttl, req, resp2, rules, ttl);
  }

  // ----- Signatures that collide -----

  /** No name in the Vary list of a store contains '='. */
  ghost predicate PlainNames(ev: Event) {
    ev.Stored? && Lacks('=', VaryList(ev.resp.headers))
  }

  /** A store replaces an older variant of its key exactly when their Vary lists and values are the
      same, if no name in the lists contains '='. */
  lemma ReplacesIffSameVariant(a: Event, b: Event)
    requires PlainNames(a) && PlainNames(b)
    ensures var n1, n2 := VaryList(a.resp.headers), VaryList(b.resp.headers);
            (a.Entry().varySignature == b.Entry().varySignature
             <==> n1 == n2 && VaryValues(a.req, n1) == VaryValues(b.req, n2))
  {
    VaryListLacksNul(a.resp.headers);
    VaryListLacksNul(b.resp.headers);
    SignatureSeparates(a.req, VaryList(a.resp.headers), b.req, VaryList(b.resp.headers));
  }

  /** The cost of a collision: in every run, a store takes each variant of its key that has its
      signature out of the table, also one with another Vary list. */
  lemma CollidingStoreReplaces(max: nat, states: seq<State>, events: seq<Event>, m: nat, other: Entry)
    requires IsRun(max, states, events) && m < |events| && events[m].Accepted(max)
    requires other.varySignature == events[m].Entry().varySignature
    requires other.varyHeaders != events[m].Entry().varyHeaders
    ensures !Holds(states[m + 1].entries, events[m].key, other)
  {
    RunKeepsInv(max, states, events, m);
    assert StepAt(max, states, events, m);
    var ev := events[m];
    PutHolds(states[m], ev.key, ev.Entry(), max, ev.victims, ev.mid, states[m + 1], ev.key, other);
  }

  ghost function Varying(name: string, body: string): Response {
    Response(200, [("vary", name)], body)
  }

  /** A run with a collision: a response that varies on `name=rest`, then one that varies on
      `name`, fetched by a request that shows `rest=` for it.  Then the first request looks again. */
  ghost function CollisionEvents(key: string, name: string, rest: string, b1: string, b2: string, ttl: nat): seq<Event>
  {
    var r2: Headers, rules := [(name, rest + "=")], [Rule([], ttl)];
    var resp1, resp2 := Varying(name + "=" + rest, b1), Varying(name, b2);
    var s := TwoStores(key, EntryFor([], resp1, ttl), EntryFor(r2, resp2, ttl));
    [Stored(key, [], resp1, rules, ttl, 0, [], s[0]),
     Stored(key, r2, resp2, rules, ttl, 0, [], s[1]),
     Looked(key, [], 0, None)]
  }

  lemma CollisionLists(key: string, e1: Entry, e2: Entry)
    requires e1.varySignature == e2.varySignature
    ensures var s := TwoStores(key, e1, e2);
            && Variants(s[1].entries, key) == [e1] && s[1].totalBytes == EntryBytes(e1)
            && Variants(s[2].entries, key) == [e2] && s[2].totalBytes == EntryBytes(e2)
  {
    var s := TwoStores(key, e1, e2);
    assert Without([], e1.varySignature) + [e1] == [e1] && BytesAt([], e1.varySignature) == 0;
    assert Without([e1], e2.varySignature) == [] && BytesAt([e1], e2.varySignature) == EntryBytes(e1);
    assert [] + [e2] == [e2];
  }

  lemma PlainResponse(name: string, body: string, ttl: nat)
    requires Plain(name) && ttl > 0 && |body| <= MAX_ENTRY_BYTES
    ensures Storable(Varying(name, body), [Rule([], ttl)], ttl)
    ensures VaryList(Varying(name, body).headers) == [name]
  {
    VaryLine(name);
    assert LastRule([Rule([], ttl)], 200) == Some(ttl) by { assert [Rule([], ttl)][1..] == []; }
  }

  lemma CollidingSignatures(name: string, rest: string)
    requires Plain(name) && Plain(rest)
    ensures Plain(name + "=" + rest)
    ensures Signature([], [name + "=" + rest]) == Signature([(name, rest + "=")], [name])
    ensures Signature([], [name]) != Signature([(name, rest + "=")], [name])
  {
    PlainDirective(rest);
    assert Lower(name) == name;
    SignatureCollision(name, rest);
    SignatureInjective([], [(name, rest + "=")], [name]);
    assert VaryValue([], name) == "";
    assert Visible(rest + "=") && VaryValue([(name, rest + "=")], name) == rest + "=";
    assert VaryValue([], [name][0]) != VaryValue([(name, rest + "=")], [name][0]);
  }

  /** In this run the second store takes the first variant out, so the request that fetched it is
      not answered, though nothing has expired and both would fit. */
  lemma CollisionRun(max: nat, key: string, name: string, rest: string, b1: string, b2: string, ttl: nat)
    requires Plain(name) && Plain(rest) && ttl > 0 && |b1| <= MAX_ENTRY_BYTES && |b2| <= MAX_ENTRY_BYTES
    requires EntryBytes(EntryFor([], Varying(name + "=" + rest, b1), ttl))
           + EntryBytes(EntryFor([(name, rest + "=")], Varying(name, b2), ttl)) <= max
    ensures var e1 := EntryFor([], Varying(name + "=" + rest, b1), ttl);
            var e2 := EntryFor([(name, rest + "=")], Varying(name, b2), ttl);
            var states, events := TwoStores(key, e1, e2), CollisionEvents(key, name, rest, b1, b2, ttl);
            && IsRun(max, states, events)
            && Holds(states[1].entries, key, e1) && !Holds(states[2].entries, key, e1) && events[2].hit == None
  {
    var long := name + "=" + rest;
    var e1 := EntryFor([], Varying(long, b1), ttl);
    var e2 := EntryFor([(name, rest + "=")], Varying(name, b2), ttl);
    var states, events := TwoStores(key, e1, e2), CollisionEvents(key, name, rest, b1, b2, ttl);
    CollidingSignatures(name, rest);
    PlainResponse(long, b1, ttl);
    PlainResponse(name, b2, ttl);
    CollisionLists(key, e1, e2);
    CollisionSteps(max, key, e1, e2);
    assert StepAt(max, states, events, 0) && StepAt(max, states, events, 1);
    assert StepAt(max, states, events, 2);
    assert e1.varyHeaders[0] != e2.varyHeaders[0] by { assert |long| != |name|; }
  }

  /** The two stores and the lookup on the table itself. */
  lemma CollisionSteps(max: nat, key: string, e1: Entry, e2: Entry)
    requires e1.varySignature == e2.varySignature && EntryBytes(e1) + EntryBytes(e2) <= max
    requires e2.expiresAt > 0 && Signature([], e2.varyHeaders) != e2.varySignature
    ensures var s := TwoStores(key, e1, e2);
            && Puts(s[0], key, e1, max, [], s[0], s[1]) && Puts(s[1], key, e2, max, [], s[1], s[2])
            && Hit(s[2], key, [], 0) == None
  {
    CollisionLists(key, e1, e2);
    MissesOnly(e2, []);
  }

  lemma MissesOnly(e: Entry, req: Headers)
    requires e.expiresAt > 0 && Signature(req, e.varyHeaders) != e.varySignature
    ensures FirstMatch(Fresh([e], 0), req) == None
  {
    assert [e][1..] == [];
    assert Fresh([e], 0) == [e] + [];
  }

  // ----- Refinement of a map from (key, Vary values) to the latest store -----

  /** Every store under `key` carries the Vary list `names`. */
  ghost predicate OneVaryList(events: seq<Event>, key: string, names: seq<string>) {
    forall j | 0 <= j < |events| && events[j].Stored? && events[j].key == key ::
      VaryList(events[j].resp.headers) == names
  }

  /** Event `m` is an accepted store for the same key and the same Vary values as request `req`. */
  ghost predicate StoresFor(max: nat, ev: Event, key: string, req: Headers, names: seq<string>) {
    ev.Accepted(max) && ev.key == key && VaryValues(ev.req, names) == VaryValues(req, names)
  }

  /** Event `j` is the latest accepted store for the (key, Vary values) of lookup `i`; what it
      stored has not expired for `i` nor for a lookup of the key in between, and was not evicted
      in between. */
  ghost predicate Serves(max: nat, events: seq<Event>, i: nat, names: seq<string>, j: nat)
    requires i < |events| && events[i].Looked?
  {
    var key, req := events[i].key, events[i].req;
    && j < i
    && StoresFor(max, events[j], key, req, names)
    && events[j].Entry().expiresAt > events[i].now
    && forall m | j < m < i ::
         if events[m].Stored? then
           && !StoresFor(max, events[m], key, req, names)
           && !Taken(events[m].victims, key, Signature(req, names))
         else events[m].key == key ==> events[m].now < events[j].Entry().expiresAt
  }

  lemma SameValuesSameSignature(r1: Headers, r2: Headers, names: seq<string>)
    ensures VaryValues(r1, names) == VaryValues(r2, names) <==> Signature(r1, names) == Signature(r2, names)
  {
    SignatureInjective(r1, r2, names);
    if Signature(r1, names) == Signature(r2, names) {
      assert VaryValues(r1, names) == VaryValues(r2, names);
    }
  }

  /** For one Vary list, not having been dropped means being the latest unevicted store. */
  lemma LiveIsServing(max: nat, events: seq<Event>, i: nat, names: seq<string>, j: nat)
    requires i < |events| && events[i].Looked? && j < i
    requires OneVaryList(events, events[i].key, names)
    requires events[j].Accepted(max) && events[j].key == events[i].key
    requires events[j].Entry().expiresAt > events[i].now
    requires Signature(events[i].req, names) == events[j].Entry().varySignature
    ensures LiveSince(max, events, i, events[i].key, events[j].Entry(), j)
       <==> Serves(max, events, i, names, j)
  {
    var key, req, e := events[i].key, events[i].req, events[j].Entry();
    SameValuesSameSignature(events[j].req, req, names);
    forall m | j < m < i
      ensures Drops(max, events[m], key, e)
         <==> if events[m].Stored? then
                || StoresFor(max, events[m], key, req, names)
                || Taken(events[m].victims, key, Signature(req, names))
              else events[m].key == key && e.expiresAt <= events[m].now
    {
      if events[m].Stored? && events[m].key == key {
        SameValuesSameSignature(events[m].req, req, names);
      }
    }
  }

  /** Completeness of hits: when all stores under a key carry one Vary list, a lookup answers
      exactly with the latest accepted store for its (key, Vary values), and misses only when
      there is none, when it has expired, or when it was evicted. */
  lemma HitIffLatestStore(max: nat, states: seq<State>, events: seq<Event>, i: nat,
                          names: seq<string>, e: Entry)
    requires IsRun(max, states, events) && i < |events| && events[i].Looked?
    requires OneVaryList(events, events[i].key, names)
    ensures events[i].hit == Some(e)
       <==> exists j: nat :: Serves(max, events, i, names, j) && events[j].Entry() == e
  {
    var s, ev := states[i], events[i];
    assert StepAt(max, states, events, i);
    RunKeepsInv(max, states, events, i);
    var vs := Variants(s.entries, ev.key);
    MatchIsMember(Fresh(vs, ev.now), ev.req);
    if ev.hit == Some(e) {
      FreshMember(vs, ev.now, e);
      TableIsHistory(max, states, events, i, ev.key, e);
      var j: nat :| LiveSince(max, events, i, ev.key, e, j);
      LiveIsServing(max, events, i, names, j);
    }
    if j: nat :| Serves(max, events, i, names, j) && events[j].Entry() == e {
      SameValuesSameSignature(events[j].req, ev.req, names);
      LiveIsServing(max, events, i, names, j);
      TableIsHistory(max, states, events, i, ev.key, e);
      FreshMember(vs, ev.now, e);
      UniqueMatch(max, states, events, i, names, e);
    }
  }

  /** No two fresh variants answer the same request. */
  lemma UniqueMatch(max: nat, states: seq<State>, events: seq<Event>, i: nat,
                    names: seq<string>, e: Entry)
    requires IsRun(max, states, events) && i < |events| && events[i].Looked?
    requires OneVaryList(events, events[i].key, names)
    requires Holds(states[i].entries, events[i].key, e) && e.expiresAt > events[i].now
    requires Signature(events[i].req, e.varyHeaders) == e.varySignature
    ensures events[i].hit == Some(e)
  {
    var s, ev := states[i], events[i];
    assert StepAt(max, states, events, i);
    RunKeepsInv(max, states, events, i);
    var vs := Variants(s.entries, ev.key);
    MatchIsMember(Fresh(vs, ev.now), ev.req);
    FreshMember(vs, ev.now, e);
    var f := ev.hit.value;
    FreshMember(vs, ev.now, f);
    TableIsHistory(max, states, events, i, ev.key, e);
    TableIsHistory(max, states, events, i, ev.key, f);
    SameSignatureSameEntry(s.entries, ev.key, e, f);
  }
}
