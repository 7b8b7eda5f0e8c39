/** The balancer of src/app.rs and the two forwarding paths of src/proxy.rs.

    Other requests, the stream relay and the health probe act on the same peers while a request
    is on its way.  What they make of a peer is an arbitrary input, taken over just before each
    pick and again while the upstream answers; what this request itself does is modelled step by
    step. */
module Balancing {
  import opened Common
  import opened PeerHealth
  import opened Fairness
  import CachePolicy

  datatype LbMethod = RoundRobin | LeastConn | IpHash

  /** Live state of a peer: requests in flight for others and for this request, and health. */
  datatype Live = Live(others: nat, mine: nat, health: Health)
  {
    function InFlight(): nat { others + mine }
  }

  /** What everybody else has made of one peer. */
  datatype View = View(inFlight: nat, health: Health)

  /** An upstream's answer to one attempt, and whether its body can be read to the end; no reply
      stands for a connection error or a timeout. */
  datatype Answer = Reply(resp: CachePolicy.Response, complete: bool) | NoReply

  /** What the client gets: an upstream's answer, or the proxy's own 502. */
  datatype Resp = Upstream(answer: Answer) | BadGateway

  /** The environment of one attempt: the peers, the clock, the client hash and the round-robin
      counter, which other requests move too, when a peer is picked; the peers and the clock when
      the answer is in. */
  datatype Turn = Turn(before: seq<View>, now: nat, ipHash: nat, counter: nat,
                       during: seq<View>, answer: Answer, answeredAt: nat)

  datatype Attempt = Attempt(peer: nat, answer: Answer)

  const MAX_ATTEMPTS: nat := 3

  predicate Good(a: Answer) { a.Reply? && !CachePolicy.ServerError(a.resp.status) }

  function OutcomeOf(a: Answer, at: nat): Outcome {
    if Good(a) then Success else Failure(at)
  }

  // ----- The pool -----

  function SeenHealth(views: seq<View>): (hs: seq<Health>)
    ensures |hs| == |views|
  {
    seq(|views|, i requires 0 <= i < |views| => views[i].health)
  }

  function LiveHealth(live: seq<Live>): (hs: seq<Health>)
    ensures |hs| == |live|
  {
    seq(|live|, i requires 0 <= i < |live| => live[i].health)
  }

  predicate Eligible(cfg: PeerCfg, h: Health, now: nat, excluded: seq<string>) {
    Available(cfg, h, now) && cfg.addr !in excluded
  }

  predicate InBounds(peers: seq<PeerCfg>, pool: seq<nat>) {
    forall i | 0 <= i < |pool| :: pool[i] < |peers|
  }

  /** Indices of the eligible primaries (or backups) from `start` on. */
  function Members(peers: seq<PeerCfg>, hs: seq<Health>, now: nat, excluded: seq<string>,
                   backup: bool, start: nat): (ms: seq<nat>)
    requires |peers| == |hs| && start <= |peers|
    ensures forall i :: i in ms <==> start <= i < |peers| && peers[i].backup == backup
                                     && Eligible(peers[i], hs[i], now, excluded)
    ensures InBounds(peers, ms)
    decreases |peers| - start
  {
    if start == |peers| then []
    else
      var rest := Members(peers, hs, now, excluded, backup, start + 1);
      if peers[start].backup == backup && Eligible(peers[start], hs[start], now, excluded)
      then [start] + rest else rest
  }

  /** Eligible primaries, or eligible backups when there is no eligible primary. */
  function Pool(peers: seq<PeerCfg>, hs: seq<Health>, now: nat, excluded: seq<string>): (pool: seq<nat>)
    requires |peers| == |hs|
    ensures InBounds(peers, pool)
  {
    var primaries := Members(peers, hs, now, excluded, false, 0);
    if primaries != [] then primaries else Members(peers, hs, now, excluded, true, 0)
  }

  /** The peer is marked down, cools down or was tried already. */
  ghost predicate Barred(cfg: PeerCfg, h: Health, now: nat, excluded: seq<string>) {
    cfg.down || (h.failedUntil != 0 && now < h.failedUntil) || cfg.addr in excluded
  }

  /** Membership in the pool, spelled out: a peer that is neither down nor cooling nor tried; a
      backup only when every primary is one of these. */
  lemma PoolMembers(peers: seq<PeerCfg>, hs: seq<Health>, now: nat, excluded: seq<string>, p: nat)
    requires |peers| == |hs|
    ensures p in Pool(peers, hs, now, excluded)
       <==> && p < |peers|
            && !peers[p].down && (hs[p].failedUntil == 0 || now >= hs[p].failedUntil)
            && peers[p].addr !in excluded
            && (peers[p].backup ==> forall i | 0 <= i < |peers| && !peers[i].backup ::
                                      Barred(peers[i], hs[i], now, excluded))
    ensures Pool(peers, hs, now, excluded) == []
       <==> forall i | 0 <= i < |peers| :: Barred(peers[i], hs[i], now, excluded)
  {
    var primaries := Members(peers, hs, now, excluded, false, 0);
    var backups := Members(peers, hs, now, excluded, true, 0);
    forall i | 0 <= i < |peers|
      ensures Barred(peers[i], hs[i], now, excluded) <==> !Eligible(peers[i], hs[i], now, excluded)
    {
    }
    assert primaries != [] ==> primaries[0] in primaries;
    assert backups != [] ==> backups[0] in backups;
  }

  function EffectiveWeight(cfg: PeerCfg): nat { Max(cfg.weight, 1) }

  function WeightsOf(peers: seq<PeerCfg>, pool: seq<nat>): (ws: seq<nat>)
    requires InBounds(peers, pool)
    ensures |ws| == |pool| && forall i | 0 <= i < |ws| :: ws[i] == EffectiveWeight(peers[pool[i]])
  {
    seq(|pool|, i requires 0 <= i < |pool| => EffectiveWeight(peers[pool[i]]))
  }

  // ----- The choice within the pool -----

  function LoadOf(peers: seq<PeerCfg>, live: seq<Live>, p: nat): (l: Load)
    requires p < |peers| == |live|
    ensures l.weight >= 1
  {
    Load(live[p].InFlight(), EffectiveWeight(peers[p]))
  }

  /** The sum of the weights of a pool in the 32 bits of the code. */
  function PoolWeight(peers: seq<PeerCfg>, pool: seq<nat>): nat
    requires InBounds(peers, pool)
  {
    Total(WeightsOf(peers, pool)) % TWO32
  }

  /** Nobody can be picked: the pool is empty, or round-robin finds its weights cut to 0. */
  predicate Unpickable(lb: LbMethod, peers: seq<PeerCfg>, pool: seq<nat>)
    requires InBounds(peers, pool)
  {
    pool == [] || (lb.RoundRobin? && PoolWeight(peers, pool) == 0)
  }

  ghost predicate ChosenInTurn(peers: seq<PeerCfg>, pool: seq<nat>, counter: nat, p: nat)
    requires InBounds(peers, pool)
  {
    PoolWeight(peers, pool) > 0
    && p == pool[Slot(WeightsOf(peers, pool), counter % TWO32 % PoolWeight(peers, pool))]
  }

  ghost predicate Chosen(lb: LbMethod, peers: seq<PeerCfg>, live: seq<Live>, pool: seq<nat>,
                         counter: nat, ipHash: nat, p: nat)
    requires |peers| == |live| && pool != [] && InBounds(peers, pool)
  {
    match lb
    case RoundRobin => ChosenInTurn(peers, pool, counter, p)
    case LeastConn =>
      exists c | 0 <= c < |pool| ::
        && p == pool[c]
        && (forall i | 0 <= i < |pool| :: Score(LoadOf(peers, live, p)) <= Score(LoadOf(peers, live, pool[i])))
        && (forall i | 0 <= i < c :: Score(LoadOf(peers, live, p)) < Score(LoadOf(peers, live, pool[i])))
    case IpHash => p == pool[ipHash % |pool|]
  }

  method Choose(lb: LbMethod, peers: seq<PeerCfg>, live: seq<Live>, pool: seq<nat>,
                counter: nat, ipHash: nat) returns (picked: Option<nat>)
    requires |peers| == |live| && pool != [] && InBounds(peers, pool)
    ensures picked.None? <==> Unpickable(lb, peers, pool)
    ensures picked.Some? ==> Chosen(lb, peers, live, pool, counter, ipHash, picked.value) && picked.value in pool
  {
    match lb
    case RoundRobin =>
      var i := PickWeightedRr(WeightsOf(peers, pool), counter);
      picked := if i.Some? then Some(pool[i.value]) else None;
    case LeastConn =>
      var loads := seq(|pool|, i requires 0 <= i < |pool| => LoadOf(peers, live, pool[i]));
      var i := PickLeastConn(loads);
      assert forall j | 0 <= j < |pool| :: loads[j] == LoadOf(peers, live, pool[j]);
      picked := Some(pool[i]);
    case IpHash =>
      picked := Some(pool[ipHash % |pool|]);
  }

  // ----- Round-robin over successive picks -----

  lemma {:induction false} MembersAscend(peers: seq<PeerCfg>, hs: seq<Health>, now: nat, excluded: seq<string>,
                                         backup: bool, start: nat, i: nat, j: nat)
    requires |peers| == |hs| && start <= |peers|
    requires i < j < |Members(peers, hs, now, excluded, backup, start)|
    ensures var ms := Members(peers, hs, now, excluded, backup, start); ms[i] < ms[j]
    decreases |peers| - start
  {
    var ms := Members(peers, hs, now, excluded, backup, start);
    var rest := Members(peers, hs, now, excluded, backup, start + 1);
    if ms == rest {
      MembersAscend(peers, hs, now, excluded, backup, start + 1, i, j);
    } else {
      assert ms == [start] + rest && rest[j - 1] in rest;
      if i > 0 {
        MembersAscend(peers, hs, now, excluded, backup, start + 1, i - 1, j - 1);
      }
    }
  }

  /** The pool lists each of its peers once. */
  lemma PoolDistinct(peers: seq<PeerCfg>, hs: seq<Health>, now: nat, excluded: seq<string>, i: nat, j: nat)
    requires |peers| == |hs| && i < j < |Pool(peers, hs, now, excluded)|
    ensures Pool(peers, hs, now, excluded)[i] != Pool(peers, hs, now, excluded)[j]
  {
    MembersAscend(peers, hs, now, excluded, Members(peers, hs, now, excluded, false, 0) == [], 0, i, j);
  }

  ghost predicate PickedAt(peers: seq<PeerCfg>, pool: seq<nat>, counter: nat, picks: seq<nat>, i: nat)
    requires InBounds(peers, pool) && i < |picks|
  {
    ChosenInTurn(peers, pool, (counter + i) % TWO64, picks[i])
  }

  /** How often `p` is among the first `n` picks. */
  ghost function Times(picks: seq<nat>, p: nat, n: nat): nat
    requires n <= |picks|
  {
    if n == 0 then 0 else Times(picks, p, n - 1) + if picks[n - 1] == p then 1 else 0
  }

  lemma PickedIsSlot(peers: seq<PeerCfg>, pool: seq<nat>, counter: nat, picks: seq<nat>, q: nat, i: nat)
    requires InBounds(peers, pool) && q < |pool| && 0 < Total(WeightsOf(peers, pool)) < TWO32
    requires counter + |picks| <= TWO64 && i < |picks| && PickedAt(peers, pool, counter, picks, i)
    requires forall j, k | 0 <= j < k < |pool| :: pool[j] != pool[k]
    ensures var ws := WeightsOf(peers, pool);
            picks[i] == pool[q] <==> Slot(ws, (counter + i) % TWO32 % Total(ws)) == q
  {
    var ws := WeightsOf(peers, pool);
    SmallMod(counter + i, TWO64);
    SmallMod(Total(ws), TWO32);
    var slot := Slot(ws, (counter + i) % TWO32 % Total(ws));
    assert picks[i] == pool[slot];
    assert slot < q ==> pool[slot] != pool[q];
    assert q < slot ==> pool[q] != pool[slot];
  }

  lemma SmallMod(x: nat, m: nat)
    requires x < m
    ensures x % m == x
  {
  }

  lemma {:induction false} TimesIsPicks(peers: seq<PeerCfg>, pool: seq<nat>, counter: nat, picks: seq<nat>,
                                        q: nat, n: nat)
    requires InBounds(peers, pool) && q < |pool| && Weights(WeightsOf(peers, pool))
    requires Total(WeightsOf(peers, pool)) < TWO32 && counter + |picks| <= TWO64 && n <= |picks|
    requires forall i, j | 0 <= i < j < |pool| :: pool[i] != pool[j]
    requires forall i | 0 <= i < |picks| :: PickedAt(peers, pool, counter, picks, i)
    ensures Times(picks, pool[q], n) == Picks(WeightsOf(peers, pool), q, counter, n)
  {
    if n > 0 {
      TimesIsPicks(peers, pool, counter, picks, q, n - 1);
      assert PickedAt(peers, pool, counter, picks, n - 1);
      PickedIsSlot(peers, pool, counter, picks, q, n - 1);
    }
  }

  /** Over successive round-robin picks from a pool that stays the same, while the counter does not
      cross a multiple of 2^32, every peer of weight w is picked between floor(n/T) w and
      floor(n/T) w + min(w, n mod T) times. */
  lemma ShareOfPicks(peers: seq<PeerCfg>, hs: seq<Health>, now: nat, excluded: seq<string>,
                     counter: nat, picks: seq<nat>, q: nat)
    requires |peers| == |hs| && counter < TWO64 && Unwrapped(counter, |picks|)
    requires var pool := Pool(peers, hs, now, excluded);
             && q < |pool| && Total(WeightsOf(peers, pool)) < TWO32
             && forall i | 0 <= i < |picks| :: PickedAt(peers, pool, counter, picks, i)
    ensures var pool := Pool(peers, hs, now, excluded);
            var w := if peers[pool[q]].weight == 0 then 1 else peers[pool[q]].weight;
            var t := Total(WeightsOf(peers, pool));
            && t > 0
            && |picks| / t * w <= Times(picks, pool[q], |picks|) <= |picks| / t * w + Min(w, |picks| % t)
  {
    var pool := Pool(peers, hs, now, excluded);
    forall i, j | 0 <= i < j < |pool| ensures pool[i] != pool[j] {
      PoolDistinct(peers, hs, now, excluded, i, j);
    }
    BelowTop(counter, |picks|);
    TimesIsPicks(peers, pool, counter, picks, q, |picks|);
    RoundRobinShare(WeightsOf(peers, pool), q, counter, |picks|);
  }

  lemma BelowTop(c: nat, n: nat)
    requires c < TWO64 && Unwrapped(c, n)
    ensures c + n <= TWO64
  {
    assert TWO64 == TWO32 * TWO32;
  }

  // ----- What a sequence of attempts amounts to -----

  /** The first answer that is not a server error, else the last server error, else 502. */
  ghost function Verdict(log: seq<Attempt>): Resp {
    VerdictOf(log, |log|)
  }

  ghost function VerdictOf(log: seq<Attempt>, n: nat): Resp
    requires n <= |log|
  {
    if n == 0 then BadGateway
    else if log[n - 1].answer.Reply? then Upstream(log[n - 1].answer)
    else VerdictOf(log, n - 1)
  }

  lemma {:induction false} VerdictPrefix(log: seq<Attempt>, a: Attempt, n: nat)
    requires n <= |log|
    ensures VerdictOf(log + [a], n) == VerdictOf(log, n)
  {
    if n > 0 && !log[n - 1].answer.Reply? {
      VerdictPrefix(log, a, n - 1);
    }
  }

  ghost function Tried(peers: seq<PeerCfg>, log: seq<Attempt>): seq<string>
    requires forall i | 0 <= i < |log| :: log[i].peer < |peers|
  {
    seq(|log|, i requires 0 <= i < |log| => peers[log[i].peer].addr)
  }

  ghost function Records(log: seq<Attempt>, turns: seq<Turn>): seq<(nat, Outcome)>
    requires |log| <= |turns|
  {
    seq(|log|, i requires 0 <= i < |log| => (log[i].peer, OutcomeOf(log[i].answer, turns[i].answeredAt)))
  }

  /** The pool of turn `i`, with the addresses of all earlier attempts excluded. */
  ghost function PoolAt(peers: seq<PeerCfg>, log: seq<Attempt>, turns: seq<Turn>, i: nat): (pool: seq<nat>)
    requires i <= |log| && i < |turns| && |turns[i].before| == |peers|
    requires forall j | 0 <= j < i :: log[j].peer < |peers|
    ensures InBounds(peers, pool)
  {
    Pool(peers, SeenHealth(turns[i].before), turns[i].now, Tried(peers, log[..i]))
  }

  /** Attempt `i` went to the peer that the method chooses from the pool of its turn, and got that
      turn's answer; `live` is what the request held before it began. */
  ghost predicate LegalAttempt(lb: LbMethod, peers: seq<PeerCfg>, live: seq<Live>, log: seq<Attempt>,
                               turns: seq<Turn>, i: nat)
    requires i < |log| <= |turns| && |live| == |peers|
  {
    && |turns[i].before| == |peers|
    && (forall j | 0 <= j < i :: log[j].peer < |peers|)
    && (var pool := PoolAt(peers, log, turns, i);
        && log[i].peer in pool
        && Chosen(lb, peers, Adopt(live, turns[i].before), pool, turns[i].counter, turns[i].ipHash, log[i].peer))
    && log[i].answer == turns[i].answer
    && (i < |log| - 1 ==> !Good(log[i].answer))
  }

  ghost predicate LegalLog(lb: LbMethod, peers: seq<PeerCfg>, live: seq<Live>, log: seq<Attempt>, turns: seq<Turn>) {
    && |log| <= |turns| && |live| == |peers|
    && (forall i | 0 <= i < |log| :: log[i].peer < |peers|)
    && (forall i | 0 <= i < |log| :: LegalAttempt(lb, peers, live, log, turns, i))
  }

  ghost predicate Fits(peers: seq<PeerCfg>, turns: seq<Turn>) {
    forall i | 0 <= i < |turns| :: |turns[i].before| == |turns[i].during| == |peers|
  }

  function Adopt(live: seq<Live>, views: seq<View>): (r: seq<Live>)
    requires |live| == |views|
    ensures |r| == |live|
  {
    seq(|live|, i requires 0 <= i < |live| => Live(views[i].inFlight, live[i].mine, views[i].health))
  }

  function MaxAttempts(peers: seq<PeerCfg>): nat {
    Min(MAX_ATTEMPTS, Max(|peers|, 1))
  }

  /** The request holds of every peer what it held before. */
  ghost predicate SameHeld(a: seq<Live>, b: seq<Live>) {
    |a| == |b| && forall p | 0 <= p < |a| :: b[p].mine == a[p].mine
  }

  class Balancer {
    const peers: seq<PeerCfg>
    const lbMethod: LbMethod
    var live: seq<Live>
    var rrCounter: nat
    ghost var recorded: seq<(nat, Outcome)>

    ghost predicate Valid()
      reads this
    {
      |live| == |peers|
    }

    constructor (peers: seq<PeerCfg>, lbMethod: LbMethod)
      ensures Valid() && this.peers == peers && this.lbMethod == lbMethod
      ensures live == seq(|peers|, i => Live(0, 0, Health(0, 0))) && rrCounter == 0 && recorded == []
    {
      this.peers, this.lbMethod := peers, lbMethod;
      live := seq(|peers|, i => Live(0, 0, Health(0, 0)));
      rrCounter, recorded := 0, [];
    }

    /** `pick_inner`. */
    method Pick(now: nat, excluded: seq<string>, ipHash: nat) returns (picked: Option<nat>)
      requires Valid()
      modifies this`rrCounter
      ensures var pool := Pool(peers, LiveHealth(live), now, excluded);
              && (picked.None? <==> Unpickable(lbMethod, peers, pool))
              && (picked.Some? ==>
                    && picked.value in pool && picked.value < |peers|
                    && Chosen(lbMethod, peers, live, pool, old(rrCounter), ipHash, picked.value))
              && (picked.Some? ==>
                    var cfg, h := peers[picked.value], live[picked.value].health;
                    && !cfg.down && (h.failedUntil == 0 || now >= h.failedUntil) && cfg.addr !in excluded
                    && (cfg.backup ==> forall i | 0 <= i < |peers| && !peers[i].backup ::
                                         Barred(peers[i], live[i].health, now, excluded)))
              && rrCounter == if lbMethod.RoundRobin? && picked.Some? then (old(rrCounter) + 1) % TWO64
                              else old(rrCounter)
    {
      var hs := LiveHealth(live);
      var primaries := Members(peers, hs, now, excluded, false, 0);
      var pool := if primaries != [] then primaries else Members(peers, hs, now, excluded, true, 0);
      if pool == [] {
        return None;
      }
      picked := Choose(lbMethod, peers, live, pool, rrCounter, ipHash);
      if picked.Some? {
        PoolMembers(peers, hs, now, excluded, picked.value);
      }
      if lbMethod.RoundRobin? && picked.Some? {
        rrCounter := (rrCounter + 1) % TWO64;
      }
    }

    /** What other tasks did in the meantime. */
    method Interfere(views: seq<View>, counter: nat)
      requires Valid() && |views| == |peers|
      modifies this`live, this`rrCounter
      ensures Valid() && live == Adopt(old(live), views) && rrCounter == counter
    {
      live, rrCounter := Adopt(live, views), counter;
    }

    method Enter(p: nat)
      requires Valid() && p < |peers|
      modifies this`live
      ensures Valid() && live == old(live)[p := old(live)[p].(mine := old(live)[p].mine + 1)]
    {
      live := live[p := live[p].(mine := live[p].mine + 1)];
    }

    /** Dropping the in-flight guard. */
    method Leave(p: nat)
      requires Valid() && p < |peers| && live[p].mine > 0
      modifies this`live
      ensures Valid() && live == old(live)[p := old(live)[p].(mine := old(live)[p].mine - 1)]
    {
      live := live[p := live[p].(mine := live[p].mine - 1)];
    }

    method Report(p: nat, o: Outcome)
      requires Valid() && p < |peers|
      modifies this`live, this`recorded
      ensures Valid() && recorded == old(recorded) + [(p, o)]
      ensures live == old(live)[p := old(live)[p].(health := Record(peers[p], old(live)[p].health, o))]
    {
      live := live[p := live[p].(health := Record(peers[p], live[p].health, o))];
      recorded := recorded + [(p, o)];
    }

    /** One attempt on a picked peer: enter, wait for the answer while others go on, report it,
        leave. */
    method TryPeer(p: nat, turn: Turn)
      requires Valid() && p < |peers| && |turn.during| == |peers|
      modifies this
      ensures Valid()
      ensures recorded == old(recorded) + [(p, OutcomeOf(turn.answer, turn.answeredAt))]
      ensures live == AfterAttempt(peers, old(live), p, turn)
    {
      Enter(p);
      Interfere(turn.during, rrCounter);
      Report(p, OutcomeOf(turn.answer, turn.answeredAt));
      Leave(p);
      assert live == AfterAttempt(peers, old(live), p, turn);
    }

    /** One turn: others act, a peer is picked, and it is tried if there is one. */
    method TakeTurn(turn: Turn, excluded: seq<string>) returns (picked: Option<nat>)
      requires Valid() && |turn.before| == |turn.during| == |peers|
      modifies this
      ensures Valid()
      ensures var pool := Pool(peers, SeenHealth(turn.before), turn.now, excluded);
              && (picked.None? <==> Unpickable(lbMethod, peers, pool))
              && (picked.Some? ==>
                    && picked.value in pool && picked.value < |peers|
                    && Chosen(lbMethod, peers, Adopt(old(live), turn.before), pool,
                              turn.counter, turn.ipHash, picked.value))
      ensures recorded == old(recorded) +
                if picked.Some? then [(picked.value, OutcomeOf(turn.answer, turn.answeredAt))] else []
      ensures live == if picked.Some? then AfterTurn(peers, old(live), picked.value, turn)
                      else Adopt(old(live), turn.before)
    {
      Interfere(turn.before, turn.counter);
      assert LiveHealth(live) == SeenHealth(turn.before);
      picked := Pick(turn.now, excluded, turn.ipHash);
      if picked.Some? {
        TryPeer(picked.value, turn);
      }
    }

    /** The peers and the reports are what the attempts in the log have made of them. */
    ghost predicate Accounts(live0: seq<Live>, recorded0: seq<(nat, Outcome)>, log: seq<Attempt>, turns: seq<Turn>)
      reads this
      requires Fits(peers, turns) && LegalLog(lbMethod, peers, live0, log, turns)
    {
      live == LiveAfter(peers, live0, log, turns, |log|) && recorded == recorded0 + Records(log, turns)
    }

    /** A request that began with `live0` and `recorded0` has made the attempts in the log, all in
        vain. */
    ghost predicate InProgress(live0: seq<Live>, recorded0: seq<(nat, Outcome)>, log: seq<Attempt>, turns: seq<Turn>,
                               excluded: seq<string>)
      reads this
      requires Fits(peers, turns)
    {
      && Valid() && SameHeld(live0, live)
      && LegalLog(lbMethod, peers, live0, log, turns) && AllFailed(log) && excluded == Tried(peers, log)
      && Accounts(live0, recorded0, log, turns)
    }

    /** The next turn of a request that has made the attempts in the log so far. */
    method TryNext(turns: seq<Turn>, turn: Turn, excluded: seq<string>, ghost log: seq<Attempt>,
                   ghost live0: seq<Live>, ghost recorded0: seq<(nat, Outcome)>)
      returns (picked: Option<nat>, ghost log': seq<Attempt>)
      requires Fits(peers, turns) && |log| < |turns| && turn == turns[|log|]
      requires InProgress(live0, recorded0, log, turns, excluded)
      modifies this
      ensures Valid() && SameHeld(live0, live)
      ensures picked.None? ==>
                && log' == log && recorded == recorded0 + Records(log, turns)
                && Unpickable(lbMethod, peers, Pool(peers, SeenHealth(turn.before), turn.now, excluded))
                && live == Adopt(LiveAfter(peers, live0, log, turns, |log|), turn.before)
      ensures picked.Some? ==>
                && picked.value < |peers| && log' == log + [Attempt(picked.value, turn.answer)]
                && LegalLog(lbMethod, peers, live0, log', turns)
                && Accounts(live0, recorded0, log', turns)
                && (!Good(turn.answer) ==>
                      InProgress(live0, recorded0, log', turns, excluded + [peers[picked.value].addr]))
    {
      ghost var before := live;
      picked := TakeTurn(turn, excluded);
      log' := log;
      if picked.Some? {
        log' := log + [Attempt(picked.value, turn.answer)];
        AttemptAdded(lbMethod, peers, live0, before, log, turns, picked.value);
      } else {
        NetEffectZero(peers, live0, log, turns, turn.before);
      }
    }

    /** The retry loop of `forward`, for methods that may be sent again. */
    method Forward(turns: seq<Turn>) returns (resp: Resp, ghost log: seq<Attempt>)
      requires Valid() && |turns| >= MaxAttempts(peers) && Fits(peers, turns)
      modifies this
      ensures Valid()
      ensures |log| <= MaxAttempts(peers) && LegalLog(lbMethod, peers, old(live), log, turns)
      ensures resp == Verdict(log)
      ensures recorded == old(recorded) + Records(log, turns)
      ensures SameHeld(old(live), live)
      ensures var end := LiveAfter(peers, old(live), log, turns, |log|);
              if |log| == MaxAttempts(peers) || EndsWell(log) then live == end
              else
                && Unpickable(lbMethod, peers,
                              Pool(peers, SeenHealth(turns[|log|].before), turns[|log|].now, Tried(peers, log)))
                && live == Adopt(end, turns[|log|].before)
    {
      var max := Min(MAX_ATTEMPTS, Max(|peers|, 1));
      var excluded: seq<string> := [];
      var last: Option<Answer> := None;
      log := [];
      for attempt := 0 to max
        invariant |log| == attempt && InProgress(old(live), old(recorded), log, turns, excluded)
        invariant Verdict(log) == if last.Some? then Upstream(last.value) else BadGateway
      {
        var turn := turns[attempt];
        ghost var before := log;
        var picked;
        picked, log := TryNext(turns, turn, excluded, log, old(live), old(recorded));
        if picked.None? {
          break;
        }
        VerdictPrefix(before, Attempt(picked.value, turn.answer), |before|);
        if Good(turn.answer) {
          return Upstream(turn.answer), log;
        }
        excluded := excluded + [peers[picked.value].addr];
        if turn.answer.Reply? {
          last := Some(turn.answer);
        }
      }
      resp := if last.Some? then Upstream(last.value) else BadGateway;
    }

    /** `forward_once_with_incoming`, for methods that may not be sent again. */
    method ForwardOnce(turns: seq<Turn>) returns (resp: Resp, ghost log: seq<Attempt>)
      requires Valid() && |turns| >= 1 && Fits(peers, turns)
      modifies this
      ensures Valid()
      ensures |log| <= 1 && LegalLog(lbMethod, peers, old(live), log, turns)
      ensures resp == Verdict(log)
      ensures recorded == old(recorded) + Records(log, turns)
      ensures SameHeld(old(live), live)
      ensures var end := LiveAfter(peers, old(live), log, turns, |log|);
              if |log| == 1 then live == end
              else
                && Unpickable(lbMethod, peers, Pool(peers, SeenHealth(turns[0].before), turns[0].now, []))
                && live == Adopt(end, turns[0].before)
    {
      log := [];
      var turn := turns[0];
      assert Tried(peers, log) == [] && recorded + Records(log, turns) == recorded;
      var picked;
      picked, log := TryNext(turns, turn, [], log, live, recorded);
      assert VerdictOf(log, 0) == BadGateway;
      resp := if picked.Some? && turn.answer.Reply? then Upstream(turn.answer) else BadGateway;
    }
  }

  ghost predicate AllFailed(log: seq<Attempt>) {
    forall i | 0 <= i < |log| :: !Good(log[i].answer)
  }

  ghost predicate EndsWell(log: seq<Attempt>) {
    log != [] && Good(log[|log| - 1].answer)
  }

  ghost function AfterTurn(peers: seq<PeerCfg>, live: seq<Live>, p: nat, turn: Turn): (r: seq<Live>)
    requires p < |peers| == |live| == |turn.before| == |turn.during|
    ensures |r| == |live|
  {
    AfterAttempt(peers, Adopt(live, turn.before), p, turn)
  }

  /** The peers after the first `n` attempts in the log. */
  ghost function LiveAfter(peers: seq<PeerCfg>, live: seq<Live>, log: seq<Attempt>, turns: seq<Turn>, n: nat): (r: seq<Live>)
    requires |live| == |peers| && n <= |log| <= |turns| && Fits(peers, turns)
    requires forall i | 0 <= i < |log| :: log[i].peer < |peers|
    ensures |r| == |live|
    decreases n
  {
    if n == 0 then live
    else AfterTurn(peers, LiveAfter(peers, live, log, turns, n - 1), log[n - 1].peer, turns[n - 1])
  }

  lemma {:induction false} LivePrefix(peers: seq<PeerCfg>, live: seq<Live>, log: seq<Attempt>, turns: seq<Turn>,
                                      a: Attempt, n: nat)
    requires |live| == |peers| && n <= |log| < |turns| && Fits(peers, turns)
    requires a.peer < |peers| && forall i | 0 <= i < |log| :: log[i].peer < |peers|
    ensures LiveAfter(peers, live, log + [a], turns, n) == LiveAfter(peers, live, log, turns, n)
    decreases n
  {
    if n > 0 {
      LivePrefix(peers, live, log, turns, a, n - 1);
    }
  }

  /** Net effect zero: whatever happened, the request ends holding no more of any peer than it
      did before. */
  lemma {:induction false} NothingHeld(peers: seq<PeerCfg>, live: seq<Live>, log: seq<Attempt>, turns: seq<Turn>,
                                       n: nat, p: nat)
    requires |live| == |peers| && n <= |log| <= |turns| && Fits(peers, turns) && p < |peers|
    requires forall i | 0 <= i < |log| :: log[i].peer < |peers|
    ensures LiveAfter(peers, live, log, turns, n)[p].mine == live[p].mine
    decreases n
  {
    if n > 0 {
      NothingHeld(peers, live, log, turns, n - 1, p);
    }
  }

  lemma NetEffectZero(peers: seq<PeerCfg>, live: seq<Live>, log: seq<Attempt>, turns: seq<Turn>, views: seq<View>)
    requires |live| == |peers| == |views| && |log| <= |turns| && Fits(peers, turns)
    requires forall i | 0 <= i < |log| :: log[i].peer < |peers|
    ensures var end := LiveAfter(peers, live, log, turns, |log|);
            SameHeld(live, end) && SameHeld(live, Adopt(end, views))
  {
    forall p | 0 <= p < |peers| ensures LiveAfter(peers, live, log, turns, |log|)[p].mine == live[p].mine {
      NothingHeld(peers, live, log, turns, |log|, p);
    }
  }

  /** No address is tried twice. */
  lemma AddressesDistinct(lb: LbMethod, peers: seq<PeerCfg>, live: seq<Live>, log: seq<Attempt>, turns: seq<Turn>, i: nat, j: nat)
    requires LegalLog(lb, peers, live, log, turns) && i < j < |log|
    ensures peers[log[i].peer].addr != peers[log[j].peer].addr
  {
    assert LegalAttempt(lb, peers, live, log, turns, j);
    var tried := Tried(peers, log[..j]);
    PoolMembers(peers, SeenHealth(turns[j].before), turns[j].now, tried, log[j].peer);
    assert tried[i] == peers[log[i].peer].addr;
  }

  /** Every attempt goes to a peer that was neither down, cooling nor tried when it was picked; a
      backup is tried only when every primary was one of these. */
  lemma AttemptsEligible(lb: LbMethod, peers: seq<PeerCfg>, live: seq<Live>, log: seq<Attempt>, turns: seq<Turn>, i: nat)
    requires LegalLog(lb, peers, live, log, turns) && i < |log|
    ensures |turns[i].before| == |peers|
    ensures var p, turn := log[i].peer, turns[i];
            var h := turn.before[p].health;
            && !peers[p].down && (h.failedUntil == 0 || turn.now >= h.failedUntil)
            && (forall j | 0 <= j < i :: peers[log[j].peer].addr != peers[p].addr)
            && (peers[p].backup ==> forall q | 0 <= q < |peers| && !peers[q].backup ::
                                      Barred(peers[q], turn.before[q].health, turn.now, Tried(peers, log[..i])))
  {
    assert LegalAttempt(lb, peers, live, log, turns, i);
    var hs, tried := SeenHealth(turns[i].before), Tried(peers, log[..i]);
    PoolMembers(peers, hs, turns[i].now, tried, log[i].peer);
    forall j | 0 <= j < i ensures peers[log[j].peer].addr != peers[log[i].peer].addr {
      assert tried[j] == peers[log[j].peer].addr;
    }
  }

  /** Every attempt is reported once: a reply outside 500 to 599 as a success, anything else as a
      failure at the time it was known. */
  lemma RecordsMeaning(log: seq<Attempt>, turns: seq<Turn>, i: nat)
    requires i < |log| <= |turns|
    ensures |Records(log, turns)| == |log|
    ensures Records(log, turns)[i] ==
            if log[i].answer.Reply? && !(500 <= log[i].answer.resp.status <= 599) then (log[i].peer, Success)
            else (log[i].peer, Failure(turns[i].answeredAt))
  {
  }

  /** What an attempt makes of the peers: the tried one's health is cleared by a reply outside 500
      to 599, and otherwise counts one failure more, with a cooldown of `fail_timeout` from the
      `max_fails`-th on; the others are as everybody else left them. */
  lemma AttemptHealth(peers: seq<PeerCfg>, live: seq<Live>, p: nat, turn: Turn, q: nat)
    requires p < |peers| == |live| == |turn.during| && q < |peers|
    ensures var h, h' := turn.during[q].health, AfterAttempt(peers, live, p, turn)[q].health;
            if q != p then h' == h
            else if turn.answer.Reply? && !(500 <= turn.answer.resp.status <= 599) then
              h'.fails == 0 && h'.failedUntil == 0
            else
              && h'.fails == h.fails + 1
              && h'.failedUntil == if h.fails + 1 >= 1 && h.fails + 1 >= peers[p].maxFails
                                   then turn.answeredAt + peers[p].failTimeout else h.failedUntil
  {
  }

  /** Least connections, spelled out: no member of the pool had fewer requests in flight for its
      weight, in millionths rounded down, and none before it in the pool had as few. */
  lemma LeastLoaded(peers: seq<PeerCfg>, live: seq<Live>, log: seq<Attempt>, turns: seq<Turn>, i: nat)
    returns (pool: seq<nat>, c: nat)
    requires LegalLog(LeastConn, peers, live, log, turns) && i < |log|
    ensures |turns[i].before| == |peers| && pool == PoolAt(peers, log, turns, i)
    ensures c < |pool| && log[i].peer == pool[c] && InBounds(peers, pool)
    ensures forall j | 0 <= j < |pool| :: LoadIn(peers, live, turns[i], pool[c]) <= LoadIn(peers, live, turns[i], pool[j])
    ensures forall j | 0 <= j < c :: LoadIn(peers, live, turns[i], pool[c]) < LoadIn(peers, live, turns[i], pool[j])
  {
    assert LegalAttempt(LeastConn, peers, live, log, turns, i);
    pool := PoolAt(peers, log, turns, i);
    c := LeastLoadedOf(peers, live, turns[i], pool, log[i].peer);
  }

  lemma LeastLoadedOf(peers: seq<PeerCfg>, live: seq<Live>, turn: Turn, pool: seq<nat>, p: nat) returns (c: nat)
    requires |live| == |peers| == |turn.before| && pool != [] && InBounds(peers, pool)
    requires Chosen(LeastConn, peers, Adopt(live, turn.before), pool, turn.counter, turn.ipHash, p)
    ensures c < |pool| && p == pool[c]
    ensures forall j | 0 <= j < |pool| :: LoadIn(peers, live, turn, pool[c]) <= LoadIn(peers, live, turn, pool[j])
    ensures forall j | 0 <= j < c :: LoadIn(peers, live, turn, pool[c]) < LoadIn(peers, live, turn, pool[j])
  {
    var seen := Adopt(live, turn.before);
    c :| 0 <= c < |pool| && p == pool[c]
         && (forall k | 0 <= k < |pool| :: Score(LoadOf(peers, seen, p)) <= Score(LoadOf(peers, seen, pool[k])))
         && (forall k | 0 <= k < c :: Score(LoadOf(peers, seen, p)) < Score(LoadOf(peers, seen, pool[k])));
    forall j | 0 <= j < |pool| ensures Score(LoadOf(peers, seen, pool[j])) == LoadIn(peers, live, turn, pool[j]) {
      ScoreIsLoad(peers, live, turn, pool[j]);
    }
  }

  lemma ScoreIsLoad(peers: seq<PeerCfg>, live: seq<Live>, turn: Turn, p: nat)
    requires |live| == |peers| == |turn.before| && p < |peers|
    ensures Score(LoadOf(peers, Adopt(live, turn.before), p)) == LoadIn(peers, live, turn, p)
  {
  }

  /** By address hash, spelled out: the hash of the client counts through the pool, so it is always
      sent to the same peer of an unchanged pool. */
  lemma HashedPeer(peers: seq<PeerCfg>, live: seq<Live>, log: seq<Attempt>, turns: seq<Turn>, i: nat)
    requires LegalLog(IpHash, peers, live, log, turns) && i < |log|
    ensures |turns[i].before| == |peers|
    ensures var pool := PoolAt(peers, log, turns, i);
            pool != [] && log[i].peer == pool[turns[i].ipHash % |pool|]
  {
    assert LegalAttempt(IpHash, peers, live, log, turns, i);
  }

  /** By turns, spelled out: the 32-bit counter value picks the member in whose share of the weights
      it falls. */
  lemma PeerInTurn(peers: seq<PeerCfg>, live: seq<Live>, log: seq<Attempt>, turns: seq<Turn>, i: nat)
    returns (pool: seq<nat>, q: nat)
    requires LegalLog(RoundRobin, peers, live, log, turns) && i < |log|
    ensures |turns[i].before| == |peers| && pool == PoolAt(peers, log, turns, i) && InBounds(peers, pool)
    ensures q < |pool| && log[i].peer == pool[q]
    ensures var ws := WeightsOf(peers, pool);
            var total := Total(ws) % 0x1_0000_0000;
            && total > 0
            && Prefix(ws, q) <= turns[i].counter % 0x1_0000_0000 % total < Prefix(ws, q) + ws[q]
  {
    assert LegalAttempt(RoundRobin, peers, live, log, turns, i);
    pool := PoolAt(peers, log, turns, i);
    var ws := WeightsOf(peers, pool);
    q := Slot(ws, turns[i].counter % TWO32 % PoolWeight(peers, pool));
    SlotOwner(ws, turns[i].counter % TWO32 % PoolWeight(peers, pool), q);
  }

  /** Requests in flight, of others and of this one, per weight of at least 1, in millionths. */
  ghost function LoadIn(peers: seq<PeerCfg>, live: seq<Live>, turn: Turn, p: nat): nat
    requires |live| == |peers| == |turn.before| && p < |peers|
  {
    (turn.before[p].inFlight + live[p].mine) * 1_000_000 / if peers[p].weight == 0 then 1 else peers[p].weight
  }

  /** At most 3 attempts, and no more than there are peers, but always one. */
  lemma MaxAttemptsMeaning(peers: seq<PeerCfg>)
    ensures MaxAttempts(peers) == if |peers| <= 1 then 1 else if |peers| == 2 then 2 else 3
  {
  }

  /** The verdict, spelled out: the first answer that is not a server error if the log has one,
      else the last answer at all, else 502. */
  lemma {:induction false} VerdictMeaning(lb: LbMethod, peers: seq<PeerCfg>, live: seq<Live>, log: seq<Attempt>, turns: seq<Turn>)
    requires LegalLog(lb, peers, live, log, turns)
    ensures forall i | 0 <= i < |log| && Good(log[i].answer) :: Verdict(log) == Upstream(log[i].answer)
    ensures forall i | 0 <= i < |log| && log[i].answer.Reply? && (forall j | i < j < |log| :: log[j].answer.NoReply?) ::
              Verdict(log) == Upstream(log[i].answer)
    ensures (forall i | 0 <= i < |log| :: log[i].answer.NoReply?) ==> Verdict(log) == BadGateway
  {
    forall i | 0 <= i < |log| && Good(log[i].answer) ensures Verdict(log) == Upstream(log[i].answer) {
      assert LegalAttempt(lb, peers, live, log, turns, i);
    }
    forall i | 0 <= i < |log| && log[i].answer.Reply? && (forall j | i < j < |log| :: log[j].answer.NoReply?)
      ensures Verdict(log) == Upstream(log[i].answer)
    {
      LastReply(log, |log|, i);
    }
    if forall i | 0 <= i < |log| :: log[i].answer.NoReply? {
      NoReplies(log, |log|);
    }
  }

  lemma {:induction false} LastReply(log: seq<Attempt>, n: nat, i: nat)
    requires i < n <= |log| && log[i].answer.Reply? && forall j | i < j < n :: log[j].answer.NoReply?
    ensures VerdictOf(log, n) == Upstream(log[i].answer)
    decreases n
  {
    if i < n - 1 {
      LastReply(log, n - 1, i);
    }
  }

  lemma {:induction false} NoReplies(log: seq<Attempt>, n: nat)
    requires n <= |log| && forall i | 0 <= i < n :: log[i].answer.NoReply?
    ensures VerdictOf(log, n) == BadGateway
    decreases n
  {
    if n > 0 {
      NoReplies(log, n - 1);
    }
  }

  ghost function AfterAttempt(peers: seq<PeerCfg>, live: seq<Live>, p: nat, turn: Turn): (r: seq<Live>)
    requires p < |peers| == |live| == |turn.during|
    ensures |r| == |live|
  {
    var seen := Adopt(live, turn.during);
    seen[p := seen[p].(health := Record(peers[p], seen[p].health, OutcomeOf(turn.answer, turn.answeredAt)))]
  }

  /** What one more attempt adds to the log, the reports and the peers. */
  lemma AttemptAdded(lb: LbMethod, peers: seq<PeerCfg>, live0: seq<Live>, live: seq<Live>, log: seq<Attempt>,
                     turns: seq<Turn>, p: nat)
    requires LegalLog(lb, peers, live0, log, turns) && |log| < |turns| && Fits(peers, turns) && p < |peers|
    requires AllFailed(log) && live == LiveAfter(peers, live0, log, turns, |log|)
    requires var turn := turns[|log|];
             var pool := Pool(peers, SeenHealth(turn.before), turn.now, Tried(peers, log));
             p in pool && Chosen(lb, peers, Adopt(live, turn.before), pool, turn.counter, turn.ipHash, p)
    ensures var turn := turns[|log|];
            var log' := log + [Attempt(p, turn.answer)];
            && LegalLog(lb, peers, live0, log', turns)
            && Tried(peers, log') == Tried(peers, log) + [peers[p].addr]
            && Records(log', turns) == Records(log, turns) + [(p, OutcomeOf(turn.answer, turn.answeredAt))]
            && LiveAfter(peers, live0, log', turns, |log'|) == AfterTurn(peers, live, p, turn)
            && SameHeld(live0, AfterTurn(peers, live, p, turn))
            && (!Good(turn.answer) ==> AllFailed(log'))
  {
    var turn := turns[|log|];
    ChoiceAt(lb, peers, live0, live, log, turns, p);
    LogExtends(lb, peers, live0, log, turns, p);
    LivePrefix(peers, live0, log, turns, Attempt(p, turn.answer), |log|);
    NetEffectZero(peers, live0, log + [Attempt(p, turn.answer)], turns, turn.before);
  }

  /** What the request holds does not change from attempt to attempt, so neither does what its own
      part in the load does to the choice. */
  lemma ChoiceAt(lb: LbMethod, peers: seq<PeerCfg>, live0: seq<Live>, live: seq<Live>, log: seq<Attempt>,
                 turns: seq<Turn>, p: nat)
    requires LegalLog(lb, peers, live0, log, turns) && |log| < |turns| && Fits(peers, turns)
    requires live == LiveAfter(peers, live0, log, turns, |log|)
    requires var turn := turns[|log|];
             var pool := Pool(peers, SeenHealth(turn.before), turn.now, Tried(peers, log));
             p in pool && Chosen(lb, peers, Adopt(live, turn.before), pool, turn.counter, turn.ipHash, p)
    ensures var turn, pool := turns[|log|], PoolAt(peers, log, turns, |log|);
            p in pool && Chosen(lb, peers, Adopt(live0, turn.before), pool, turn.counter, turn.ipHash, p)
  {
    NetEffectZero(peers, live0, log, turns, turns[|log|].before);
    assert Adopt(live, turns[|log|].before) == Adopt(live0, turns[|log|].before);
    assert log[..|log|] == log;
  }

  lemma LogExtends(lb: LbMethod, peers: seq<PeerCfg>, live: seq<Live>, log: seq<Attempt>, turns: seq<Turn>, p: nat)
    requires LegalLog(lb, peers, live, log, turns) && |log| < |turns| && p < |peers|
    requires AllFailed(log)
    requires |turns[|log|].before| == |peers|
    requires var turn, pool := turns[|log|], PoolAt(peers, log, turns, |log|);
             p in pool && Chosen(lb, peers, Adopt(live, turn.before), pool, turn.counter, turn.ipHash, p)
    ensures var log' := log + [Attempt(p, turns[|log|].answer)];
            && LegalLog(lb, peers, live, log', turns)
            && Tried(peers, log') == Tried(peers, log) + [peers[p].addr]
            && Records(log', turns) == Records(log, turns) + [(p, OutcomeOf(turns[|log|].answer, turns[|log|].answeredAt))]
            && log'[..|log|] == log
  {
    var log' := log + [Attempt(p, turns[|log|].answer)];
    assert log'[..|log|] == log && log[..|log|] == log;
    forall i | 0 <= i < |log'| ensures LegalAttempt(lb, peers, live, log', turns, i) {
      if i < |log| {
        assert LegalAttempt(lb, peers, live, log, turns, i);
        assert log'[..i] == log[..i];
      }
    }
  }
}
