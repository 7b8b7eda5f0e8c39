/** `forward` of src/proxy.rs as a whole: the cache in front of the retry loop and behind it.

    Other requests act on the store while this one waits for its upstream; what they make of it is
    an arbitrary input, as it is for the peers. */
module Proxying {
  import opened Common
  import opened VarySignature
  import opened ResponseCache
  import opened CachePolicy
  import CacheRuns
  import opened Balancing

  /** The methods: GET, the others that may be sent again, and the rest. */
  datatype Verb = Get | Repeatable | Once

  datatype Out = Relayed(resp: Response, tag: Label) | GatewayError

  /** The answer that ended the retry loop, if it is one that `maybe_cache` gets to see. */
  ghost function Final(verb: Verb, log: seq<Attempt>): Option<Answer> {
    if !verb.Once? && EndsWell(log) then Some(log[|log| - 1].answer) else None
  }

  /** The event by which an answer to a GET is stored, with its evictions. */
  ghost function AnswerEvent(a: Answer, key: string, req: Headers, rules: seq<Rule>, now: nat,
                             victims: seq<Victim>, mid: State): Option<CacheRuns.Event>
  {
    if a.NoReply? || !a.complete then None
    else match Decide(true, a.resp.headers, a.resp.status, |a.resp.body|, rules)
      case Bypass(_) => None
      case Store(ttl) => Some(CacheRuns.Stored(key, req, a.resp, rules, ttl, now, victims, mid))
  }

  /** The event by which the request stores its final answer. */
  ghost function StoreEvent(verb: Verb, cached: bool, key: string, req: Headers, rules: seq<Rule>, now: nat,
                            log: seq<Attempt>, victims: seq<Victim>, mid: State): Option<CacheRuns.Event>
  {
    var final := Final(verb, log);
    if !cached || !verb.Get? || final.None? then None
    else AnswerEvent(final.value, key, req, rules, now, victims, mid)
  }

  /** What the client gets of an upstream's answer. */
  ghost function Relay(verb: Verb, cached: bool, rules: seq<Rule>, a: Answer): Out
    requires a.Reply?
  {
    if !cached || verb.Once? || !Good(a) then Relayed(a.resp, Unmarked)
    else if verb.Get? && !a.complete then Relayed(a.resp.(body := ""), Unmarked)
    else Relayed(a.resp, if Decide(verb.Get?, a.resp.headers, a.resp.status, |a.resp.body|, rules).Store? then Miss
                         else Bypassed)
  }

  /** A good verdict is the answer of the last attempt. */
  lemma GoodVerdictIsLast(lb: LbMethod, peers: seq<PeerHealth.PeerCfg>, live: seq<Live>, log: seq<Attempt>,
                          turns: seq<Turn>)
    requires LegalLog(lb, peers, live, log, turns)
    ensures Verdict(log).Upstream? ==> Verdict(log).answer.Reply?
    ensures EndsWell(log) <==> Verdict(log).Upstream? && Good(Verdict(log).answer)
    ensures EndsWell(log) ==> Verdict(log).answer == log[|log| - 1].answer
  {
    VerdictOrigin(log, |log|);
    if Verdict(log).Upstream? && Good(Verdict(log).answer) {
      var i :| 0 <= i < |log| && log[i].answer == Verdict(log).answer;
      assert LegalAttempt(lb, peers, live, log, turns, i);
    }
  }

  lemma {:induction false} VerdictOrigin(log: seq<Attempt>, n: nat)
    requires n <= |log|
    ensures VerdictOf(log, n).Upstream? ==>
              VerdictOf(log, n).answer.Reply? && exists i | 0 <= i < n :: log[i].answer == VerdictOf(log, n).answer
  {
    if n > 0 && !log[n - 1].answer.Reply? {
      VerdictOrigin(log, n - 1);
    }
  }

  /** What the client is sent for a verdict, spelled out: the status, headers and body of the
      upstream's answer, except that a body which a cache could not collect is left empty; and the
      `X-Cache` label. */
  ghost predicate Delivers(out: Out, verdict: Resp, cached: bool, verb: Verb, stored: bool) {
    if verdict.BadGateway? then out == GatewayError
    else
      && verdict.answer.Reply? && out.Relayed?
      && var resp, complete := verdict.answer.resp, verdict.answer.complete;
         var seen := cached && !verb.Once? && !(500 <= resp.status < 600);
         && out.resp.status == resp.status && out.resp.headers == resp.headers
         && out.resp.body == (if seen && verb.Get? && !complete then "" else resp.body)
         && out.tag == if !seen || (verb.Get? && !complete) then Unmarked else if stored then Miss else Bypassed
  }

  /** The answer is stored: a GET with a cache got an answer that is no server error, whose body
      could be read, and that may be cached. */
  ghost predicate WillStore(cached: bool, verb: Verb, rules: seq<Rule>, verdict: Resp) {
    && cached && verb.Get? && verdict.Upstream? && verdict.answer.Reply? && verdict.answer.complete
    && var resp := verdict.answer.resp;
       && !(500 <= resp.status < 600)
       && Decide(true, resp.headers, resp.status, |resp.body|, rules).Store?
  }

  /** What `maybe_cache` does when it stores is a store event. */
  lemma StoresByEvent(max: nat, s: State, key: string, req: Headers, resp: Response, rules: seq<Rule>, ttl: nat,
                      now: nat, victims: seq<Victim>, mid: State, s': State)
    requires !ServerError(resp.status)
    requires Decide(true, resp.headers, resp.status, |resp.body|, rules) == Store(ttl)
    requires var names := VaryList(resp.headers);
             var entry := Entry(resp.status, resp.headers, resp.body, now + ttl, names, Signature(req, names));
             Puts(s, key, entry, max, victims, mid, s')
    ensures CacheRuns.Step(max, s, CacheRuns.Stored(key, req, resp, rules, ttl, now, victims, mid), s')
  {
  }

  /** A good answer goes to the client by way of `maybe_cache`. */
  method DeliverGood(store: CacheStore, key: string, rules: seq<Rule>, verb: Verb, req: Headers, a: Answer, storedAt: nat)
    returns (out: Out, ghost victims: seq<Victim>, ghost mid: State)
    requires store.Valid() && Good(a) && !verb.Once?
    modifies store
    ensures store.Valid() && out == Relay(verb, true, rules, a)
    ensures var stored := if verb.Get? then AnswerEvent(a, key, req, rules, storedAt, victims, mid) else None;
            if stored.None? then store.Snapshot() == old(store.Snapshot())
            else CacheRuns.Step(store.maxBytes, old(store.Snapshot()), stored.value, store.Snapshot())
  {
    var sent, tag;
    sent, tag, victims, mid := MaybeCache(store, key, verb.Get?, req, a.resp, a.complete, rules, storedAt);
    out := Relayed(sent, tag);
    if verb.Get? && a.complete {
      match Decide(true, a.resp.headers, a.resp.status, |a.resp.body|, rules)
      case Bypass(_) =>
      case Store(ttl) =>
        StoresByEvent(store.maxBytes, old(store.Snapshot()), key, req, a.resp, rules, ttl, storedAt, victims, mid,
                      store.Snapshot());
    }
  }

  /** From the verdict to the client. */
  method Deliver(store: CacheStore, cached: bool, key: string, rules: seq<Rule>, verb: Verb, req: Headers,
                 resp: Resp, ghost log: seq<Attempt>, storedAt: nat)
    returns (out: Out, ghost stored: Option<CacheRuns.Event>, ghost victims: seq<Victim>, ghost mid: State)
    requires store.Valid() && resp == Verdict(log) && (resp.Upstream? ==> resp.answer.Reply?)
    requires EndsWell(log) <==> resp.Upstream? && Good(resp.answer)
    requires EndsWell(log) ==> resp.answer == log[|log| - 1].answer
    modifies store
    ensures store.Valid()
    ensures out == if resp.Upstream? then Relay(verb, cached, rules, resp.answer) else GatewayError
    ensures stored == StoreEvent(verb, cached, key, req, rules, storedAt, log, victims, mid)
    ensures if stored.None? then store.Snapshot() == old(store.Snapshot())
            else CacheRuns.Step(store.maxBytes, old(store.Snapshot()), stored.value, store.Snapshot())
  {
    victims, mid := [], store.Snapshot();
    if resp.BadGateway? {
      out := GatewayError;
    } else if verb.Once? || !Good(resp.answer) || !cached {
      out := Relayed(resp.answer.resp, Unmarked);
    } else {
      out, victims, mid := DeliverGood(store, key, rules, verb, req, resp.answer, storedAt);
    }
    stored := StoreEvent(verb, cached, key, req, rules, storedAt, log, victims, mid);
  }

  /** A request that the cache did not answer, from the peers, reports and store it found to those
      it left: its attempts, what the client is sent for their verdict, and at most one store event,
      of that very answer. */
  ghost predicate Missed(lb: LbMethod, peers: seq<PeerHealth.PeerCfg>, live: seq<Live>, live': seq<Live>,
                         recorded: seq<(nat, PeerHealth.Outcome)>, recorded': seq<(nat, PeerHealth.Outcome)>,
                         max: nat, others: State, after: State, cached: bool, key: string, rules: seq<Rule>,
                         verb: Verb, req: Headers, turns: seq<Turn>, storedAt: nat,
                         out: Out, log: seq<Attempt>, stored: Option<CacheRuns.Event>)
  {
    && LegalLog(lb, peers, live, log, turns)
    && |log| <= (if verb.Once? then 1 else MaxAttempts(peers))
    && recorded' == recorded + Records(log, turns)
    && SameHeld(live, live')
    && Delivers(out, Verdict(log), cached, verb, stored.Some?)
    && (stored.Some? <==> WillStore(cached, verb, rules, Verdict(log)))
    && (if stored.None? then after == others
        else
          && stored.value.Stored? && stored.value.key == key && stored.value.req == req
          && Verdict(log).Upstream? && stored.value.resp == Verdict(log).answer.resp
          && stored.value.now == storedAt && stored.value.rules == rules
          && CacheRuns.Step(max, others, stored.value, after))
  }

  /** Past the lookup: the attempts, and what `maybe_cache` makes of their answer. */
  method AskUpstream(balancer: Balancer, store: CacheStore, cached: bool, key: string, rules: seq<Rule>, verb: Verb,
                     req: Headers, turns: seq<Turn>, others: State, storedAt: nat)
    returns (out: Out, ghost log: seq<Attempt>, ghost stored: Option<CacheRuns.Event>)
    requires balancer.Valid() && |turns| >= MaxAttempts(balancer.peers) && Fits(balancer.peers, turns)
    requires store.Valid() && Inv(others, store.maxBytes)
    modifies balancer, store
    ensures balancer.Valid() && store.Valid()
    ensures Missed(balancer.lbMethod, balancer.peers, old(balancer.live), balancer.live, old(balancer.recorded),
                   balancer.recorded, store.maxBytes, others, store.Snapshot(), cached, key, rules, verb, req, turns,
                   storedAt, out, log, stored)
  {
    var resp;
    if verb.Once? {
      resp, log := balancer.ForwardOnce(turns);
    } else {
      resp, log := balancer.Forward(turns);
    }
    GoodVerdictIsLast(balancer.lbMethod, balancer.peers, old(balancer.live), log, turns);
    store.Interfere(others);
    ghost var victims, mid;
    out, stored, victims, mid := Deliver(store, cached, key, rules, verb, req, resp, log, storedAt);
  }

  /** `forward`.  A hit is answered from the store, and no peer is touched.  On a miss the client
      gets the verdict of the attempts, and the store changes by one event at most: it stores the
      final answer of a GET, which is never a server error. */
  method Forward(balancer: Balancer, store: CacheStore, cached: bool, key: string, rules: seq<Rule>, verb: Verb,
                 req: Headers, turns: seq<Turn>, lookedAt: nat, others: State, storedAt: nat)
    returns (out: Out, ghost log: seq<Attempt>, ghost stored: Option<CacheRuns.Event>)
    requires balancer.Valid() && |turns| >= MaxAttempts(balancer.peers) && Fits(balancer.peers, turns)
    requires store.Valid() && Inv(others, store.maxBytes)
    modifies balancer, store
    ensures balancer.Valid() && store.Valid()
    ensures var hit := if cached && verb.Get? then Hit(old(store.Snapshot()), key, req, lookedAt) else None;
            if hit.Some? then
              && out.Relayed? && out.tag == FromCache
              && out.resp.status == hit.value.status && out.resp.headers == hit.value.headers
              && out.resp.body == hit.value.body
              && log == [] && stored == None
              && CacheRuns.Step(store.maxBytes, old(store.Snapshot()), CacheRuns.Looked(key, req, lookedAt, hit),
                                store.Snapshot())
              && balancer.live == old(balancer.live) && balancer.rrCounter == old(balancer.rrCounter)
              && balancer.recorded == old(balancer.recorded)
            else
              Missed(balancer.lbMethod, balancer.peers, old(balancer.live), balancer.live, old(balancer.recorded),
                     balancer.recorded, store.maxBytes, others, store.Snapshot(), cached, key, rules, verb, req, turns,
                     storedAt, out, log, stored)
  {
    log, stored := [], None;
    if cached && verb.Get? {
      var found := store.Get(key, req, lookedAt);
      if found.Some? {
        return Relayed(Response(found.value.status, found.value.headers, found.value.body), FromCache), log, stored;
      }
    }
    out, log, stored := AskUpstream(balancer, store, cached, key, rules, verb, req, turns, others, storedAt);
  }
}
