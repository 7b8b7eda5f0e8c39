/** Passive health of one upstream peer (`Peer` in src/app.rs), with each call as one step.
    The proxy, the stream relay and the active probe all drive it through the same calls. */
module PeerHealth {
  import opened Common

  datatype PeerCfg = PeerCfg(addr: string, weight: nat, maxFails: nat, failTimeout: nat,
                             backup: bool, down: bool)

  /** The two health atomics; times are in milliseconds, and 0 means healthy. */
  datatype Health = Health(fails: nat, failedUntil: nat)

  datatype Outcome = Success | Failure(now: nat)

  function Threshold(cfg: PeerCfg): nat { Max(1, cfg.maxFails) }

  predicate Available(cfg: PeerCfg, h: Health, now: nat) {
    !cfg.down && (h.failedUntil == 0 || now >= h.failedUntil)
  }

  function Record(cfg: PeerCfg, h: Health, o: Outcome): Health {
    match o
    case Success => Health(0, 0)
    case Failure(now) =>
      var n := h.fails + 1;
      Health(n, if n >= Threshold(cfg) then now + cfg.failTimeout else h.failedUntil)
  }

  /** Health after a history of outcomes, starting healthy. */
  ghost function Replay(cfg: PeerCfg, history: seq<Outcome>): Health {
    if history == [] then Health(0, 0)
    else Record(cfg, Replay(cfg, history[..|history| - 1]), history[|history| - 1])
  }

  /** Failures since the last success. */
  ghost function Streak(history: seq<Outcome>): nat {
    if history == [] || history[|history| - 1].Success? then 0
    else 1 + Streak(history[..|history| - 1])
  }

  /** Peer health refines its history: no cooldown while fewer than max(1, max_fails) failures
      have followed the last success, and otherwise a cooldown that ends `fail_timeout` after
      the last failure. */
  lemma {:induction false} HealthIsHistory(cfg: PeerCfg, history: seq<Outcome>)
    ensures Replay(cfg, history).fails == Streak(history)
    ensures Replay(cfg, history).failedUntil ==
            if Streak(history) < 1 || Streak(history) < cfg.maxFails then 0
            else history[|history| - 1].now + cfg.failTimeout
  {
    if history != [] {
      HealthIsHistory(cfg, history[..|history| - 1]);
    }
  }

  /** A peer is skipped exactly when it is marked down or at least one and at least `max_fails`
      failures have followed its last success and the cooldown of the last one is still running. */
  lemma AvailableIff(cfg: PeerCfg, history: seq<Outcome>, now: nat)
    ensures Available(cfg, Replay(cfg, history), now)
       <==> !cfg.down && (Streak(history) >= 1 && Streak(history) >= cfg.maxFails ==>
                            now >= history[|history| - 1].now + cfg.failTimeout)
  {
    HealthIsHistory(cfg, history);
  }

  /** The streak, spelled out: the last `n` outcomes are failures and the one before them, if any,
      is a success. */
  lemma {:induction false} StreakMeaning(history: seq<Outcome>)
    ensures var n := Streak(history);
            && n <= |history|
            && (forall i | |history| - n <= i < |history| :: history[i].Failure?)
            && (n < |history| ==> history[|history| - n - 1].Success?)
  {
    if history != [] && history[|history| - 1].Failure? {
      StreakMeaning(history[..|history| - 1]);
    }
  }

  class Peer {
    const cfg: PeerCfg
    var inFlight: nat
    var fails: nat
    var failedUntil: nat
    ghost var history: seq<Outcome>

    ghost predicate Valid()
      reads this
    {
      Health(fails, failedUntil) == Replay(cfg, history)
    }

    constructor (cfg: PeerCfg)
      ensures Valid() && this.cfg == cfg && history == [] && inFlight == 0
    {
      this.cfg := cfg;
      inFlight, fails, failedUntil, history := 0, 0, 0, [];
    }

    method IsAvailable(now: nat) returns (ok: bool)
      requires Valid()
      ensures ok <==> !cfg.down && (Streak(history) >= 1 && Streak(history) >= cfg.maxFails ==>
                                      now >= history[|history| - 1].now + cfg.failTimeout)
    {
      AvailableIff(cfg, history, now);
      if cfg.down {
        return false;
      }
      ok := failedUntil == 0 || now >= failedUntil;
    }

    method RecordSuccess()
      requires Valid()
      modifies this
      ensures Valid() && history == old(history) + [Success] && inFlight == old(inFlight)
    {
      fails := 0;
      failedUntil := 0;
      history := history + [Success];
    }

    method RecordFailure(now: nat)
      requires Valid()
      modifies this
      ensures Valid() && history == old(history) + [Failure(now)] && inFlight == old(inFlight)
    {
      fails := fails + 1;
      if fails >= Max(cfg.maxFails, 1) {
        failedUntil := now + cfg.failTimeout;
      }
      assert (history + [Failure(now)])[..|history|] == history;
      history := history + [Failure(now)];
    }
  }
}
