/** Hot reload of one TLS listener against its accept loop (src/supervisor.rs, src/server.rs).

    The supervisor writes two watch channels, first the acceptor and then the config; an accept
    reads them in the opposite order, first the config and then the acceptor.  Every send, read,
    request and the stop signal is one step, and the steps interleave freely.  Versions count
    the reloads. */
module ReloadSnapshots {
  /** A connection between the two reads of its accept, or after them. */
  datatype Conn = Accepting(cfg: nat) | Open(cfg: nat, tls: nat)

  /** `version` is the latest reload begun, `sending` says its config is still to be sent, and
      `withTls` holds the versions whose config is TLS. */
  datatype State = State(cfg: nat, tls: nat, version: nat, sending: bool, withTls: set<nat>,
                         stopped: bool, conns: map<nat, Conn>)

  datatype Action =
    | BeginReload(hasTls: bool)
    | SendConfig
    | ReadConfig(id: nat)
    | ReadAcceptor(id: nat)
    | Request(id: nat, cfg: nat)
    | Stop

  ghost predicate Initial(s: State) {
    s == State(0, 0, 0, false, {0}, false, map[])
  }

  ghost predicate Next(s: State, a: Action, s': State) {
    match a
    case BeginReload(hasTls) =>
      var v := s.version + 1;
      && !s.sending && !s.stopped
      && s' == if hasTls then s.(version := v, sending := true, tls := v, withTls := s.withTls + {v})
               else s.(version := v, sending := true)
    case SendConfig => s.sending && s' == s.(cfg := s.version, sending := false)
    case ReadConfig(id) =>
      && id !in s.conns && !s.stopped
      && s' == s.(conns := s.conns[id := Accepting(s.cfg)])
    case ReadAcceptor(id) =>
      && id in s.conns && s.conns[id].Accepting?
      && s' == s.(conns := s.conns[id := Open(s.conns[id].cfg, s.tls)])
    case Request(id, cfg) =>
      && id in s.conns && s.conns[id].Open? && cfg == s.conns[id].cfg
      && s' == s
    case Stop => s' == s.(stopped := true)
  }

  ghost predicate NextAt(states: seq<State>, actions: seq<Action>, i: nat)
    requires |states| == |actions| + 1 && i < |actions|
  {
    Next(states[i], actions[i], states[i + 1])
  }

  ghost predicate IsRun(states: seq<State>, actions: seq<Action>) {
    && |states| == |actions| + 1 && Initial(states[0])
    && forall i | 0 <= i < |actions| :: NextAt(states, actions, i)
  }

  // ----- What holds with or without a change of TLS mode -----

  /** The acceptor in the channel is the newest that any reload brought; the config is the newest
      one sent. */
  ghost predicate Channels(s: State) {
    && s.tls in s.withTls && (forall v | v in s.withTls :: v <= s.tls)
    && s.tls <= s.version
    && s.version == s.cfg + (if s.sending then 1 else 0)
    && forall id | id in s.conns :: s.conns[id].cfg <= s.cfg
  }

  lemma {:induction false} ChannelsHold(states: seq<State>, actions: seq<Action>, n: nat)
    requires IsRun(states, actions) && n < |states|
    ensures Channels(states[n])
  {
    if n > 0 {
      ChannelsHold(states, actions, n - 1);
      assert NextAt(states, actions, n - 1);
    }
  }

  // ----- Snapshot order -----

  /** Some reload begun so far brought an acceptor at least as new as a config. */
  ghost predicate CoveredByTls(s: State, cfg: nat) {
    exists v :: v in s.withTls && v >= cfg
  }

  ghost predicate OpenedAt(states: seq<State>, actions: seq<Action>, id: nat, k: nat)
    requires |states| == |actions| + 1
  {
    k < |actions| && actions[k] == ReadAcceptor(id)
  }

  /** An open connection is what its second read made of it. */
  lemma {:induction false} OpenSince(states: seq<State>, actions: seq<Action>, n: nat, id: nat) returns (k: nat)
    requires IsRun(states, actions) && n < |states| && id in states[n].conns && states[n].conns[id].Open?
    ensures k < n && OpenedAt(states, actions, id, k)
    ensures id in states[k].conns && states[n].conns[id] == Open(states[k].conns[id].cfg, states[k].tls)
  {
    assert n > 0;
    assert NextAt(states, actions, n - 1);
    if id in states[n - 1].conns && states[n - 1].conns[id].Open? {
      k := OpenSince(states, actions, n - 1, id);
    } else {
      k := n - 1;
    }
  }

  /** In every interleaving of reloads and accepts: a connection's acceptor is at least as new as
      its config exactly when, by the time it read the acceptor, some reload at least as new as
      that config had brought one. */
  lemma OrderedIff(states: seq<State>, actions: seq<Action>, id: nat, k: nat)
    requires IsRun(states, actions) && OpenedAt(states, actions, id, k)
    ensures id in states[k + 1].conns && states[k + 1].conns[id].Open?
    ensures var c := states[k + 1].conns[id]; c.cfg <= c.tls <==> CoveredByTls(states[k], c.cfg)
  {
    ChannelsHold(states, actions, k);
    assert NextAt(states, actions, k);
  }

  /** Later reloads do not change which of the earlier versions are TLS. */
  lemma {:induction false} TlsVersionsNew(states: seq<State>, actions: seq<Action>, m: nat, n: nat, v: nat)
    requires IsRun(states, actions) && m <= n < |states|
    requires v in states[n].withTls && v <= states[m].version
    ensures v in states[m].withTls
    decreases n
  {
    if m < n {
      ChannelsHold(states, actions, n - 1);
      VersionsGrow(states, actions, m, n - 1);
      assert NextAt(states, actions, n - 1);
      TlsVersionsNew(states, actions, m, n - 1, v);
    }
  }

  lemma {:induction false} VersionsGrow(states: seq<State>, actions: seq<Action>, m: nat, n: nat)
    requires IsRun(states, actions) && m <= n < |states|
    ensures states[m].version <= states[n].version
    decreases n
  {
    if m < n {
      VersionsGrow(states, actions, m, n - 1);
      assert NextAt(states, actions, n - 1);
    }
  }

  /** So whatever the other reloads do, a connection that runs with a TLS config is in order;
      toggling the listener to plain is the only way to lose it. */
  lemma TlsConfigIsOrdered(states: seq<State>, actions: seq<Action>, n: nat, id: nat)
    requires IsRun(states, actions) && n < |states| && id in states[n].conns && states[n].conns[id].Open?
    requires states[n].conns[id].cfg in states[n].withTls
    ensures states[n].conns[id].cfg <= states[n].conns[id].tls
  {
    var k := OpenSince(states, actions, n, id);
    var cfg := states[n].conns[id].cfg;
    ChannelsHold(states, actions, k);
    TlsVersionsNew(states, actions, k, n, cfg);
    OrderedIff(states, actions, id, k);
  }

  /** No reload makes the listener plain. */
  ghost predicate AlwaysTls(actions: seq<Action>) {
    forall i | 0 <= i < |actions| && actions[i].BeginReload? :: actions[i].hasTls
  }

  lemma {:induction false} AllVersionsTls(states: seq<State>, actions: seq<Action>, n: nat)
    requires IsRun(states, actions) && AlwaysTls(actions) && n < |states|
    ensures states[n].tls == states[n].version
    ensures forall v: nat :: v in states[n].withTls <==> v <= states[n].version
  {
    if n > 0 {
      AllVersionsTls(states, actions, n - 1);
      assert NextAt(states, actions, n - 1);
    }
  }

  /** For a listener whose TLS mode never changes, in every interleaving of reloads and accepts
      each connection's acceptor is at least as new as its config. */
  lemma SnapshotOrder(states: seq<State>, actions: seq<Action>, n: nat, id: nat)
    requires IsRun(states, actions) && AlwaysTls(actions) && n < |states|
    requires id in states[n].conns && states[n].conns[id].Open?
    ensures states[n].conns[id].cfg <= states[n].conns[id].tls
  {
    ChannelsHold(states, actions, n);
    AllVersionsTls(states, actions, n);
    TlsConfigIsOrdered(states, actions, n, id);
  }

  /** ... and the two are of one version exactly when no reload had begun past that config by the
      time the acceptor was read. */
  lemma SameVersionIff(states: seq<State>, actions: seq<Action>, id: nat, k: nat)
    requires IsRun(states, actions) && AlwaysTls(actions) && OpenedAt(states, actions, id, k)
    ensures id in states[k + 1].conns && states[k + 1].conns[id].Open?
    ensures var c := states[k + 1].conns[id]; c.tls == c.cfg <==> states[k].version == c.cfg
  {
    AllVersionsTls(states, actions, k);
    assert NextAt(states, actions, k);
  }

  /** The two can differ: an accept between the two sends takes the new acceptor with the old
      config. */
  lemma MixedSnapshot()
    ensures exists states: seq<State>, actions: seq<Action> ::
              IsRun(states, actions) && AlwaysTls(actions) && |states| == 4
              && 0 in states[3].conns && states[3].conns[0] == Open(0, 1)
  {
    var s0 := State(0, 0, 0, false, {0}, false, map[]);
    var s1 := s0.(version := 1, sending := true, tls := 1, withTls := {0} + {1});
    var s2 := s1.(conns := map[0 := Accepting(0)]);
    var s3 := s1.(conns := map[0 := Open(0, 1)]);
    var states := [s0, s1, s2, s3];
    var actions := [BeginReload(true), ReadConfig(0), ReadAcceptor(0)];
    assert s2.conns == s1.conns[0 := Accepting(0)];
    assert s3.conns == s2.conns[0 := Open(0, 1)];
    assert NextAt(states, actions, 0) && NextAt(states, actions, 1) && NextAt(states, actions, 2);
    assert IsRun(states, actions) && AlwaysTls(actions);
  }

  /** A reload that makes the listener plain does break the order: the next accept takes the plain
      config with the old acceptor. */
  lemma PlainReloadBreaksOrder()
    ensures exists states: seq<State>, actions: seq<Action> ::
              IsRun(states, actions) && |states| == 5 && actions[0] == BeginReload(false)
              && 0 in states[4].conns && states[4].conns[0] == Open(1, 0)
  {
    var s0 := State(0, 0, 0, false, {0}, false, map[]);
    var s1 := s0.(version := 1, sending := true);
    var s2 := s1.(cfg := 1, sending := false);
    var s3 := s2.(conns := map[0 := Accepting(1)]);
    var s4 := s2.(conns := map[0 := Open(1, 0)]);
    var states := [s0, s1, s2, s3, s4];
    var actions := [BeginReload(false), SendConfig, ReadConfig(0), ReadAcceptor(0)];
    assert s3.conns == s2.conns[0 := Accepting(1)];
    assert s4.conns == s3.conns[0 := Open(1, 0)];
    assert NextAt(states, actions, 0) && NextAt(states, actions, 1);
    assert NextAt(states, actions, 2) && NextAt(states, actions, 3);
    assert IsRun(states, actions);
  }

  // ----- One config per connection -----

  /** Step `m` is the config read of connection `id`. */
  ghost predicate AcceptedAt(states: seq<State>, actions: seq<Action>, id: nat, m: nat)
    requires |states| == |actions| + 1
  {
    m < |actions| && actions[m] == ReadConfig(id)
  }

  lemma {:induction false} ConnKeepsConfig(states: seq<State>, actions: seq<Action>, n: nat, id: nat) returns (m: nat)
    requires IsRun(states, actions) && n < |states| && id in states[n].conns
    ensures m < n && AcceptedAt(states, actions, id, m)
    ensures states[n].conns[id].cfg == states[m].cfg
  {
    assert n > 0;
    assert NextAt(states, actions, n - 1);
    if id in states[n - 1].conns {
      m := ConnKeepsConfig(states, actions, n - 1, id);
    } else {
      m := n - 1;
    }
  }

  lemma {:induction false} AcceptedOnce(states: seq<State>, actions: seq<Action>, id: nat, m: nat, n: nat)
    requires IsRun(states, actions) && AcceptedAt(states, actions, id, m) && m < n < |states|
    ensures id in states[n].conns
    decreases n
  {
    if n == m + 1 {
      assert NextAt(states, actions, m);
    } else {
      AcceptedOnce(states, actions, id, m, n - 1);
      assert NextAt(states, actions, n - 1);
    }
  }

  /** Every request on a connection, however many reloads or a stop came in between, is served
      with the config that was in force when the connection was accepted. */
  lemma RequestsUseAcceptedConfig(states: seq<State>, actions: seq<Action>, n: nat, m: nat, id: nat)
    requires IsRun(states, actions) && n < |actions|
    requires actions[n].Request? && actions[n].id == id && AcceptedAt(states, actions, id, m)
    ensures m < n && actions[n].cfg == states[m].cfg
  {
    assert NextAt(states, actions, n);
    var k := ConnKeepsConfig(states, actions, n, id);
    assert NextAt(states, actions, m) && NextAt(states, actions, k);
    if m < k {
      AcceptedOnce(states, actions, id, m, k);
    } else if k < m {
      AcceptedOnce(states, actions, id, k, m);
    }
  }
}
