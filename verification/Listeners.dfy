/** Grouping of server blocks into listeners (`build` in src/app.rs) and reconciliation of the
    running listeners with a new configuration (`reload_http` in src/supervisor.rs). */
module Listeners {
  import opened Common

  type Addr = string

  /** One server block: its address, its virtual host and, if it is a TLS server, its
      certificate. */
  datatype Block = Block(addr: Addr, vhost: string, cert: Option<string>)

  datatype ListenerCfg = ListenerCfg(addr: Addr, vhosts: seq<string>, certs: seq<string>)
  {
    predicate IsTls() { certs != [] }
  }

  // ----- Grouping by address -----

  ghost function VhostsAt(blocks: seq<Block>, a: Addr): seq<string> {
    if blocks == [] then []
    else
      var last := blocks[|blocks| - 1];
      VhostsAt(blocks[..|blocks| - 1], a) + if last.addr == a then [last.vhost] else []
  }

  ghost function CertsAt(blocks: seq<Block>, a: Addr): seq<string> {
    if blocks == [] then []
    else
      var last := blocks[|blocks| - 1];
      CertsAt(blocks[..|blocks| - 1], a) + if last.addr == a && last.cert.Some? then [last.cert.value] else []
  }

  /** The addresses in the order of their first block. */
  ghost function Order(blocks: seq<Block>): seq<Addr> {
    if blocks == [] then []
    else
      var o, last := Order(blocks[..|blocks| - 1]), blocks[|blocks| - 1];
      if last.addr in o then o else o + [last.addr]
  }

  ghost predicate Unmixed(blocks: seq<Block>) {
    forall i, j | 0 <= i < j < |blocks| && blocks[i].addr == blocks[j].addr ::
      blocks[i].cert.Some? == blocks[j].cert.Some?
  }

  ghost function Grouped(blocks: seq<Block>, a: Addr): ListenerCfg {
    ListenerCfg(a, VhostsAt(blocks, a), CertsAt(blocks, a))
  }

  /** One config per address, in the order of first blocks. */
  ghost predicate Built(cfgs: seq<ListenerCfg>, blocks: seq<Block>) {
    |cfgs| == |Order(blocks)| && forall i | 0 <= i < |cfgs| :: cfgs[i] == Grouped(blocks, Order(blocks)[i])
  }

  ghost predicate Distinct<T>(xs: seq<T>) {
    forall i, j | 0 <= i < j < |xs| :: xs[i] != xs[j]
  }

  lemma {:induction false} OrderProperties(blocks: seq<Block>)
    ensures Distinct(Order(blocks))
    ensures forall a :: a in Order(blocks) <==> exists i | 0 <= i < |blocks| :: blocks[i].addr == a
  {
    if blocks != [] {
      var init, last := blocks[..|blocks| - 1], blocks[|blocks| - 1];
      OrderProperties(init);
      forall a ensures a in Order(blocks) <==> exists i | 0 <= i < |blocks| :: blocks[i].addr == a {
        if i :| 0 <= i < |blocks| && blocks[i].addr == a {
          if i < |init| { assert init[i].addr == a; }
        }
        if a in Order(init) {
          var i :| 0 <= i < |init| && init[i].addr == a;
          assert blocks[i].addr == a;
        }
        if a == last.addr { assert blocks[|blocks| - 1].addr == a; }
      }
    }
  }

  /** Without mixing, a listener's blocks all carry a certificate or none does. */
  lemma {:induction false} AllOrNoneTls(blocks: seq<Block>, a: Addr)
    requires Unmixed(blocks)
    ensures |CertsAt(blocks, a)| == 0 || |CertsAt(blocks, a)| == |VhostsAt(blocks, a)|
    ensures forall i | 0 <= i < |blocks| && blocks[i].addr == a ::
              blocks[i].cert.Some? == (CertsAt(blocks, a) != []) && VhostsAt(blocks, a) != []
    ensures VhostsAt(blocks, a) != [] ==> exists i | 0 <= i < |blocks| :: blocks[i].addr == a
  {
    if blocks != [] {
      var n := |blocks| - 1;
      var init := blocks[..n];
      AllOrNoneTls(init, a);
      assert forall i | 0 <= i < n :: init[i] == blocks[i];
      if VhostsAt(init, a) != [] {
        var i :| 0 <= i < |init| && init[i].addr == a;
        assert blocks[i].addr == a && (blocks[n].addr == a ==> blocks[i].cert.Some? == blocks[n].cert.Some?);
      }
    }
  }

  /** A block may join the group of its address. */
  ghost predicate Fits(blocks: seq<Block>, b: Block) {
    VhostsAt(blocks, b.addr) == [] || (CertsAt(blocks, b.addr) == []) == b.cert.None?
  }

  lemma UnmixedExtends(blocks: seq<Block>, b: Block)
    requires Unmixed(blocks)
    ensures Unmixed(blocks + [b]) <==> Fits(blocks, b)
  {
    AllOrNoneTls(blocks, b.addr);
    var all := blocks + [b];
    assert forall i | 0 <= i < |blocks| :: all[i] == blocks[i];
    if !Fits(blocks, b) {
      var i :| 0 <= i < |blocks| && blocks[i].addr == b.addr;
      assert all[i].addr == all[|blocks|].addr && all[i].cert.Some? != all[|blocks|].cert.Some?;
    }
  }

  lemma MixedPrefix(blocks: seq<Block>, n: nat)
    requires n <= |blocks| && !Unmixed(blocks[..n])
    ensures !Unmixed(blocks)
  {
    var p := blocks[..n];
    var i, j :| 0 <= i < j < n && p[i].addr == p[j].addr && p[i].cert.Some? != p[j].cert.Some?;
    assert blocks[i] == p[i] && blocks[j] == p[j];
  }

  /** The table holds the group of every address seen so far. */
  ghost predicate Agrees(table: map<Addr, ListenerCfg>, blocks: seq<Block>) {
    forall a :: if a in table then table[a] == Grouped(blocks, a)
                else VhostsAt(blocks, a) == [] && CertsAt(blocks, a) == []
  }

  function Join(entry: ListenerCfg, b: Block): ListenerCfg {
    ListenerCfg(b.addr, entry.vhosts + [b.vhost],
                if b.cert.Some? then entry.certs + [b.cert.value] else entry.certs)
  }

  lemma AgreesExtends(table: map<Addr, ListenerCfg>, blocks: seq<Block>, b: Block)
    requires Agrees(table, blocks)
    ensures var entry := if b.addr in table then table[b.addr] else ListenerCfg(b.addr, [], []);
            Agrees(table[b.addr := Join(entry, b)], blocks + [b])
  {
    assert (blocks + [b])[..|blocks|] == blocks;
  }

  /** Where the grouping loop stands after some blocks. */
  ghost predicate Grouping(table: map<Addr, ListenerCfg>, order: seq<Addr>, blocks: seq<Block>) {
    && Unmixed(blocks) && Agrees(table, blocks) && order == Order(blocks)
    && forall a :: a in table <==> a in order
  }

  /** One round of the grouping loop: None if the block mixes TLS and plain on its address. */
  method Place(table: map<Addr, ListenerCfg>, order: seq<Addr>, blocks: seq<Block>, i: nat)
    returns (placed: Option<map<Addr, ListenerCfg>>, order': seq<Addr>)
    requires i < |blocks| && Grouping(table, order, blocks[..i])
    ensures placed.Some? ==> Grouping(placed.value, order', blocks[..i + 1])
    ensures placed.None? ==> !Unmixed(blocks)
  {
    var b := blocks[i];
    assert blocks[..i + 1] == blocks[..i] + [b] && blocks[..i + 1][..i] == blocks[..i];
    UnmixedExtends(blocks[..i], b);
    AgreesExtends(table, blocks[..i], b);
    var entry := ListenerCfg(b.addr, [], []);
    order' := order;
    if b.addr in table {
      entry := table[b.addr];
    } else {
      order' := order' + [b.addr];
    }
    if entry.vhosts != [] && (entry.certs == []) != b.cert.None? {
      MixedPrefix(blocks, i + 1);
      return None, order';
    }
    placed := Some(table[b.addr := Join(entry, b)]);
  }

  /** The listeners in order of address. */
  method Collect(table: map<Addr, ListenerCfg>, order: seq<Addr>, ghost blocks: seq<Block>)
    returns (cfgs: seq<ListenerCfg>)
    requires Grouping(table, order, blocks)
    ensures Built(cfgs, blocks)
  {
    assert forall i | 0 <= i < |order| :: order[i] in table;
    cfgs := seq(|order|, i requires 0 <= i < |order| => table[order[i]]);
  }

  /** `build` groups the blocks by address, in order, and refuses exactly the configurations that
      mix TLS and plain blocks on one address. */
  method Group(blocks: seq<Block>) returns (r: Result<seq<ListenerCfg>, Addr>)
    ensures r.Ok? <==> Unmixed(blocks)
    ensures r.Ok? ==> Built(r.value, blocks)
  {
    var table: map<Addr, ListenerCfg> := map[];
    var order: seq<Addr> := [];
    var i := 0;
    while i < |blocks|
      invariant 0 <= i <= |blocks|
      invariant Grouping(table, order, blocks[..i])
    {
      var placed;
      placed, order := Place(table, order, blocks, i);
      if placed.None? {
        return Err(blocks[i].addr);
      }
      table, i := placed.value, i + 1;
    }
    assert blocks[..i] == blocks;
    var cfgs := Collect(table, order, blocks);
    r := Ok(cfgs);
  }

  // ----- Reconciliation -----

  /** A running listener: its task never changes, nor does whether it terminates TLS; `acceptor`
      is the config its current acceptor was built from. */
  datatype Listener = Listener(addr: Addr, task: nat, cfg: ListenerCfg, acceptor: Option<ListenerCfg>)

  type Wanted = map<Addr, ListenerCfg>

  function WantedOf(cfgs: seq<ListenerCfg>): Wanted {
    if cfgs == [] then map[]
    else
      var last := cfgs[|cfgs| - 1];
      WantedOf(cfgs[..|cfgs| - 1])[last.addr := last]
  }

  /** A new config sent to a running listener; the acceptor follows if both are TLS. */
  function Resend(l: Listener, cfg: ListenerCfg): Listener {
    l.(cfg := cfg, acceptor := if l.acceptor.Some? && cfg.IsTls() then Some(cfg) else l.acceptor)
  }

  function Spawned(cfg: ListenerCfg, task: nat): Listener {
    Listener(cfg.addr, task, cfg, if cfg.IsTls() then Some(cfg) else None)
  }

  ghost function Kept(ls: seq<Listener>, w: Wanted): seq<Listener> {
    if ls == [] then []
    else (if ls[0].addr in w then [Resend(ls[0], w[ls[0].addr])] else []) + Kept(ls[1..], w)
  }

  ghost function Removed(ls: seq<Listener>, w: Wanted): seq<nat> {
    if ls == [] then []
    else (if ls[0].addr in w then [] else [ls[0].task]) + Removed(ls[1..], w)
  }

  ghost function Addrs(ls: seq<Listener>): set<Addr> {
    set l | l in ls :: l.addr
  }

  /** Listeners started for `addrs`, with new tasks from `lo` up to `hi`. */
  ghost predicate Starts(started: seq<Listener>, w: Wanted, addrs: set<Addr>, lo: nat, hi: nat) {
    && hi == lo + |started|
    && Addrs(started) == addrs
    && (forall i, j | 0 <= i < j < |started| :: started[i].addr != started[j].addr)
    && forall i | 0 <= i < |started| ::
         started[i].addr in w && started[i] == Spawned(w[started[i].addr], lo + i)
  }

  /** One address has one listener; task numbers are unique and below the next one. */
  ghost predicate Inv(ls: seq<Listener>, nextTask: nat) {
    && (forall i, j | 0 <= i < j < |ls| :: ls[i].addr != ls[j].addr && ls[i].task != ls[j].task)
    && forall i | 0 <= i < |ls| :: ls[i].task < nextTask
  }

  ghost predicate WellKeyed(w: Wanted) {
    forall a | a in w :: w[a].addr == a
  }

  lemma {:induction false} WantedWellKeyed(cfgs: seq<ListenerCfg>)
    ensures WellKeyed(WantedOf(cfgs))
  {
    if cfgs != [] {
      WantedWellKeyed(cfgs[..|cfgs| - 1]);
    }
  }

  /** `build` gives one config per address, so nothing is lost in the wanted table. */
  lemma {:induction false} WantedKeepsAll(cfgs: seq<ListenerCfg>)
    requires forall i, j | 0 <= i < j < |cfgs| :: cfgs[i].addr != cfgs[j].addr
    ensures forall i | 0 <= i < |cfgs| :: cfgs[i].addr in WantedOf(cfgs) && WantedOf(cfgs)[cfgs[i].addr] == cfgs[i]
    ensures forall a :: a in WantedOf(cfgs) ==> exists i | 0 <= i < |cfgs| :: cfgs[i].addr == a
  {
    if cfgs != [] {
      var n := |cfgs| - 1;
      WantedKeepsAll(cfgs[..n]);
      assert forall i | 0 <= i < n :: cfgs[..n][i] == cfgs[i];
      forall a | a in WantedOf(cfgs) ensures exists i | 0 <= i < |cfgs| :: cfgs[i].addr == a {
        if a == cfgs[n].addr {
          assert cfgs[n].addr == a;
        } else {
          var i :| 0 <= i < n && cfgs[..n][i].addr == a;
          assert cfgs[i].addr == a;
        }
      }
    }
  }

  datatype State = State(listeners: seq<Listener>, nextTask: nat)

  /** One reload: the wanted configs, the addresses that can be bound, the tasks told to stop and
      the listeners started. */
  datatype Reload = Reload(cfgs: seq<ListenerCfg>, bindable: set<Addr>, stopped: seq<nat>, started: seq<Listener>)

  ghost predicate Reloads(s: State, r: Reload, s': State) {
    var w := WantedOf(r.cfgs);
    && r.stopped == Removed(s.listeners, w)
    && Starts(r.started, w, (w.Keys - Addrs(s.listeners)) * r.bindable, s.nextTask, s'.nextTask)
    && s'.listeners == Kept(s.listeners, w) + r.started
  }

  class Supervisor {
    var listeners: seq<Listener>
    var nextTask: nat

    ghost predicate Valid()
      reads this
    {
      Inv(listeners, nextTask)
    }

    ghost function Snapshot(): State
      reads this
    {
      State(listeners, nextTask)
    }

    constructor ()
      ensures Valid() && listeners == []
    {
      listeners, nextTask := [], 0;
    }

    method ReloadHttp(cfgs: seq<ListenerCfg>, bindable: set<Addr>)
      returns (stopped: seq<nat>, started: seq<Listener>)
      requires Valid()
      modifies this
      ensures Valid()
      ensures Reloads(old(Snapshot()), Reload(cfgs, bindable, stopped, started), Snapshot())
    {
      var wanted := WantedOf(cfgs);
      WantedWellKeyed(cfgs);
      var kept, missing;
      kept, stopped, missing := Reconcile(listeners, wanted);
      started, nextTask := StartAll(wanted, missing, bindable, nextTask);
      listeners := kept + started;
      ReloadAddresses(old(Snapshot()), Reload(cfgs, bindable, stopped, started), Snapshot());
    }
  }

  /** The drain loop over the running listeners; `missing` is what is left of the wanted
      addresses. */
  method Reconcile(ls: seq<Listener>, w: Wanted)
    returns (kept: seq<Listener>, stopped: seq<nat>, missing: set<Addr>)
    requires forall i, j | 0 <= i < j < |ls| :: ls[i].addr != ls[j].addr
    ensures kept == Kept(ls, w) && stopped == Removed(ls, w) && missing == w.Keys - Addrs(ls)
  {
    kept, stopped, missing := [], [], w.Keys;
    for i := 0 to |ls|
      invariant Kept(ls, w) == kept + Kept(ls[i..], w)
      invariant Removed(ls, w) == stopped + Removed(ls[i..], w)
      invariant missing == w.Keys - Addrs(ls[..i])
    {
      SeenOnce(ls, i);
      KeptStep(ls, w, i, kept, stopped);
      if ls[i].addr in missing {
        missing := missing - {ls[i].addr};
        kept := kept + [Resend(ls[i], w[ls[i].addr])];
      } else {
        stopped := stopped + [ls[i].task];
      }
    }
    assert ls[..|ls|] == ls;
  }

  lemma KeptStep(ls: seq<Listener>, w: Wanted, i: nat, kept: seq<Listener>, stopped: seq<nat>)
    requires i < |ls|
    ensures kept + Kept(ls[i..], w) ==
            (if ls[i].addr in w then kept + [Resend(ls[i], w[ls[i].addr])] else kept) + Kept(ls[i + 1..], w)
    ensures stopped + Removed(ls[i..], w) ==
            (if ls[i].addr in w then stopped else stopped + [ls[i].task]) + Removed(ls[i + 1..], w)
  {
    assert ls[i..][1..] == ls[i + 1..];
  }

  lemma SeenOnce(ls: seq<Listener>, i: nat)
    requires i < |ls| && forall j, k | 0 <= j < k < |ls| :: ls[j].addr != ls[k].addr
    ensures ls[i].addr !in Addrs(ls[..i])
    ensures Addrs(ls[..i + 1]) == Addrs(ls[..i]) + {ls[i].addr}
  {
    AddrsConcat(ls[..i], [ls[i]]);
    assert ls[..i + 1] == ls[..i] + [ls[i]];
    assert Addrs([ls[i]]) == {ls[i].addr} by { assert ls[i] in [ls[i]]; }
  }

  /** The loop that binds what is left of the wanted addresses, in any order. */
  method StartAll(w: Wanted, missing: set<Addr>, bindable: set<Addr>, lo: nat)
    returns (started: seq<Listener>, hi: nat)
    requires missing <= w.Keys && WellKeyed(w)
    ensures Starts(started, w, missing * bindable, lo, hi)
  {
    started, hi := [], lo;
    var left := missing;
    ghost var done: set<Addr> := {};
    while left != {}
      invariant left <= missing && done == (missing - left) * bindable
      invariant Starts(started, w, done, lo, hi)
      decreases |left|
    {
      var a :| a in left;
      assert (missing - (left - {a})) * bindable == done + ({a} * bindable);
      if a in bindable {
        StartsExtends(started, w, done, lo, hi, a);
        started := started + [Spawned(w[a], hi)];
        hi := hi + 1;
        done := done + {a};
      }
      left := left - {a};
    }
    assert done == missing * bindable;
  }

  lemma StartsExtends(started: seq<Listener>, w: Wanted, addrs: set<Addr>, lo: nat, hi: nat, a: Addr)
    requires Starts(started, w, addrs, lo, hi) && a in w && w[a].addr == a && a !in addrs
    ensures Starts(started + [Spawned(w[a], hi)], w, addrs + {a}, lo, hi + 1)
  {
    var l := Spawned(w[a], hi);
    forall i | 0 <= i < |started| ensures started[i].addr != a {
      assert started[i] in started && started[i].addr in Addrs(started);
    }
    AddrsConcat(started, [l]);
    assert Addrs([l]) == {a} by { assert l in [l]; }
  }

  lemma AddrsConcat(xs: seq<Listener>, ys: seq<Listener>)
    ensures Addrs(xs + ys) == Addrs(xs) + Addrs(ys)
  {
    assert forall l :: l in xs + ys <==> l in xs || l in ys;
  }

  // ----- What a reload achieves -----

  lemma {:induction false} KeptMember(ls: seq<Listener>, w: Wanted, l': Listener)
    ensures l' in Kept(ls, w) <==> exists i | 0 <= i < |ls| :: ls[i].addr in w && l' == Resend(ls[i], w[ls[i].addr])
  {
    if ls != [] {
      KeptMember(ls[1..], w, l');
      if i :| 0 <= i < |ls| && ls[i].addr in w && l' == Resend(ls[i], w[ls[i].addr]) {
        if i > 0 { assert ls[1..][i - 1] == ls[i]; }
      }
      if l' in Kept(ls[1..], w) {
        var i :| 0 <= i < |ls[1..]| && ls[1..][i].addr in w && l' == Resend(ls[1..][i], w[ls[1..][i].addr]);
        assert ls[i + 1] == ls[1..][i];
      }
    }
  }

  lemma {:induction false} KeptDiffers(ls: seq<Listener>, w: Wanted, l: Listener, nextTask: nat)
    requires forall i | 0 <= i < |ls| :: ls[i].addr != l.addr && ls[i].task != l.task && ls[i].task < nextTask
    ensures forall i | 0 <= i < |Kept(ls, w)| ::
              Kept(ls, w)[i].addr != l.addr && Kept(ls, w)[i].task != l.task && Kept(ls, w)[i].task < nextTask
  {
    if ls != [] {
      KeptDiffers(ls[1..], w, l, nextTask);
    }
  }

  lemma {:induction false} KeptInv(ls: seq<Listener>, w: Wanted, nextTask: nat)
    requires Inv(ls, nextTask)
    ensures Inv(Kept(ls, w), nextTask)
  {
    if ls != [] {
      assert Inv(ls[1..], nextTask);
      KeptInv(ls[1..], w, nextTask);
      KeptDiffers(ls[1..], w, ls[0], nextTask);
    }
  }

  lemma KeptAddrs(ls: seq<Listener>, w: Wanted)
    ensures Addrs(Kept(ls, w)) == Addrs(ls) * w.Keys
  {
    forall a ensures a in Addrs(Kept(ls, w)) <==> a in Addrs(ls) && a in w {
      if a in Addrs(Kept(ls, w)) {
        var l :| l in Kept(ls, w) && l.addr == a;
        KeptMember(ls, w, l);
      }
      if a in Addrs(ls) && a in w {
        var l :| l in ls && l.addr == a;
        var i :| 0 <= i < |ls| && ls[i] == l;
        KeptMember(ls, w, Resend(l, w[a]));
        assert Resend(l, w[a]) in Kept(ls, w);
      }
    }
  }

  /** After a reload the running addresses are the wanted ones that were running already or could
      be bound, each once; task numbers stay unique. */
  lemma ReloadAddresses(s: State, r: Reload, s': State)
    requires Inv(s.listeners, s.nextTask) && Reloads(s, r, s')
    ensures Inv(s'.listeners, s'.nextTask)
    ensures var wanted := WantedOf(r.cfgs).Keys;
            Addrs(s'.listeners) == wanted * (Addrs(s.listeners) + r.bindable)
  {
    var w := WantedOf(r.cfgs);
    var kept := Kept(s.listeners, w);
    WantedWellKeyed(r.cfgs);
    KeptInv(s.listeners, w, s.nextTask);
    KeptAddrs(s.listeners, w);
    AddrsConcat(kept, r.started);
    forall i, j | 0 <= i < |kept| && 0 <= j < |r.started| ensures kept[i].addr != r.started[j].addr {
      assert kept[i] in kept && kept[i].addr in Addrs(kept);
      assert r.started[j] in r.started && r.started[j].addr in Addrs(r.started);
    }
  }

  /** A listener whose address is still wanted keeps its task and its TLS mode and is sent the new
      config, with a new acceptor if old and new are TLS; the others are told to stop. */
  lemma ReloadRetains(s: State, r: Reload, s': State, l: Listener)
    requires Reloads(s, r, s') && l in s.listeners
    ensures var w := WantedOf(r.cfgs);
            if l.addr in w then
              exists l' | l' in s'.listeners ::
                && l'.addr == l.addr && l'.task == l.task && l'.cfg == w[l.addr]
                && l'.acceptor == (if l.acceptor.Some? && w[l.addr].certs != [] then Some(w[l.addr]) else l.acceptor)
            else l.task in r.stopped
  {
    var w := WantedOf(r.cfgs);
    var i :| 0 <= i < |s.listeners| && s.listeners[i] == l;
    if l.addr in w {
      var l' := Resend(l, w[l.addr]);
      KeptMember(s.listeners, w, l');
      assert l' in s'.listeners;
    } else {
      RemovedMember(s.listeners, w, i);
    }
  }

  lemma {:induction false} RemovedMember(ls: seq<Listener>, w: Wanted, i: nat)
    requires i < |ls| && ls[i].addr !in w
    ensures ls[i].task in Removed(ls, w)
  {
    if i > 0 {
      RemovedMember(ls[1..], w, i - 1);
    }
  }

  /** Only listeners whose address is no longer wanted are told to stop, each once. */
  lemma {:induction false} StoppedAreUnwanted(ls: seq<Listener>, w: Wanted, task: nat)
    ensures task in Removed(ls, w) ==> exists i | 0 <= i < |ls| :: ls[i].task == task && ls[i].addr !in w
    ensures |Kept(ls, w)| + |Removed(ls, w)| == |ls|
  {
    if ls != [] {
      StoppedAreUnwanted(ls[1..], w, task);
      if task in Removed(ls[1..], w) {
        var i :| 0 <= i < |ls[1..]| && ls[1..][i].task == task && ls[1..][i].addr !in w;
        assert ls[i + 1].task == task && ls[i + 1].addr !in w;
      }
    }
  }

  lemma {:induction false} KeptAll(ls: seq<Listener>, w: Wanted)
    requires forall i | 0 <= i < |ls| :: ls[i].addr in w
    ensures |Kept(ls, w)| == |ls| && Removed(ls, w) == []
    ensures forall i | 0 <= i < |ls| :: Kept(ls, w)[i] == Resend(ls[i], w[ls[i].addr])
  {
    if ls != [] {
      KeptAll(ls[1..], w);
    }
  }

  /** Reloading a config whose addresses are exactly the running ones stops and starts nothing and
      keeps every task in its place. */
  lemma SameConfigReplacesNothing(s: State, r: Reload, s': State)
    requires Reloads(s, r, s') && WantedOf(r.cfgs).Keys == Addrs(s.listeners)
    ensures r.stopped == [] && r.started == [] && s'.nextTask == s.nextTask
    ensures |s'.listeners| == |s.listeners|
    ensures forall i | 0 <= i < |s.listeners| ::
              s'.listeners[i].addr == s.listeners[i].addr && s'.listeners[i].task == s.listeners[i].task
  {
    var w := WantedOf(r.cfgs);
    forall i | 0 <= i < |s.listeners| ensures s.listeners[i].addr in w {
      assert s.listeners[i] in s.listeners && s.listeners[i].addr in Addrs(s.listeners);
    }
    KeptAll(s.listeners, w);
    assert Addrs(r.started) == {};
    NoAddrs(r.started);
  }

  lemma NoAddrs(ls: seq<Listener>)
    ensures ls != [] ==> Addrs(ls) != {}
  {
    if ls != [] {
      assert ls[0] in ls && ls[0].addr in Addrs(ls);
    }
  }

  lemma RunsWantedConfig(s: State, r: Reload, s': State, l: Listener)
    requires Reloads(s, r, s') && l in s'.listeners
    ensures l.addr in WantedOf(r.cfgs) && l.cfg == WantedOf(r.cfgs)[l.addr]
  {
    var w := WantedOf(r.cfgs);
    WantedWellKeyed(r.cfgs);
    if l in Kept(s.listeners, w) {
      KeptMember(s.listeners, w, l);
    } else {
      var i :| 0 <= i < |r.started| && r.started[i] == l;
    }
  }

  lemma BuiltIsWanted(cfgs: seq<ListenerCfg>, blocks: seq<Block>, a: Addr)
    requires Built(cfgs, blocks)
    ensures a in WantedOf(cfgs) <==> a in Order(blocks)
    ensures a in WantedOf(cfgs) ==> WantedOf(cfgs)[a] == Grouped(blocks, a)
  {
    OrderProperties(blocks);
    WantedKeepsAll(cfgs);
    if a in Order(blocks) {
      var i :| 0 <= i < |cfgs| && Order(blocks)[i] == a;
      assert cfgs[i].addr == a;
    }
  }

  /** From server blocks to listeners: a reload with the configs built from the blocks leaves every
      address of the blocks that ran already or can be bound, and no other, with one listener, and
      that listener has the config grouped from the blocks of its address. */
  lemma ReloadServesBlocks(s: State, r: Reload, s': State, blocks: seq<Block>)
    requires Inv(s.listeners, s.nextTask) && Reloads(s, r, s') && Built(r.cfgs, blocks)
    ensures Inv(s'.listeners, s'.nextTask)
    ensures forall a :: a in Addrs(s'.listeners) <==> a in Order(blocks) && (a in Addrs(s.listeners) || a in r.bindable)
    ensures forall l | l in s'.listeners :: l.cfg == Grouped(blocks, l.addr)
  {
    ReloadAddresses(s, r, s');
    forall a ensures a in WantedOf(r.cfgs) <==> a in Order(blocks) {
      BuiltIsWanted(r.cfgs, blocks, a);
    }
    forall l | l in s'.listeners ensures l.cfg == Grouped(blocks, l.addr) {
      RunsWantedConfig(s, r, s', l);
      BuiltIsWanted(r.cfgs, blocks, l.addr);
    }
  }

  /** So when every address binds, the listeners are the built ones, each once. */
  lemma AllBound(s: State, r: Reload, s': State, blocks: seq<Block>)
    requires Inv(s.listeners, s.nextTask) && Reloads(s, r, s') && Built(r.cfgs, blocks)
    requires forall a | a in Order(blocks) :: a in Addrs(s.listeners) || a in r.bindable
    ensures forall a | a in Order(blocks) ::
              exists i | 0 <= i < |s'.listeners| ::
                && s'.listeners[i].addr == a && s'.listeners[i].cfg == Grouped(blocks, a)
                && forall j | 0 <= j < |s'.listeners| && s'.listeners[j].addr == a :: j == i
    ensures Addrs(s'.listeners) == set a | a in Order(blocks)
  {
    ReloadServesBlocks(s, r, s', blocks);
    forall a | a in Order(blocks)
      ensures exists i | 0 <= i < |s'.listeners| ::
                && s'.listeners[i].addr == a && s'.listeners[i].cfg == Grouped(blocks, a)
                && forall j | 0 <= j < |s'.listeners| && s'.listeners[j].addr == a :: j == i
    {
      assert a in Addrs(s'.listeners);
      var l :| l in s'.listeners && l.addr == a;
      var i :| 0 <= i < |s'.listeners| && s'.listeners[i] == l;
    }
  }

  // ----- TLS mode -----

  /** A started listener has an acceptor, made from its own config, exactly when that has a
      certificate. */
  lemma StartedMode(s: State, r: Reload, s': State, l: Listener)
    requires Reloads(s, r, s') && l in r.started
    ensures l.addr in r.bindable && l.addr !in Addrs(s.listeners)
    ensures l.acceptor == if l.cfg.certs != [] then Some(l.cfg) else None
  {
    var i :| 0 <= i < |r.started| && r.started[i] == l;
    assert l.addr in Addrs(r.started);
  }

  /** From server blocks: a newly served address terminates TLS exactly when a block of it has a
      certificate, and then every block of it has. */
  lemma NewAddressMode(s: State, r: Reload, s': State, blocks: seq<Block>, l: Listener)
    requires Reloads(s, r, s') && Built(r.cfgs, blocks) && Unmixed(blocks) && l in r.started
    ensures forall i | 0 <= i < |blocks| && blocks[i].addr == l.addr :: blocks[i].cert.Some? == l.acceptor.Some?
    ensures exists i | 0 <= i < |blocks| :: blocks[i].addr == l.addr
  {
    StartedMode(s, r, s', l);
    assert l in s'.listeners;
    RunsWantedConfig(s, r, s', l);
    BuiltIsWanted(r.cfgs, blocks, l.addr);
    AllOrNoneTls(blocks, l.addr);
    OrderProperties(blocks);
  }

  /** The virtual hosts and certificates of an address, spelled out: those of its blocks, each block
      adding its own behind those declared before it. */
  lemma GroupedExtends(blocks: seq<Block>, b: Block, a: Addr)
    ensures Grouped(blocks, a).addr == a
    ensures Grouped([], a).vhosts == [] && Grouped([], a).certs == []
    ensures Grouped(blocks + [b], a).vhosts == if b.addr == a then Grouped(blocks, a).vhosts + [b.vhost]
                                               else Grouped(blocks, a).vhosts
    ensures Grouped(blocks + [b], a).certs == if b.addr == a && b.cert.Some? then Grouped(blocks, a).certs + [b.cert.value]
                                              else Grouped(blocks, a).certs
  {
    assert (blocks + [b])[..|blocks|] == blocks;
  }

  // ----- Runs of reloads -----

  ghost predicate ReloadAt(states: seq<State>, reloads: seq<Reload>, i: nat)
    requires |states| == |reloads| + 1 && i < |reloads|
  {
    Reloads(states[i], reloads[i], states[i + 1])
  }

  ghost predicate IsRun(states: seq<State>, reloads: seq<Reload>) {
    && |states| == |reloads| + 1 && Inv(states[0].listeners, states[0].nextTask)
    && forall i | 0 <= i < |reloads| :: ReloadAt(states, reloads, i)
  }

  /** Over every run of reloads the running addresses and tasks stay distinct. */
  lemma {:induction false} RunKeepsInv(states: seq<State>, reloads: seq<Reload>, n: nat)
    requires IsRun(states, reloads) && n < |states|
    ensures Inv(states[n].listeners, states[n].nextTask)
  {
    if n > 0 {
      RunKeepsInv(states, reloads, n - 1);
      assert ReloadAt(states, reloads, n - 1);
      ReloadAddresses(states[n - 1], reloads[n - 1], states[n]);
    }
  }

  ghost predicate Runs(s: State, a: Addr, task: nat) {
    exists l :: l in s.listeners && l.addr == a && l.task == task
  }

  ghost predicate WantedThroughout(reloads: seq<Reload>, a: Addr, m: nat, n: nat)
    requires n <= |reloads|
  {
    forall i | m <= i < n :: a in WantedOf(reloads[i].cfgs)
  }

  /** An address that every reload of a stretch wants is served by one and the same task
      throughout it. */
  lemma {:induction false} TaskSurvives(states: seq<State>, reloads: seq<Reload>, a: Addr, task: nat, m: nat, n: nat)
    requires IsRun(states, reloads) && m <= n < |states| && WantedThroughout(reloads, a, m, n)
    requires Runs(states[m], a, task)
    ensures Runs(states[n], a, task)
    decreases n
  {
    if m < n {
      TaskSurvives(states, reloads, a, task, m, n - 1);
      var l :| l in states[n - 1].listeners && l.addr == a && l.task == task;
      assert ReloadAt(states, reloads, n - 1);
      ReloadRetains(states[n - 1], reloads[n - 1], states[n], l);
    }
  }

  /** A task that was told to stop never serves again. */
  lemma {:induction false} StoppedForGood(states: seq<State>, reloads: seq<Reload>, a: Addr, task: nat, m: nat, n: nat)
    requires IsRun(states, reloads) && m < n < |states|
    requires Runs(states[m], a, task) && a !in WantedOf(reloads[m].cfgs)
    ensures task < states[n].nextTask && forall b :: !Runs(states[n], b, task)
    decreases n
  {
    assert ReloadAt(states, reloads, n - 1);
    RunKeepsInv(states, reloads, n - 1);
    if n > m + 1 {
      StoppedForGood(states, reloads, a, task, m, n - 1);
    } else {
      OldTask(states[m], a, task);
    }
    forall b ensures !Runs(states[n], b, task) {
      TaskOrigin(states[n - 1], reloads[n - 1], states[n], b, task);
      OneAddrPerTask(states[n - 1], a, b, task);
    }
  }

  lemma OldTask(s: State, a: Addr, task: nat)
    requires Inv(s.listeners, s.nextTask) && Runs(s, a, task)
    ensures task < s.nextTask
  {
    var l :| l in s.listeners && l.addr == a && l.task == task;
    var i :| 0 <= i < |s.listeners| && s.listeners[i] == l;
  }

  lemma OneAddrPerTask(s: State, a: Addr, b: Addr, task: nat)
    requires Inv(s.listeners, s.nextTask)
    ensures Runs(s, a, task) && Runs(s, b, task) ==> a == b
  {
    if Runs(s, a, task) && Runs(s, b, task) {
      var l :| l in s.listeners && l.addr == a && l.task == task;
      var k :| k in s.listeners && k.addr == b && k.task == task;
      var i :| 0 <= i < |s.listeners| && s.listeners[i] == l;
      var j :| 0 <= j < |s.listeners| && s.listeners[j] == k;
      assert i == j;
    }
  }

  /** A task that is not new in a reload was running before it, at an address that is wanted. */
  lemma TaskOrigin(s: State, r: Reload, s': State, b: Addr, task: nat)
    requires Reloads(s, r, s')
    ensures Runs(s', b, task) && task < s.nextTask ==> Runs(s, b, task) && b in WantedOf(r.cfgs)
  {
    if Runs(s', b, task) && task < s.nextTask {
      var w := WantedOf(r.cfgs);
      var l' :| l' in s'.listeners && l'.addr == b && l'.task == task;
      assert l' in Kept(s.listeners, w);
      KeptMember(s.listeners, w, l');
    }
  }

  /** A task serves an address with TLS, or without. */
  ghost predicate RunsMode(s: State, a: Addr, task: nat, tls: bool) {
    exists l :: l in s.listeners && l.addr == a && l.task == task && l.acceptor.Some? == tls
  }

  /** An address keeps its TLS mode as long as its task serves it, whatever the configs say. */
  lemma {:induction false} ModeStays(states: seq<State>, reloads: seq<Reload>, a: Addr, task: nat, tls: bool, m: nat, n: nat)
    requires IsRun(states, reloads) && m <= n < |states| && WantedThroughout(reloads, a, m, n)
    requires RunsMode(states[m], a, task, tls)
    ensures RunsMode(states[n], a, task, tls)
    decreases n
  {
    if m < n {
      ModeStays(states, reloads, a, task, tls, m, n - 1);
      var l :| l in states[n - 1].listeners && l.addr == a && l.task == task && l.acceptor.Some? == tls;
      assert ReloadAt(states, reloads, n - 1);
      ReloadRetains(states[n - 1], reloads[n - 1], states[n], l);
    }
  }
}
