/** Concrete runs of one Linux node, from its start. Commands are numbered in the order in
    which the source runs them, and each run says which of them fails. */
module Instances {
  import opened Common
  import opened Cidrs
  import opened Addressing
  import opened Peers
  import opened Routing
  import opened Translations
  import opened Platform
  import opened RouteSync
  import opened VpnModel
  import opened VpnRuns

  const PEER_HASH: AddressHash := AddressHash([1, 1, 1, 1, 1, 1, 1, 1, 1, 1, 1, 1, 1, 1, 1, 1])

  /** A node with iptables, hash zero, in the network 10.20.0.0/16. */
  function LinuxNode(): Config {
    Pow2Values();
    ConfigData(ZERO_HASH, Block(10 * 0x100_0000 + 20 * 0x1_0000, 16), true, true)
  }

  /** The single address 172.16.0.`host`. */
  function HostRoute(host: Byte): Cidr {
    Pow2Values();
    Block(172 * 0x100_0000 + 16 * 0x1_0000 + host, 32)
  }

  /** The network 192.168.10.0/24. */
  function HomeLan(): (lan: Cidr)
    ensures lan.len == 24
  {
    Pow2Values();
    Block(192 * 0x100_0000 + 168 * 0x1_0000 + 10 * 0x100, 24)
  }

  /** The route does not cover our tunnel IP. */
  ghost predicate Spared(cfg: Config, route: Cidr) {
    !Contains(route, TunnelIp(cfg.network, cfg.destination))
  }

  lemma HostRouteSpared(host: Byte)
    ensures Spared(LinuxNode(), HostRoute(host)) && PEER_HASH != LinuxNode().destination
  {
    Pow2Values();
    HornerZeros(ZERO_HASH.octets, 131);
    assert PEER_HASH.octets[0] == 1 && ZERO_HASH.octets[0] == 0;
  }

  // ── Syncs ──────────────────────────────────────────────────────────────────

  ghost predicate Unfaulted(k: KernelView, count: nat) {
    forall i: nat :: k.commands <= i < k.commands + count ==> i !in k.faults
  }

  lemma RebuildExists(cfg: Config, s: VpnState, now: nat) returns (mid: VpnState)
    ensures Rebuilt(cfg, s, now, mid)
  {
    var views := Enumerate(s.peers.Values);
    assert Elements(views) == s.peers.Values;
    var table := TableExists(views, now, LocalOf(cfg));
    mid := s.(table := table, rebuiltAt := now);
  }

  /** A sync with iptables in which no command fails. */
  ghost function Flawless(cfg: Config, s: VpnState): VpnState {
    var plan, k := PlanFor(cfg, s), s.kernel;
    var active := Active(plan.translations);
    s.(installed := plan.desired, conflicted := plan.conflicts, failed := false,
       kernel := k.(routes := k.routes - (s.installed - plan.desired) + plan.desired,
                    pre := PreRules(active), post := PostRules(active), mss := true,
                    commands := k.commands + CommandCount(plan, SyncPart(s))))
  }

  lemma FlawlessSync(cfg: Config, s: VpnState)
    requires cfg.hasInterface && s.kernel.iptables
    requires Unfaulted(s.kernel, CommandCount(PlanFor(cfg, s), SyncPart(s)))
    ensures SyncStep(cfg, s, Flawless(cfg, s))
  {
    var s' := Flawless(cfg, s);
    assert !Faulted(s.kernel, s'.kernel);
    assert KernelMoved(PlanFor(cfg, s), SyncPart(s), SyncPart(s'), true);
  }

  /** A sync without stale routes whose second command fails: one wanted route is added. */
  ghost function Halted(s: VpnState, route: Cidr): VpnState {
    s.(failed := true, kernel := s.kernel.(routes := s.kernel.routes + {route}, commands := s.kernel.commands + 2,
                                           failures := s.kernel.failures + 1))
  }

  lemma HaltedSync(cfg: Config, s: VpnState, route: Cidr)
    requires cfg.hasInterface && s.kernel.iptables && s.installed == {} && route in PlanFor(cfg, s).desired
    requires s.kernel.commands + 1 in s.kernel.faults
    ensures SyncStep(cfg, s, Halted(s, route))
  {
    assert Faulted(s.kernel, Halted(s, route).kernel);
    assert KernelMoved(PlanFor(cfg, s), SyncPart(s), SyncPart(Halted(s, route)), false);
  }

  // ── Start and announce ─────────────────────────────────────────────────────

  /** A start of an open node without routes, in which nothing fails. */
  lemma QuietStart(faults: iset<nat>) returns (r: Run)
    requires 0 !in faults && 1 !in faults && 2 !in faults && 3 !in faults
    ensures IsRun(r) && r.cfg == LinuxNode() && r.startAt == 0 && r.events == []
    ensures var s := r.states[0];
            && s.peers == map[] && s.allowAll && s.localRoutes == [] && s.advertised == [] && s.installed == {}
            && s.kernel == FreshKernel(true, faults).(mss := true, commands := 4)
  {
    var cfg, start := LinuxNode(), StartConfig(true, {}, [], faults);
    var blank := Blank(cfg, start, [], 0);
    assert blank.peers == map[];
    var mid := RebuildExists(cfg, blank, 0);
    NothingDesired(cfg, mid);
    FlawlessSync(cfg, mid);
    var s0 := Flawless(cfg, mid);
    assert Merged([], [], []) && RebuiltAndSynced(cfg, blank, 0, s0);
    r := Run(cfg, start, [], 0, [s0], []);
  }

  lemma NothingDesired(cfg: Config, s: VpnState)
    requires s.peers == map[] && s.localRoutes == [] && TableCurrent(cfg, s)
    ensures PlanFor(cfg, s).desired == {} && Active(PlanFor(cfg, s).translations) == []
  {
    assert s.peers.Values == {};
    assert Claims(s.peers.Values, s.rebuiltAt, LocalOf(cfg)) == {};
    assert LocalTranslations([], cfg.destination, cfg.aliasing) == [];
  }

  /** The only peer, with these routes. */
  ghost predicate OnlyPeer(cfg: Config, s: VpnState, routes: seq<Cidr>) {
    && s.peers.Keys == {PEER_HASH} && s.localRoutes == []
    && (var v := s.peers[PEER_HASH]; v.hash == PEER_HASH && v.routes == routes && Live(v, s.rebuiltAt))
    && (forall x :: x in routes ==> Spared(cfg, x))
  }

  /** All its routes are wanted, and no others. */
  lemma OnlyPeerDesired(cfg: Config, s: VpnState, routes: seq<Cidr>)
    requires PEER_HASH != cfg.destination && OnlyPeer(cfg, s, routes) && TableCurrent(cfg, s)
    ensures PlanFor(cfg, s).desired == Elements(routes)
    ensures Active(PlanFor(cfg, s).translations) == []
  {
    var claims := Claims(s.peers.Values, s.rebuiltAt, LocalOf(cfg));
    assert s.peers.Values == {s.peers[PEER_HASH]};
    assert LocalTranslations([], cfg.destination, cfg.aliasing) == [];
    forall x | x in routes ensures (x, PEER_HASH) in s.table.subnets {
      assert Survives(claims, LocalOf(cfg), (x, PEER_HASH));
    }
    forall c | c in s.table.subnets ensures c.0 in routes {
      assert c in claims;
    }
    assert ConflictingLocalRoutes([], s.table.subnets) == {};
    forall x | x in routes ensures x in DesiredRoutes(s.table.subnets, {}) {
      assert (x, PEER_HASH).0 == x;
    }
  }

  /** Registry and table have moved, nothing else. */
  ghost predicate Shifted(s: VpnState, mid: VpnState) {
    mid.peers.Keys == {PEER_HASH} && mid == s.(peers := mid.peers, table := mid.table, rebuiltAt := mid.rebuiltAt)
  }

  /** The state in which the peer's announce has been filed and the table rebuilt. */
  lemma AnnounceRebuilt(cfg: Config, s: VpnState, routes: seq<Cidr>, now: nat) returns (mid: VpnState)
    requires PEER_HASH != cfg.destination && s.peers.Keys <= {PEER_HASH} && s.localRoutes == [] && forall x :: x in routes ==> Spared(cfg, x)
    requires forall h :: h in s.peers ==> s.peers[h].hash == h
    ensures Rebuilt(cfg, s.(peers := Announced(cfg, s.peers, PEER_HASH, routes, now)), now, mid) && Shifted(s, mid)
    ensures OnlyPeer(cfg, mid, routes) && PlanFor(cfg, mid).desired == Elements(routes)
    ensures Active(PlanFor(cfg, mid).translations) == []
  {
    mid := RebuildExists(cfg, s.(peers := Announced(cfg, s.peers, PEER_HASH, routes, now)), now);
    OnlyPeerDesired(cfg, mid, routes);
  }

  lemma AnnounceIsStep(cfg: Config, s: VpnState, routes: seq<Cidr>, now: nat, mid: VpnState, s': VpnState)
    requires PEER_HASH != cfg.destination && s.allowAll && SyncStep(cfg, mid, s')
    requires Rebuilt(cfg, s.(peers := Announced(cfg, s.peers, PEER_HASH, routes, now)), now, mid)
    ensures Step(cfg, s, Announce(PEER_HASH, routes), now, s')
  {
  }

  /** The peer announces one route, and the sync that follows is flawless. */
  lemma AnnounceFlawless(r: Run, route: Cidr, now: nat) returns (r': Run)
    requires IsRun(r) && r.cfg.hasInterface && PEER_HASH != r.cfg.destination && LastTime(r) <= now && Spared(r.cfg, route)
    requires Fit(LastState(r))
    ensures IsRun(r') && r'.cfg == r.cfg && |r'.events| == |r.events| + 1 && LastTime(r') == now
    ensures r'.states == r.states + [LastState(r')]
    ensures var s, s' := LastState(r), LastState(r');
            && s'.localRoutes == [] && s'.advertised == [] && s'.installed == {route} && !s'.failed
            && s'.kernel == s.kernel.(routes := s.kernel.routes + {route}, pre := [], post := [], mss := true,
                                      commands := s.kernel.commands + 5)
  {
    RegistryAlwaysOk(r, |r.states| - 1);
    var s' := FlawlessAnnounce(r.cfg, LastState(r), route, now);
    r' := Extend(r, Announce(PEER_HASH, [route]), now, s');
  }

  lemma FlawlessAnnounce(cfg: Config, s: VpnState, route: Cidr, now: nat) returns (s': VpnState)
    requires cfg.hasInterface && PEER_HASH != cfg.destination && Spared(cfg, route)
    requires Fit(s) && forall h :: h in s.peers ==> s.peers[h].hash == h
    ensures Step(cfg, s, Announce(PEER_HASH, [route]), now, s')
    ensures s'.localRoutes == [] && s'.advertised == s.advertised && s'.installed == {route} && !s'.failed
    ensures s'.kernel == s.kernel.(routes := s.kernel.routes + {route}, pre := [], post := [], mss := true,
                                   commands := s.kernel.commands + 5)
  {
    var mid := AnnounceRebuilt(cfg, s, [route], now);
    assert Elements([route]) == {route};
    assert |{route}| == 1;
    FlawlessSync(cfg, mid);
    s' := Flawless(cfg, mid);
    AnnounceIsStep(cfg, s, [route], now, mid, s');
  }

  // ── Kernel and bookkeeping out of step ─────────────────────────────────────

  /** A failed command can leave the kernel out of step for good: a peer announces two
      subnets, the sync fails after installing the first, the peer announces only the
      second, and the flawless sync that follows does not delete the first. */
  lemma StrayRouteRun() returns (r: Run, stray: Cidr)
    ensures IsRun(r) && r.cfg.hasInterface && |r.events| == 2
    ensures !r.states[2].failed && r.states[2].kernel.failures == r.states[1].kernel.failures
    ensures stray in r.states[2].kernel.routes && stray !in r.states[2].installed
  {
    stray := HostRoute(5);
    HostRouteSpared(6);
    r := HaltedRun(iset{5}, stray, HostRoute(6));
    r := AnnounceFlawless(r, HostRoute(6), 1);
  }

  lemma HaltedRun(faults: iset<nat>, first: Cidr, second: Cidr) returns (r: Run)
    requires first == HostRoute(5) && second == HostRoute(6) && forall i: nat :: i in faults <==> i == 5
    ensures IsRun(r) && r.cfg == LinuxNode() && |r.events| == 1 && LastTime(r) == 0
    ensures Fit(LastState(r)) && LastState(r).kernel.routes == {first}
  {
    r := QuietStart(faults);
    HostRouteSpared(5);
    HostRouteSpared(6);
    var routes := [first, second];
    assert first in routes;
    var mid, s1 := HaltedAnnounce(r.cfg, r.states[0], routes, first);
    AfterHalt(r.states[0], mid, s1, first);
    r := Extend(r, Announce(PEER_HASH, routes), 0, s1);
  }

  /** A state from which a flawless announce can follow. */
  ghost predicate Fit(s: VpnState) {
    && s.peers.Keys <= {PEER_HASH} && s.localRoutes == [] && s.advertised == [] && s.allowAll && s.installed == {}
    && s.kernel.iptables && Unfaulted(s.kernel, 5)
  }

  lemma AfterHalt(s: VpnState, mid: VpnState, s': VpnState, first: Cidr)
    requires Shifted(s, mid) && s' == Halted(mid, first) && s.kernel.routes == {}
    requires s.localRoutes == [] && s.advertised == [] && s.allowAll && s.installed == {} && s.kernel.iptables
    requires forall i: nat :: i > s.kernel.commands + 1 ==> i !in s.kernel.faults
    ensures Fit(s') && s'.kernel.routes == {first}
  {
  }

  lemma HaltedAnnounce(cfg: Config, s: VpnState, routes: seq<Cidr>, first: Cidr) returns (mid: VpnState, s': VpnState)
    requires cfg.hasInterface && PEER_HASH != cfg.destination
    requires first in routes && forall x :: x in routes ==> Spared(cfg, x)
    requires s.kernel.iptables && s.kernel.commands + 1 in s.kernel.faults
    requires s.peers == map[] && s.localRoutes == [] && s.allowAll && s.installed == {}
    ensures Step(cfg, s, Announce(PEER_HASH, routes), 0, s')
    ensures Shifted(s, mid) && s' == Halted(mid, first)
  {
    mid := AnnounceRebuilt(cfg, s, routes, 0);
    HaltedSync(cfg, mid, first);
    s' := Halted(mid, first);
    AnnounceIsStep(cfg, s, routes, 0, mid, s');
  }

  // ── Installed and local routes that meet ───────────────────────────────────

  /** A run on which a peer announces a subnet and the flawless sync installs it. */
  lemma InstalledRun(faults: iset<nat>, lan: Cidr) returns (r: Run)
    requires lan == HostRoute(5) && forall i: nat :: i < 9 ==> i !in faults
    ensures IsRun(r) && r.cfg == LinuxNode() && |r.events| == 1 && LastTime(r) == 0
    ensures var s := r.states[1];
            && s.installed == {lan} && s.localRoutes == [] && s.advertised == []
            && s.kernel == FreshKernel(true, faults).(routes := {lan}, mss := true, commands := 9)
  {
    r := QuietStart(faults);
    HostRouteSpared(5);
    r := AnnounceFlawless(r, lan, 0);
  }

  /** The first way to fail: the installed subnet turns up on a local interface, and the
      refresh does not sync. */
  lemma RefreshOverlaps() returns (r: Run, lan: Cidr)
    ensures IsRun(r) && |r.events| == 2 && r.events[1].event == RefreshLocal([lan])
    ensures lan in r.states[2].installed && lan in r.states[2].localRoutes
    ensures !Separated(r.cfg, r.states[2])
  {
    lan := HostRoute(5);
    r := InstalledRun(iset{}, lan);
    var s' := r.states[1].(localRoutes := [lan]);
    assert Merged([lan], [lan], []);
    r := Extend(r, RefreshLocal([lan]), 0, s');
    NotApart(r.cfg, s', lan);
  }

  /** The second: the user advertises the installed subnet, the sync deletes its kernel
      route, and iptables refuses the first command. The subnet stays on the installed list,
      which no longer agrees with the kernel either. */
  lemma FailedAdvertiseOverlaps() returns (r: Run, lan: Cidr)
    ensures IsRun(r) && |r.events| == 2 && r.events[1].event == ReplaceAdvertised([], [lan]) && r.states[2].failed
    ensures lan in r.states[2].installed && lan in r.states[2].localRoutes
    ensures !Separated(r.cfg, r.states[2]) && lan !in r.states[2].kernel.routes
  {
    lan := HostRoute(5);
    r := FailedAdvertiseRun(iset{10}, lan);
  }

  lemma FailedAdvertiseRun(faults: iset<nat>, lan: Cidr) returns (r: Run)
    requires lan == HostRoute(5) && 10 in faults && forall i: nat :: i <= 9 ==> i !in faults
    ensures IsRun(r) && |r.events| == 2 && r.events[1].event == ReplaceAdvertised([], [lan])
    ensures var s := r.states[2];
            s.failed && lan in s.installed && lan in s.localRoutes && !Separated(r.cfg, s) && lan !in s.kernel.routes
  {
    r := InstalledRun(faults, lan);
    var s' := FailedAdvertise(r.states[1], lan, faults);
    r := Extend(r, ReplaceAdvertised([], [lan]), 0, s');
    NotApart(r.cfg, s', lan);
  }

  lemma FailedAdvertise(s: VpnState, lan: Cidr, faults: iset<nat>) returns (s': VpnState)
    requires s.kernel == FreshKernel(true, faults).(routes := {lan}, mss := true, commands := 9)
    requires s.installed == {lan} && 9 !in faults && 10 in faults
    ensures Step(LinuxNode(), s, ReplaceAdvertised([], [lan]), 0, s')
    ensures s'.failed && s'.localRoutes == [lan] && s'.installed == {lan} && s'.kernel.routes == {}
  {
    var told := s.(advertised := [lan], localRoutes := [lan], failed := false);
    s' := told.(failed := true, kernel := s.kernel.(routes := {}, commands := 11, failures := 1));
    assert Merged([lan], [], [lan]);
    HaltedAtRules(told, s', lan, faults);
  }

  /** The delete of the stale route succeeds and the first iptables command fails. */
  lemma HaltedAtRules(s: VpnState, s': VpnState, lan: Cidr, faults: iset<nat>)
    requires s.localRoutes == [lan] && s.installed == {lan} && 9 !in faults && 10 in faults
    requires s.kernel == FreshKernel(true, faults).(routes := {lan}, mss := true, commands := 9)
    requires s' == s.(failed := true, kernel := s.kernel.(routes := {}, commands := 11, failures := 1))
    ensures SyncStep(LinuxNode(), s, s')
  {
    LocalNotDesired(LinuxNode(), s, lan);
    assert 10 in s.kernel.faults && Faulted(s.kernel, s'.kernel);
    assert Stale(PlanFor(LinuxNode(), s), SyncPart(s)) == {lan};
    assert KernelMoved(PlanFor(LinuxNode(), s), SyncPart(s), SyncPart(s'), false);
  }

  lemma LocalNotDesired(cfg: Config, s: VpnState, lan: Cidr)
    requires s.localRoutes == [lan]
    ensures lan !in PlanFor(cfg, s).desired
  {
    var ts := LocalTranslations(s.localRoutes, cfg.destination, cfg.aliasing);
    assert ts[0] in ts && ts[0].local == lan;
    BaseIsContained(lan);
    OverlapIsSharedAddress(lan, lan);
  }

  lemma NotApart(cfg: Config, s: VpnState, lan: Cidr)
    requires lan in s.installed && lan in s.localRoutes
    ensures !Separated(cfg, s)
  {
    BaseIsContained(lan);
  }

  // ── Half a pair of rules ───────────────────────────────────────────────────

  /** The node starts with one local /24, and iptables refuses the POSTROUTING rule after it
      took the PREROUTING rule: rewritten addresses are not restored. */
  lemma HalfRulesRun() returns (r: Run)
    ensures IsRun(r) && r.events == [] && r.states[0].kernel.failures == 1
    ensures !Undoes(r.states[0].kernel.pre, r.states[0].kernel.post)
  {
    var cfg, lan, start := LinuxNode(), HomeLan(), StartConfig(true, {}, [HomeLan()], iset{5});
    var blank := Blank(cfg, start, [lan], 0);
    var mid := RebuildExists(cfg, blank, 0);
    var s0 := HalfRulesSync(cfg, mid, lan);
    assert Merged([lan], [], [lan]) && RebuiltAndSynced(cfg, blank, 0, s0);
    r := Run(cfg, start, [], 0, [s0], []);
    KernelUndoesExactly(r, 0);
  }

  lemma HalfRulesSync(cfg: Config, s: VpnState, lan: Cidr) returns (s': VpnState)
    requires cfg.hasInterface && cfg.aliasing && lan.len == 24 && s.localRoutes == [lan]
    requires s.kernel == FreshKernel(true, iset{5}) && s.installed == {}
    ensures SyncStep(cfg, s, s') && s'.localRoutes == [lan]
    ensures |s'.kernel.pre| == 1 && s'.kernel.post == [] && s'.kernel.failures == 1
  {
    var active := Active(LocalTranslations([lan], cfg.destination, true));
    ActiveExactly([lan], cfg.destination, true, Translation(lan, ExportedRoute(cfg.destination, lan)));
    var kernel := s.kernel.(pre := PreRules(active[..1]), mss := true, commands := 6, failures := 1);
    s' := s.(kernel := kernel, failed := true);
    assert HaltedAt(kernel, active, 1, 0);
    assert 5 in kernel.faults && Faulted(s.kernel, kernel);
    assert KernelMoved(PlanFor(cfg, s), SyncPart(s), SyncPart(s'), false);
  }
}
