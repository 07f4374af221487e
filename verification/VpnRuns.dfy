/** What holds on every run of the control plane: any sequence of handlers, any clock
    that does not go backwards, any failures of kernel commands. */
module VpnRuns {
  import opened Common
  import opened Cidrs
  import opened Addressing
  import opened Peers
  import opened Routing
  import opened Translations
  import opened Platform
  import opened RouteSync
  import opened VpnModel

  datatype TimedEvent = At(event: Event, now: nat)

  /** `states[i]` is the state before `events[i]`; `states[0]` is the one `start` leaves. */
  datatype Run = Run(cfg: Config, start: StartConfig, discovered: seq<Cidr>, startAt: nat,
                     states: seq<VpnState>, events: seq<TimedEvent>)

  ghost predicate IsRun(r: Run) {
    && |r.states| == |r.events| + 1
    && Init(r.cfg, r.start, r.discovered, r.startAt, r.states[0])
    && (forall i :: 0 <= i < |r.events| ==> StepAt(r, i))
    && (forall i :: 0 <= i < |r.events| ==> r.startAt <= r.events[i].now)
    && (forall i, j :: 0 <= i <= j < |r.events| ==> r.events[i].now <= r.events[j].now)
  }

  ghost predicate StepAt(r: Run, i: nat)
    requires |r.states| == |r.events| + 1 && i < |r.events|
  {
    Step(r.cfg, r.states[i], r.events[i].event, r.events[i].now, r.states[i + 1])
  }

  function LastState(r: Run): VpnState
    requires r.states != []
  {
    r.states[|r.states| - 1]
  }

  /** The time before which no further event can happen. */
  function LastTime(r: Run): nat {
    if r.events == [] then r.startAt else r.events[|r.events| - 1].now
  }

  lemma Extend(r: Run, e: Event, now: nat, s': VpnState) returns (r': Run)
    requires IsRun(r) && LastTime(r) <= now && Step(r.cfg, LastState(r), e, now, s')
    ensures IsRun(r') && r' == r.(states := r.states + [s'], events := r.events + [At(e, now)])
  {
    r' := r.(states := r.states + [s'], events := r.events + [At(e, now)]);
    forall i | 0 <= i < |r'.events| ensures StepAt(r', i) {
      assert i < |r.events| ==> StepAt(r, i);
    }
  }

  // ── Registry, allowlist and table ──────────────────────────────────────────

  /** Our own destination has no slot, every slot is filed under its hash with the tunnel
      IP derived from it, and a closed allowlist covers every slot. */
  ghost predicate RegistryOk(cfg: Config, s: VpnState) {
    Filed(cfg, s.peers) && (!s.allowAll ==> s.peers.Keys <= s.allowed)
  }

  /** The table is the one of the peers as they are now, at the last rebuild time. */
  ghost predicate TableCurrent(cfg: Config, s: VpnState) {
    IsTableOf(s.table, s.peers.Values, s.rebuiltAt, LocalOf(cfg))
  }

  /** The peers that `e` leaves in the registry. */
  ghost function PeersAfter(cfg: Config, s: VpnState, e: Event, now: nat): map<AddressHash, RouteView> {
    match e
    case Announce(hash, routes) =>
      if PeerAllowed(cfg, s, hash) then Announced(cfg, s.peers, hash, routes, now) else s.peers
    case Control(hash, routes) =>
      if hash in s.peers then Announced(cfg, s.peers, hash, routes, now) else s.peers
    case ReplacePolicy(allowAll, parsed) =>
      if parsed.None? then s.peers else PolicyPeers(cfg, s.peers, allowAll, parsed.value)
    case WatchdogTick => if SomeOverdue(cfg, s.peers, now) then Expire(cfg, s.peers, now) else s.peers
    case _ => s.peers
  }

  /** Does the handler rebuild the table? */
  ghost predicate Rebuilds(cfg: Config, s: VpnState, e: Event, now: nat) {
    match e
    case Announce(hash, _) => PeerAllowed(cfg, s, hash)
    case Control(_, _) => true
    case ReplacePolicy(_, parsed) => parsed.Some?
    case WatchdogTick => SomeOverdue(cfg, s.peers, now)
    case _ => false
  }

  /** Does the handler sync the kernel? */
  ghost predicate Syncs(cfg: Config, s: VpnState, e: Event, now: nat) {
    Rebuilds(cfg, s, e, now) || e.ReplaceAdvertised?
  }

  predicate SetsPolicy(e: Event) {
    e.ReplacePolicy? && e.parsed.Some?
  }

  /** The state a rebuilding handler has prepared when it starts to rebuild. */
  ghost function Prepared(cfg: Config, s: VpnState, e: Event, now: nat): VpnState {
    var policy := SetsPolicy(e);
    s.(peers := PeersAfter(cfg, s, e, now),
       allowAll := if policy then e.allowAll else s.allowAll,
       allowed := if policy then e.parsed.value else s.allowed,
       failed := !policy && s.failed)
  }

  /** A handler that rebuilds prepares first, then rebuilds and syncs. */
  lemma StepRebuilds(cfg: Config, s: VpnState, e: Event, now: nat, s': VpnState)
    requires Step(cfg, s, e, now, s') && Rebuilds(cfg, s, e, now)
    ensures RebuiltAndSynced(cfg, Prepared(cfg, s, e, now), now, s')
  {
    var mid := Prepared(cfg, s, e, now);
    match e
    case Announce(hash, routes) => assert mid == s.(peers := mid.peers);
    case Control(hash, routes) => assert mid == s.(peers := mid.peers);
    case _ =>
  }

  /** Any other handler leaves registry, policy and table alone. */
  lemma StepRests(cfg: Config, s: VpnState, e: Event, now: nat, s': VpnState)
    requires Step(cfg, s, e, now, s') && !Rebuilds(cfg, s, e, now)
    ensures Prepared(cfg, s, e, now).peers == s.peers && !SetsPolicy(e)
    ensures s' == s.(advertised := s'.advertised, localRoutes := s'.localRoutes, installed := s'.installed,
                     conflicted := s'.conflicted, kernel := s'.kernel, failed := s'.failed)
  {
  }

  /** What a rebuild with a sync leaves alone, and what it makes. */
  lemma RebuildShape(cfg: Config, s: VpnState, now: nat, s': VpnState)
    requires RebuiltAndSynced(cfg, s, now, s')
    ensures s' == s.(table := s'.table, rebuiltAt := now, installed := s'.installed, conflicted := s'.conflicted,
                     kernel := s'.kernel, failed := s'.failed)
    ensures TableCurrent(cfg, s')
    ensures Synced(PlanFor(cfg, s'), cfg.hasInterface, SyncPart(s), SyncPart(s'), !s'.failed)
  {
  }

  /** Registry and policy after a step. */
  lemma StepPeers(cfg: Config, s: VpnState, e: Event, now: nat, s': VpnState)
    requires Step(cfg, s, e, now, s')
    ensures var mid := Prepared(cfg, s, e, now);
            s'.peers == mid.peers && s'.allowAll == mid.allowAll && s'.allowed == mid.allowed
  {
    if Rebuilds(cfg, s, e, now) {
      StepRebuilds(cfg, s, e, now, s');
      RebuildShape(cfg, Prepared(cfg, s, e, now), now, s');
    } else {
      StepRests(cfg, s, e, now, s');
    }
  }

  /** The table after a step. */
  lemma StepTable(cfg: Config, s: VpnState, e: Event, now: nat, s': VpnState)
    requires Step(cfg, s, e, now, s')
    ensures Rebuilds(cfg, s, e, now) ==> s'.rebuiltAt == now && TableCurrent(cfg, s')
    ensures !Rebuilds(cfg, s, e, now) ==> s'.rebuiltAt == s.rebuiltAt && s'.table == s.table && s'.peers == s.peers
  {
    if Rebuilds(cfg, s, e, now) {
      StepRebuilds(cfg, s, e, now, s');
      RebuildShape(cfg, Prepared(cfg, s, e, now), now, s');
    } else {
      StepRests(cfg, s, e, now, s');
    }
  }

  /** Kernel and installed routes after a step. */
  lemma StepSync(cfg: Config, s: VpnState, e: Event, now: nat, s': VpnState)
    requires Step(cfg, s, e, now, s')
    ensures !Syncs(cfg, s, e, now) ==> SyncPart(s') == SyncPart(s).(kernel := s.kernel.(iptables := s'.kernel.iptables))
    ensures !Syncs(cfg, s, e, now) ==> s'.failed == s.failed
    ensures Syncs(cfg, s, e, now) ==> Synced(PlanFor(cfg, s'), cfg.hasInterface, SyncPart(s), SyncPart(s'), !s'.failed)
  {
    if Rebuilds(cfg, s, e, now) {
      StepRebuilds(cfg, s, e, now, s');
      RebuildShape(cfg, Prepared(cfg, s, e, now), now, s');
    }
  }

  /** Local and advertised routes after a step. */
  lemma StepLocal(cfg: Config, s: VpnState, e: Event, now: nat, s': VpnState)
    requires Step(cfg, s, e, now, s')
    ensures match e
            case ReplaceAdvertised(discovered, routes) =>
              s'.advertised == routes && Merged(s'.localRoutes, discovered, routes)
            case RefreshLocal(discovered) =>
              s'.advertised == s.advertised && Merged(s'.localRoutes, discovered, s.advertised)
            case _ => s'.advertised == s.advertised && s'.localRoutes == s.localRoutes
  {
    if Rebuilds(cfg, s, e, now) {
      StepRebuilds(cfg, s, e, now, s');
      RebuildShape(cfg, Prepared(cfg, s, e, now), now, s');
    }
  }

  /** Slots are filed under their hashes, hold the derived tunnel IPs, and none is ours. */
  ghost predicate Filed(cfg: Config, peers: map<AddressHash, RouteView>) {
    && cfg.destination !in peers
    && (forall h :: h in peers ==> peers[h].hash == h && peers[h].tunnelIp == TunnelIp(cfg.network, h))
  }

  lemma PeersStayFiled(cfg: Config, s: VpnState, e: Event, now: nat)
    requires Filed(cfg, s.peers)
    ensures Filed(cfg, PeersAfter(cfg, s, e, now))
  {
  }

  lemma PeersStayAllowed(cfg: Config, s: VpnState, e: Event, now: nat)
    requires RegistryOk(cfg, s)
    ensures var mid := Prepared(cfg, s, e, now);
            !mid.allowAll ==> mid.peers.Keys <= mid.allowed
  {
  }

  lemma StepKeepsRegistry(cfg: Config, s: VpnState, e: Event, now: nat, s': VpnState)
    requires RegistryOk(cfg, s) && Step(cfg, s, e, now, s')
    ensures RegistryOk(cfg, s')
  {
    StepPeers(cfg, s, e, now, s');
    PeersStayFiled(cfg, s, e, now);
    PeersStayAllowed(cfg, s, e, now);
  }

  /** Before the sync of `start`. */
  ghost function Unsynced(r: Run): SyncState {
    SyncState({}, {}, FreshKernel(r.cfg.aliasing, r.start.faults))
  }

  lemma InitShape(r: Run)
    requires IsRun(r)
    ensures var s := r.states[0];
            && s.peers == Seed(r.cfg, map[], r.start.configured)
            && s.allowAll == r.start.allowAll && s.allowed == r.start.configured
            && s.advertised == r.start.advertised && Merged(s.localRoutes, r.discovered, r.start.advertised)
            && s.rebuiltAt == r.startAt && TableCurrent(r.cfg, s)
            && Synced(PlanFor(r.cfg, s), r.cfg.hasInterface, Unsynced(r), SyncPart(s), !s.failed)
  {
    RebuildShape(r.cfg, Blank(r.cfg, r.start, r.states[0].localRoutes, r.startAt), r.startAt, r.states[0]);
  }

  /** On every run the registry satisfies `RegistryOk` in every state. */
  lemma {:induction false} RegistryAlwaysOk(r: Run, k: nat)
    requires IsRun(r) && k < |r.states|
    ensures RegistryOk(r.cfg, r.states[k])
  {
    if k == 0 {
      InitShape(r);
    } else {
      RegistryAlwaysOk(r, k - 1);
      assert StepAt(r, k - 1);
      StepKeepsRegistry(r.cfg, r.states[k - 1], r.events[k - 1].event, r.events[k - 1].now, r.states[k]);
    }
  }

  /** The time of the last rebuild in the first `k` events. */
  ghost function LastRebuild(r: Run, k: nat): nat
    requires |r.states| == |r.events| + 1 && k <= |r.events|
  {
    if k == 0 then r.startAt
    else if Rebuilds(r.cfg, r.states[k - 1], r.events[k - 1].event, r.events[k - 1].now) then r.events[k - 1].now
    else LastRebuild(r, k - 1)
  }

  /** In every state the table is the one that the current peers give at the time of the
      last rebuild: no handler changes announced routes without rebuilding. */
  lemma {:induction false} TableAlwaysCurrent(r: Run, k: nat)
    requires IsRun(r) && k < |r.states|
    ensures r.states[k].rebuiltAt == LastRebuild(r, k)
    ensures IsTableOf(r.states[k].table, r.states[k].peers.Values, LastRebuild(r, k), LocalOf(r.cfg))
  {
    if k == 0 {
      InitShape(r);
    } else {
      TableAlwaysCurrent(r, k - 1);
      assert StepAt(r, k - 1);
      StepTable(r.cfg, r.states[k - 1], r.events[k - 1].event, r.events[k - 1].now, r.states[k]);
    }
  }

  /** `h` owns a subnet or a tunnel IP in the table. */
  ghost predicate Owner(t: RouteTable, h: AddressHash) {
    (exists route :: (route, h) in t.subnets) || (exists ip :: ip in t.tunnelIps && t.tunnelIps[ip] == h)
  }

  /** Every owner in the table is a registered peer, never ourselves, and on the
      allowlist whenever the allowlist is closed. */
  lemma OwnersAllowed(r: Run, k: nat, h: AddressHash)
    requires IsRun(r) && k < |r.states| && Owner(r.states[k].table, h)
    ensures var s := r.states[k]; h in s.peers && h != r.cfg.destination && (!s.allowAll ==> h in s.allowed)
  {
    RegistryAlwaysOk(r, k);
    TableAlwaysCurrent(r, k);
    var s := r.states[k];
    if route :| (route, h) in s.table.subnets {
      var v := SubnetOwner(r.cfg, s, route, h);
    } else {
      var ip :| ip in s.table.tunnelIps && s.table.tunnelIps[ip] == h;
      assert TunnelOwner(s.peers.Values, LocalOf(r.cfg), ip, h);
    }
  }

  /** The owner of a subnet announces it now. */
  lemma SubnetOwner(cfg: Config, s: VpnState, route: Cidr, h: AddressHash) returns (v: RouteView)
    requires RegistryOk(cfg, s) && TableCurrent(cfg, s) && (route, h) in s.table.subnets
    ensures h in s.peers && s.peers[h] == v && route in v.routes
    ensures v.expires == 0 || v.expires > s.rebuiltAt
  {
    assert Survives(Claims(s.peers.Values, s.rebuiltAt, LocalOf(cfg)), LocalOf(cfg), (route, h));
    v :| v in s.peers.Values && v.hash == h && Live(v, s.rebuiltAt) && route in v.routes;
    var g :| g in s.peers && s.peers[g] == v;
  }

  /** A closed policy leaves exactly the allowed hashes except our own; an open one adds
      the listed hashes. Either way a peer that stays keeps its routes. */
  lemma PolicyExactly(cfg: Config, s: VpnState, allowAll: bool, hashes: set<AddressHash>, now: nat, s': VpnState)
    requires RegistryOk(cfg, s) && PolicyStep(cfg, s, allowAll, hashes, now, s')
    ensures s'.peers.Keys == (if allowAll then s.peers.Keys else {}) + (hashes - {cfg.destination})
    ensures forall h :: h in s.peers && h in s'.peers ==> s'.peers[h] == s.peers[h]
    ensures forall h :: h in s'.peers && h !in s.peers ==> s'.peers[h].routes == []
  {
    StepPeers(cfg, s, ReplacePolicy(allowAll, Some(hashes)), now, s');
  }

  /** A registered peer whose tunnel IP nobody shares is reached by it. */
  lemma ReachedByTunnelIp(r: Run, k: nat, h: AddressHash)
    requires IsRun(r) && k < |r.states| && h in r.states[k].peers
    requires Unshared(r.states[k].peers.Values, LocalOf(r.cfg), TunnelIp(r.cfg.network, h))
    ensures Lookup(r.states[k].table, TunnelIp(r.cfg.network, h)) == Some(h)
  {
    RegistryAlwaysOk(r, k);
    TableAlwaysCurrent(r, k);
    var s, ip := r.states[k], TunnelIp(r.cfg.network, h);
    assert s.peers[h] in s.peers.Values;
    assert TunnelOwner(s.peers.Values, LocalOf(r.cfg), ip, h);
    LookupIsLongestMatch(s.table, s.peers.Values, LastRebuild(r, k), LocalOf(r.cfg), ip);
  }

  // ── Who is let in ──────────────────────────────────────────────────────────

  datatype Policy = Policy(open: bool, listed: set<AddressHash>)

  /** The policy of the last well-formed policy change in the first `k` events, else that of
      the start. */
  function PolicyAt(r: Run, k: nat): Policy
    requires k <= |r.events|
  {
    if k == 0 then Policy(r.start.allowAll, r.start.configured)
    else
      match r.events[k - 1].event
      case ReplacePolicy(open, Some(listed)) => Policy(open, listed)
      case _ => PolicyAt(r, k - 1)
  }

  /** The policy in every state is that. */
  lemma {:induction false} PolicyInForce(r: Run, k: nat)
    requires IsRun(r) && k < |r.states|
    ensures r.states[k].allowAll == PolicyAt(r, k).open && r.states[k].allowed == PolicyAt(r, k).listed
  {
    if k == 0 {
      InitShape(r);
    } else {
      PolicyInForce(r, k - 1);
      assert StepAt(r, k - 1);
      StepPeers(r.cfg, r.states[k - 1], r.events[k - 1].event, r.events[k - 1].now, r.states[k]);
    }
  }

  /** The policy after the first `k` events lets `h` in: it is not us, and the policy is
      open or lists it. */
  predicate Admitted(r: Run, k: nat, h: AddressHash)
    requires k <= |r.events|
  {
    h != r.cfg.destination && (PolicyAt(r, k).open || h in PolicyAt(r, k).listed)
  }

  ghost predicate OnFile(s: VpnState, h: AddressHash, routes: seq<Cidr>, expires: nat) {
    h in s.peers && s.peers[h].routes == routes && s.peers[h].expires == expires
  }

  /** An announce leaves the peer on file with its routes for 45 seconds exactly if the
      policy in force lets it in. No other peer changes, and a refused announce changes
      nothing at all. */
  lemma AnnounceExactly(r: Run, k: nat, h: AddressHash, routes: seq<Cidr>)
    requires IsRun(r) && k < |r.events| && r.events[k].event == Announce(h, routes)
    ensures OnFile(r.states[k + 1], h, routes, r.events[k].now + 45) <==> Admitted(r, k, h)
    ensures !Admitted(r, k, h) ==> r.states[k + 1] == r.states[k]
    ensures forall g :: g != h ==> (g in r.states[k + 1].peers <==> g in r.states[k].peers)
    ensures forall g :: g != h && g in r.states[k].peers ==> r.states[k + 1].peers[g] == r.states[k].peers[g]
  {
    PolicyInForce(r, k);
    RegistryAlwaysOk(r, k);
    assert StepAt(r, k);
    StepPeers(r.cfg, r.states[k], r.events[k].event, r.events[k].now, r.states[k + 1]);
  }

  /** A control frame does the same for a registered sender, and changes no peer otherwise. */
  lemma ControlExactly(r: Run, k: nat, h: AddressHash, routes: seq<Cidr>)
    requires IsRun(r) && k < |r.events| && r.events[k].event == Control(h, routes)
    ensures OnFile(r.states[k + 1], h, routes, r.events[k].now + 45) <==> Registered(r, k, h)
    ensures !Registered(r, k, h) ==> r.states[k + 1].peers == r.states[k].peers
    ensures forall g :: g != h ==> (g in r.states[k + 1].peers <==> g in r.states[k].peers)
    ensures forall g :: g != h && g in r.states[k].peers ==> r.states[k + 1].peers[g] == r.states[k].peers[g]
  {
    RegisteredExactly(r, k, h);
    assert StepAt(r, k);
    StepPeers(r.cfg, r.states[k], r.events[k].event, r.events[k].now, r.states[k + 1]);
  }

  /** The events alone tell who is registered: configured at the start or listed by a policy
      change, or let in with an announce, and not dropped by a closed policy since. */
  predicate Registered(r: Run, k: nat, h: AddressHash)
    requires k <= |r.events|
  {
    if k == 0 then h != r.cfg.destination && h in r.start.configured
    else
      match r.events[k - 1].event
      case Announce(g, _) => Registered(r, k - 1, h) || (g == h && Admitted(r, k - 1, h))
      case ReplacePolicy(open, Some(listed)) =>
        h != r.cfg.destination && (h in listed || (open && Registered(r, k - 1, h)))
      case _ => Registered(r, k - 1, h)
  }

  lemma {:induction false} RegisteredExactly(r: Run, k: nat, h: AddressHash)
    requires IsRun(r) && k < |r.states|
    ensures h in r.states[k].peers <==> Registered(r, k, h)
  {
    if k == 0 {
      InitShape(r);
    } else {
      RegisteredExactly(r, k - 1, h);
      PolicyInForce(r, k - 1);
      RegistryAlwaysOk(r, k - 1);
      assert StepAt(r, k - 1);
      KeysAfter(r.cfg, r.states[k - 1], r.events[k - 1].event, r.events[k - 1].now, h);
      StepPeers(r.cfg, r.states[k - 1], r.events[k - 1].event, r.events[k - 1].now, r.states[k]);
    }
  }

  lemma KeysAfter(cfg: Config, s: VpnState, e: Event, now: nat, h: AddressHash)
    requires RegistryOk(cfg, s)
    ensures h in PeersAfter(cfg, s, e, now) <==>
              match e
              case Announce(g, _) => h in s.peers || (g == h && h != cfg.destination && (s.allowAll || h in s.allowed))
              case ReplacePolicy(open, Some(listed)) => h != cfg.destination && (h in listed || (open && h in s.peers))
              case _ => h in s.peers
  {
  }

  // ── Freshness ──────────────────────────────────────────────────────────────

  /** The time of the last watchdog tick in the first `k` events, or the start. */
  ghost function LastTick(r: Run, k: nat): nat
    requires k <= |r.events|
  {
    if k == 0 then r.startAt
    else if r.events[k - 1].event.WatchdogTick? then r.events[k - 1].now
    else LastTick(r, k - 1)
  }

  /** Event `i` is an accepted announce or control frame of `h` with these routes. */
  ghost predicate Refreshes(r: Run, i: nat, h: AddressHash, routes: seq<Cidr>)
    requires |r.states| == |r.events| + 1
  {
    && i < |r.events|
    && ((r.events[i].event == Announce(h, routes) && Admitted(r, i, h))
        || (r.events[i].event == Control(h, routes) && Registered(r, i, h)))
  }

  /** Event `i` put the routes of `v` on file, and they had not expired at the last tick. */
  ghost predicate Source(r: Run, k: nat, h: AddressHash, v: RouteView, i: nat)
    requires |r.states| == |r.events| + 1 && k <= |r.events|
  {
    i < k && Refreshes(r, i, h, v.routes) && v.expires == r.events[i].now + ROUTE_GRACE_SECS > LastTick(r, k)
  }

  lemma {:induction false} LastTickBounded(r: Run, k: nat)
    requires IsRun(r) && k <= |r.events|
    ensures r.startAt <= LastTick(r, k)
    ensures forall i :: k <= i < |r.events| ==> LastTick(r, k) <= r.events[i].now
  {
    if k > 0 {
      LastTickBounded(r, k - 1);
    }
  }

  /** On every run, the routes on file come from one refresh event, whole, and are
      dropped by the first watchdog tick after their grace period. */
  lemma {:induction false} AlwaysSourced(r: Run, k: nat, h: AddressHash) returns (i: nat)
    requires IsRun(r) && k < |r.states| && h in r.states[k].peers
    requires r.states[k].peers[h].routes != []
    ensures Source(r, k, h, r.states[k].peers[h], i)
  {
    if k == 0 {
      InitShape(r);
      assert false;
    } else {
      var v := r.states[k].peers[h];
      LastTickBounded(r, k - 1);
      i := k - 1;
      if !(Refreshes(r, i, h, v.routes) && v.expires == r.events[i].now + ROUTE_GRACE_SECS) {
        KeptRoutes(r, k, h);
        i := AlwaysSourced(r, k - 1, h);
      }
    }
  }

  /** A peer whose routes an event did not refresh has them from before, and a watchdog
      tick keeps only what has not expired. */
  lemma KeptRoutes(r: Run, k: nat, h: AddressHash)
    requires IsRun(r) && 0 < k < |r.states| && h in r.states[k].peers
    requires var v := r.states[k].peers[h];
             v.routes != [] && !(Refreshes(r, k - 1, h, v.routes) && v.expires == r.events[k - 1].now + ROUTE_GRACE_SECS)
    ensures h in r.states[k - 1].peers && r.states[k].peers[h] == r.states[k - 1].peers[h]
    ensures r.events[k - 1].event.WatchdogTick? && r.states[k].peers[h].expires != 0 ==>
              r.states[k].peers[h].expires > r.events[k - 1].now
  {
    if From(r.events[k - 1].event, h) {
      OwnMessage(r, k - 1, h);
    } else {
      OtherEvent(r, k - 1, h);
    }
  }

  /** A message of `h` refreshes it or changes nothing of it. */
  lemma OwnMessage(r: Run, k: nat, h: AddressHash)
    requires IsRun(r) && k < |r.events| && From(r.events[k].event, h) && h in r.states[k + 1].peers
    ensures var s, v := r.states[k], r.states[k + 1].peers[h];
            || (Refreshes(r, k, h, v.routes) && v.expires == r.events[k].now + ROUTE_GRACE_SECS)
            || (h in s.peers && v == s.peers[h])
  {
    var e := r.events[k].event;
    if e.Announce? {
      AnnounceExactly(r, k, h, e.routes);
    } else {
      ControlExactly(r, k, h, e.routes);
    }
  }

  /** Is the event a message of `h`? */
  predicate From(e: Event, h: AddressHash) {
    (e.Announce? || e.Control?) && e.hash == h
  }

  /** A closed policy that does not list `h`. */
  predicate ShutsOut(e: Event, h: AddressHash) {
    e.ReplacePolicy? && !e.allowAll && e.parsed.Some? && h !in e.parsed.value
  }

  /** Any event that is no message of `h` keeps what is on file for it, except that a
      watchdog tick clears overdue routes and a closed policy may drop the peer. A slot that
      is new has no routes. */
  lemma OtherEvent(r: Run, k: nat, h: AddressHash)
    requires IsRun(r) && k < |r.events| && !From(r.events[k].event, h)
    ensures var s, s', e, now := r.states[k], r.states[k + 1], r.events[k].event, r.events[k].now;
            && (h in s'.peers && h !in s.peers ==> s'.peers[h].routes == [])
            && (h in s'.peers && h in s.peers ==>
                  s'.peers[h] == if e.WatchdogTick? && 0 < s.peers[h].expires <= now then s.peers[h].(routes := [])
                                 else s.peers[h])
            && (h in s.peers && !ShutsOut(e, h) ==> h in s'.peers)
  {
    var s, e, now := r.states[k], r.events[k].event, r.events[k].now;
    RegistryAlwaysOk(r, k);
    assert StepAt(r, k);
    StepPeers(r.cfg, s, e, now, r.states[k + 1]);
    assert e.WatchdogTick? && h in s.peers && Overdue(r.cfg, s.peers[h], now) ==> SomeOverdue(r.cfg, s.peers, now);
  }

  /** If the last watchdog tick is at most 10 s ago, a subnet is in the table only if its
      owner refreshed a route list with it less than 55 s ago. */
  lemma RoutesAreFresh(r: Run, k: nat, route: Cidr, owner: AddressHash, time: nat)
    requires IsRun(r) && k < |r.states| && (route, owner) in r.states[k].table.subnets
    requires time <= LastTick(r, k) + 10
    ensures exists i: nat, routes :: i < k && Refreshes(r, i, owner, routes) && route in routes && time < r.events[i].now + 55
  {
    RegistryAlwaysOk(r, k);
    TableAlwaysCurrent(r, k);
    var v := SubnetOwner(r.cfg, r.states[k], route, owner);
    var i := AlwaysSourced(r, k, owner);
    assert Refreshes(r, i, owner, v.routes) && route in v.routes;
  }

  /** Event `j` refreshes `h` anew, takes it off the registry, or is a watchdog tick after
      the grace period of the refresh at `i`. */
  ghost predicate Disturbs(r: Run, i: nat, j: nat, h: AddressHash)
    requires i < |r.events| && j < |r.events|
  {
    var e := r.events[j].event;
    || From(e, h) || ShutsOut(e, h)
    || (e.WatchdogTick? && r.events[i].now + ROUTE_GRACE_SECS <= r.events[j].now)
  }

  /** The other direction: the routes of a refresh stay on file, and are live for every
      rebuild before they expire, until one of those events. */
  lemma {:induction false} RefreshStays(r: Run, i: nat, k: nat, h: AddressHash, routes: seq<Cidr>)
    requires IsRun(r) && i < k < |r.states| && Refreshes(r, i, h, routes)
    requires forall j :: i < j < k ==> !Disturbs(r, i, j, h)
    ensures h in r.states[k].peers
    ensures var v := r.states[k].peers[h]; v.routes == routes && v.expires == r.events[i].now + ROUTE_GRACE_SECS
    decreases k
  {
    if i < k - 1 {
      RefreshStays(r, i, k - 1, h, routes);
      RegistryAlwaysOk(r, k - 1);
      assert !Disturbs(r, i, k - 1, h);
      OtherEvent(r, k - 1, h);
    } else if r.events[i].event.Announce? {
      AnnounceExactly(r, i, h, routes);
    } else {
      ControlExactly(r, i, h, routes);
    }
  }

  /** So a subnet that a peer refreshed, that nobody else claims and that does not cover
      our tunnel IP is in the table after every rebuild within its 45 seconds. */
  lemma RefreshedRouteInTable(r: Run, i: nat, k: nat, h: AddressHash, routes: seq<Cidr>, route: Cidr)
    requires IsRun(r) && i < k < |r.states| && Refreshes(r, i, h, routes) && route in routes
    requires forall j :: i < j < k ==> !Disturbs(r, i, j, h)
    requires LastRebuild(r, k) < r.events[i].now + ROUTE_GRACE_SECS
    requires forall g :: g in r.states[k].peers && route in r.states[k].peers[g].routes ==> g == h
    requires !Contains(route, TunnelIp(r.cfg.network, r.cfg.destination))
    ensures (route, h) in r.states[k].table.subnets
  {
    RefreshStays(r, i, k, h, routes);
    RegistryAlwaysOk(r, k);
    TableAlwaysCurrent(r, k);
    var s := r.states[k];
    var claims := Claims(s.peers.Values, LastRebuild(r, k), LocalOf(r.cfg));
    assert s.peers[h] in s.peers.Values;
    assert (route, h) in claims;
    forall g | (route, g) in claims ensures g == h {
      var v :| v in s.peers.Values && v.hash == g && route in v.routes;
      var x :| x in s.peers && s.peers[x] == v;
    }
    assert Survives(claims, LocalOf(r.cfg), (route, h));
  }

  /** End to end: a packet to an address that is no peer's tunnel IP is forwarded to `owner`
      only if `owner` is registered, is allowed, and announced, less than 55 s ago, the
      longest surviving subnet around the address. */
  lemma ForwardedToFreshOwner(r: Run, k: nat, ip: Ipv4, owner: AddressHash, time: nat)
    returns (route: Cidr, i: nat, routes: seq<Cidr>)
    requires IsRun(r) && k < |r.states| && time <= LastTick(r, k) + WATCHDOG_SECS
    requires ip !in r.states[k].table.tunnelIps && Lookup(r.states[k].table, ip) == Some(owner)
    ensures var s := r.states[k];
            && Longest(Claims(s.peers.Values, LastRebuild(r, k), LocalOf(r.cfg)), LocalOf(r.cfg), ip, (route, owner))
            && owner in s.peers && owner != r.cfg.destination && (!s.allowAll ==> owner in s.allowed)
            && i < k && Refreshes(r, i, owner, routes) && route in routes
            && time < r.events[i].now + ROUTE_GRACE_SECS + WATCHDOG_SECS
  {
    var s := r.states[k];
    TableAlwaysCurrent(r, k);
    LookupIsLongestMatch(s.table, s.peers.Values, LastRebuild(r, k), LocalOf(r.cfg), ip);
    route :| Longest(Claims(s.peers.Values, LastRebuild(r, k), LocalOf(r.cfg)), LocalOf(r.cfg), ip, (route, owner));
    assert (route, owner) in s.table.subnets;
    OwnersAllowed(r, k, owner);
    RoutesAreFresh(r, k, route, owner, time);
    i, routes :| i < k && Refreshes(r, i, owner, routes) && route in routes
                 && time < r.events[i].now + ROUTE_GRACE_SECS + WATCHDOG_SECS;
  }

  // ── Kernel ─────────────────────────────────────────────────────────────────

  lemma {:induction false} FailuresGrow(r: Run, k: nat)
    requires IsRun(r) && 0 < k < |r.states|
    ensures r.states[k - 1].kernel.failures <= r.states[k].kernel.failures
  {
    assert StepAt(r, k - 1);
    StepSync(r.cfg, r.states[k - 1], r.events[k - 1].event, r.events[k - 1].now, r.states[k]);
  }

  /** As long as no kernel command has failed, the routes in the kernel are exactly the
      installed ones, in every state of the run. */
  lemma {:induction false} KernelAgrees(r: Run, k: nat)
    requires IsRun(r) && k < |r.states|
    requires r.cfg.hasInterface && r.states[k].kernel.failures == 0
    ensures r.states[k].kernel.routes == r.states[k].installed
  {
    if k == 0 {
      InitShape(r);
    } else {
      FailuresGrow(r, k);
      KernelAgrees(r, k - 1);
      assert StepAt(r, k - 1);
      StepSync(r.cfg, r.states[k - 1], r.events[k - 1].event, r.events[k - 1].now, r.states[k]);
    }
  }

  /** With failures allowed: whatever a handler's sync does, it deletes no route that the
      new table still wants, adds none that it does not want, and if it completes all
      wanted routes are in the kernel. */
  lemma SyncNeverDropsWanted(r: Run, k: nat)
    requires IsRun(r) && k < |r.events| && r.cfg.hasInterface
    requires Syncs(r.cfg, r.states[k], r.events[k].event, r.events[k].now)
    ensures var s, s' := r.states[k], r.states[k + 1];
            var desired := PlanFor(r.cfg, s').desired;
            && s.kernel.routes * desired <= s'.kernel.routes
            && s'.kernel.routes <= s.kernel.routes + desired
            && (!s'.failed ==> s'.installed == desired <= s'.kernel.routes)
  {
    assert StepAt(r, k);
    StepSync(r.cfg, r.states[k], r.events[k].event, r.events[k].now, r.states[k + 1]);
  }

  /** A sync fails only at a command that the environment lets fail, it runs no command more
      than once, and one that completes runs them all. */
  lemma SyncFailsByFault(r: Run, k: nat)
    requires IsRun(r) && k < |r.events| && r.cfg.hasInterface
    requires Syncs(r.cfg, r.states[k], r.events[k].event, r.events[k].now)
    ensures var s, s' := r.states[k], r.states[k + 1];
            FailsByFault(PlanFor(r.cfg, s'), SyncPart(s), SyncPart(s'), !s'.failed)
  {
    assert StepAt(r, k);
    StepSync(r.cfg, r.states[k], r.events[k].event, r.events[k].now, r.states[k + 1]);
    SyncedCommands(PlanFor(r.cfg, r.states[k + 1]), SyncPart(r.states[k]), SyncPart(r.states[k + 1]), !r.states[k + 1].failed);
  }

  ghost predicate FailsByFault(plan: Plan, before: SyncState, after: SyncState, completed: bool) {
    var k, k' := before.kernel, after.kernel;
    var count := |before.installed - plan.desired| + |plan.desired| + RuleCommands(k, plan.translations);
    && (completed ==> k'.commands == k.commands + count)
    && (!completed ==> k.commands < k'.commands <= k.commands + count && k'.commands - 1 in k.faults)
    && (k'.failures == k.failures <==> !Faulted(k, k'))
    && (!Faulted(k, k') ==> completed)
  }

  lemma SyncedCommands(plan: Plan, before: SyncState, after: SyncState, completed: bool)
    requires Synced(plan, true, before, after, completed)
    ensures FailsByFault(plan, before, after, completed)
  {
  }

  /** In every state whose last sync did not fail, installed and conflicted routes together
      are the subnets of the table: no handler changes the table without a sync. */
  lemma {:induction false} InstalledSplitsTable(r: Run, k: nat)
    requires IsRun(r) && k < |r.states| && !r.states[k].failed
    ensures r.states[k].installed + r.states[k].conflicted == TableRoutes(r.states[k].table.subnets)
    ensures r.states[k].installed !! r.states[k].conflicted
  {
    if k == 0 {
      InitShape(r);
      PlanSplits(r.cfg, r.states[0]);
    } else {
      var s, e, now := r.states[k - 1], r.events[k - 1].event, r.events[k - 1].now;
      assert StepAt(r, k - 1);
      StepSync(r.cfg, s, e, now, r.states[k]);
      if Syncs(r.cfg, s, e, now) {
        PlanSplits(r.cfg, r.states[k]);
      } else {
        StepTable(r.cfg, s, e, now, r.states[k]);
        InstalledSplitsTable(r, k - 1);
      }
    }
  }

  lemma PlanSplits(cfg: Config, s: VpnState)
    ensures var plan := PlanFor(cfg, s);
            plan.desired + plan.conflicts == TableRoutes(s.table.subnets) && plan.desired !! plan.conflicts
  {
    var plan := PlanFor(cfg, s);
    forall x | x in TableRoutes(s.table.subnets) ensures x in plan.desired + plan.conflicts {
      var c :| c in s.table.subnets && c.0 == x;
      assert x in plan.conflicts || x in plan.desired;
    }
  }

  /** In every state of every run in which the last sync did not fail, all installed
      routes are in the kernel, however many commands failed before. */
  lemma {:induction false} InstalledInKernel(r: Run, k: nat)
    requires IsRun(r) && k < |r.states|
    requires r.cfg.hasInterface && !r.states[k].failed
    ensures r.states[k].installed <= r.states[k].kernel.routes
  {
    if k == 0 {
      InitShape(r);
    } else {
      assert StepAt(r, k - 1);
      var s, e, now := r.states[k - 1], r.events[k - 1].event, r.events[k - 1].now;
      StepSync(r.cfg, s, e, now, r.states[k]);
      if !Syncs(r.cfg, s, e, now) {
        InstalledInKernel(r, k - 1);
      }
    }
  }

  /** In the state after any handler whose sync completed: installed and conflicted split
      the table's subnets, and no installed subnet shares an address with a local LAN or
      its alias, or covers our tunnel IP. */
  lemma SyncedStateSeparates(r: Run, k: nat)
    requires IsRun(r) && k < |r.events|
    requires Syncs(r.cfg, r.states[k], r.events[k].event, r.events[k].now) && !r.states[k + 1].failed
    ensures var s := r.states[k + 1];
            var ts := LocalTranslations(s.localRoutes, r.cfg.destination, r.cfg.aliasing);
            && s.installed + s.conflicted == TableRoutes(s.table.subnets) && s.installed !! s.conflicted
            && (forall a, x :: a in s.installed && x in ts ==> NoSharedAddress(a, x.local) && NoSharedAddress(a, x.exported))
            && (forall a :: a in s.installed ==> !Contains(a, TunnelIp(r.cfg.network, r.cfg.destination)))
  {
    var s, s' := r.states[k], r.states[k + 1];
    assert StepAt(r, k);
    StepSync(r.cfg, s, r.events[k].event, r.events[k].now, s');
    TableAlwaysCurrent(r, k + 1);
    var ts := LocalTranslations(s'.localRoutes, r.cfg.destination, r.cfg.aliasing);
    CompletedSyncSeparates(s'.table, s'.peers.Values, s'.rebuiltAt, LocalOf(r.cfg), ts,
                           r.cfg.hasInterface, SyncPart(s), SyncPart(s'));
  }

  /** The routes of the last discovery in the first `k` events. */
  function DiscoveredAt(r: Run, k: nat): seq<Cidr>
    requires k <= |r.events|
  {
    if k == 0 then r.discovered
    else
      match r.events[k - 1].event
      case ReplaceAdvertised(discovered, _) => discovered
      case RefreshLocal(discovered) => discovered
      case _ => DiscoveredAt(r, k - 1)
  }

  /** The routes the user last asked for. */
  function AdvertisedAt(r: Run, k: nat): seq<Cidr>
    requires k <= |r.events|
  {
    if k == 0 then r.start.advertised
    else
      match r.events[k - 1].event
      case ReplaceAdvertised(_, routes) => routes
      case _ => AdvertisedAt(r, k - 1)
  }

  /** On every run the local routes are those two lists merged. */
  lemma {:induction false} LocalExactly(r: Run, k: nat)
    requires IsRun(r) && k < |r.states|
    ensures r.states[k].advertised == AdvertisedAt(r, k) && NoRepeats(r.states[k].localRoutes)
    ensures forall x :: x in r.states[k].localRoutes <==> x in DiscoveredAt(r, k) || x in AdvertisedAt(r, k)
  {
    if k == 0 {
      InitShape(r);
    } else {
      LocalExactly(r, k - 1);
      assert StepAt(r, k - 1);
      StepLocal(r.cfg, r.states[k - 1], r.events[k - 1].event, r.events[k - 1].now, r.states[k]);
    }
  }

  /** On every run, the advertised routes are among the local ones. */
  lemma {:induction false} AdvertisedAreLocal(r: Run, k: nat)
    requires IsRun(r) && k < |r.states|
    ensures forall x :: x in r.states[k].advertised ==> x in r.states[k].localRoutes
  {
    if k == 0 {
      InitShape(r);
    } else {
      AdvertisedAreLocal(r, k - 1);
      assert StepAt(r, k - 1);
      StepLocal(r.cfg, r.states[k - 1], r.events[k - 1].event, r.events[k - 1].now, r.states[k]);
    }
  }

  /** On every run, in every state, no installed subnet covers our own tunnel IP. */
  lemma {:induction false} InstalledSparesTunnelIp(r: Run, k: nat, a: Cidr)
    requires IsRun(r) && k < |r.states| && a in r.states[k].installed
    ensures !Contains(a, TunnelIp(r.cfg.network, r.cfg.destination))
  {
    if k == 0 {
      InitShape(r);
    } else {
      assert StepAt(r, k - 1);
      StepSync(r.cfg, r.states[k - 1], r.events[k - 1].event, r.events[k - 1].now, r.states[k]);
      TableAlwaysCurrent(r, k);
      if a in r.states[k - 1].installed {
        InstalledSparesTunnelIp(r, k - 1, a);
      }
    }
  }

  // ── When installed and local routes stay apart ─────────────────────────────

  /** No installed subnet shares an address with the route or with its alias. */
  ghost predicate ApartFrom(cfg: Config, installed: set<Cidr>, route: Cidr) {
    forall a :: a in installed ==>
      NoSharedAddress(a, route) && (cfg.aliasing ==> NoSharedAddress(a, ExportedRoute(cfg.destination, route)))
  }

  ghost predicate AllApart(cfg: Config, installed: set<Cidr>, routes: seq<Cidr>) {
    forall route :: route in routes ==> ApartFrom(cfg, installed, route)
  }

  ghost predicate Separated(cfg: Config, s: VpnState) {
    AllApart(cfg, s.installed, s.localRoutes)
  }

  /** A refresh must discover only routes apart from the installed ones, and an advertise
      request whose kernel sync fails must bring only such routes. */
  ghost predicate KeepsApart(r: Run, i: nat)
    requires |r.states| == |r.events| + 1 && i < |r.events|
  {
    match r.events[i].event
    case RefreshLocal(discovered) => AllApart(r.cfg, r.states[i].installed, discovered)
    case ReplaceAdvertised(discovered, routes) =>
      r.states[i + 1].failed ==> AllApart(r.cfg, r.states[i].installed, discovered + routes)
    case _ => true
  }

  /** After a completed sync. */
  lemma CompletedSeparates(r: Run, k: nat, before: SyncState)
    requires IsRun(r) && k < |r.states|
    requires Synced(PlanFor(r.cfg, r.states[k]), r.cfg.hasInterface, before, SyncPart(r.states[k]), true)
    ensures Separated(r.cfg, r.states[k])
  {
    var s := r.states[k];
    TableAlwaysCurrent(r, k);
    var ts := LocalTranslations(s.localRoutes, r.cfg.destination, r.cfg.aliasing);
    CompletedSyncSeparates(s.table, s.peers.Values, s.rebuiltAt, LocalOf(r.cfg), ts, r.cfg.hasInterface, before, SyncPart(s));
    forall route | route in s.localRoutes ensures ApartFrom(r.cfg, s.installed, route) {
      var i :| 0 <= i < |s.localRoutes| && s.localRoutes[i] == route;
      assert ts[i] in ts;
    }
  }

  lemma StartSeparates(r: Run)
    requires IsRun(r)
    ensures Separated(r.cfg, r.states[0])
  {
    InitShape(r);
    if !r.states[0].failed {
      CompletedSeparates(r, 0, Unsynced(r));
    }
  }

  /** One step from a separated state. */
  lemma StepSeparatesExactly(r: Run, k: nat)
    requires IsRun(r) && k < |r.events| && Separated(r.cfg, r.states[k])
    ensures Separated(r.cfg, r.states[k + 1]) <==> KeepsApart(r, k)
  {
    var s, e, now, s' := r.states[k], r.events[k].event, r.events[k].now, r.states[k + 1];
    assert StepAt(r, k);
    StepSync(r.cfg, s, e, now, s');
    StepLocal(r.cfg, s, e, now, s');
    AdvertisedAreLocal(r, k);
    if Syncs(r.cfg, s, e, now) && !s'.failed {
      CompletedSeparates(r, k + 1, SyncPart(s));
    } else {
      assert s'.installed == s.installed;
    }
  }

  /** Installed and local routes are apart throughout a run exactly when every refresh
      discovers, and every advertise request with a failing sync brings, only routes apart
      from the ones installed at the time. */
  lemma {:induction false} SeparatedThroughoutExactly(r: Run, k: nat)
    requires IsRun(r) && k < |r.states|
    ensures (forall m :: 0 <= m <= k ==> Separated(r.cfg, r.states[m])) <==> (forall i :: 0 <= i < k ==> KeepsApart(r, i))
  {
    if k == 0 {
      StartSeparates(r);
    } else {
      SeparatedThroughoutExactly(r, k - 1);
      if Separated(r.cfg, r.states[k - 1]) {
        StepSeparatesExactly(r, k - 1);
      }
    }
  }

  // ── NETMAP rules in the kernel ─────────────────────────────────────────────

  /** The chains are the first `n` and `m` rules for a list of local routes without repeats.
      A failing command can leave one rule without its partner, or the POSTROUTING chain
      behind when the PREROUTING chain is flushed. */
  ghost predicate RulesOf(cfg: Config, kernel: KernelView, routes: seq<Cidr>, n: nat, m: nat) {
    var active := Active(LocalTranslations(routes, cfg.destination, cfg.aliasing));
    && NoRepeats(routes) && n <= |active| && m <= |active| && (n == 0 || m <= n <= m + 1)
    && kernel.pre == PreRules(active[..n]) && kernel.post == PostRules(active[..m])
  }

  ghost predicate AllRulesOf(cfg: Config, routes: seq<Cidr>, n: nat, m: nat) {
    n == m == |Active(LocalTranslations(routes, cfg.destination, cfg.aliasing))|
  }

  lemma StepKeepsLocalRoutes(cfg: Config, s: VpnState, e: Event, now: nat, s': VpnState)
    requires NoRepeats(s.localRoutes) && Step(cfg, s, e, now, s')
    ensures NoRepeats(s'.localRoutes)
  {
  }

  lemma {:induction false} LocalRoutesDistinct(r: Run, k: nat)
    requires IsRun(r) && k < |r.states|
    ensures NoRepeats(r.states[k].localRoutes)
  {
    if k > 0 {
      LocalRoutesDistinct(r, k - 1);
      assert StepAt(r, k - 1);
      StepKeepsLocalRoutes(r.cfg, r.states[k - 1], r.events[k - 1].event, r.events[k - 1].now, r.states[k]);
    }
  }

  lemma SyncedRules(cfg: Config, before: SyncState, s: VpnState, routes: seq<Cidr>, n: nat, m: nat)
    returns (routes': seq<Cidr>, n': nat, m': nat)
    requires NoRepeats(s.localRoutes) && RulesOf(cfg, before.kernel, routes, n, m)
    requires Synced(PlanFor(cfg, s), cfg.hasInterface, before, SyncPart(s), !s.failed)
    ensures RulesOf(cfg, s.kernel, routes', n', m') && (routes' == routes || routes' == s.localRoutes)
    ensures AllRulesOf(cfg, routes, n, m) && s.kernel.failures == before.kernel.failures ==> AllRulesOf(cfg, routes', n', m')
  {
    var k, k' := before.kernel, s.kernel;
    var active := Active(LocalTranslations(s.localRoutes, cfg.destination, cfg.aliasing));
    if k'.pre == k.pre && k'.post == k.post {
      routes', n', m' := routes, n, m;
    } else if !s.failed {
      routes', n', m' := s.localRoutes, |active|, |active|;
      assert active[..n'] == active;
    } else if k'.pre == [] && k'.post == k.post {
      routes', n', m' := routes, 0, m;
    } else {
      routes' := s.localRoutes;
      n', m' :| HaltedAt(k', active, n', m');
    }
  }

  /** The local routes of the state `j`, or none at all before the first rules. */
  ghost predicate LocalAt(r: Run, j: nat, routes: seq<Cidr>) {
    routes == [] || (j < |r.states| && routes == r.states[j].localRoutes)
  }

  /** In every state, the chains are rules for the local routes of this or some earlier
      state: all of them while no kernel command has failed, else the first few. */
  lemma {:induction false} RulesAlwaysLocal(r: Run, k: nat) returns (routes: seq<Cidr>, j: nat, n: nat, m: nat)
    requires IsRun(r) && k < |r.states|
    ensures j <= k && LocalAt(r, j, routes) && RulesOf(r.cfg, r.states[k].kernel, routes, n, m)
    ensures r.states[k].kernel.failures == 0 ==> AllRulesOf(r.cfg, routes, n, m)
  {
    LocalRoutesDistinct(r, k);
    if k == 0 {
      InitShape(r);
      assert LocalTranslations([], r.cfg.destination, r.cfg.aliasing) == [];
      routes, n, m := SyncedRules(r.cfg, Unsynced(r), r.states[0], [], 0, 0);
      j := 0;
    } else {
      FailuresGrow(r, k);
      routes, j, n, m := RulesAlwaysLocal(r, k - 1);
      assert StepAt(r, k - 1);
      var s, e, now := r.states[k - 1], r.events[k - 1].event, r.events[k - 1].now;
      StepSync(r.cfg, s, e, now, r.states[k]);
      if Syncs(r.cfg, s, e, now) {
        var earlier := routes;
        routes, n, m := SyncedRules(r.cfg, SyncPart(s), r.states[k], routes, n, m);
        j := if routes == earlier then j else k;
      }
    }
  }

  /** The chains are those of the local routes of this state, and the TCP rule is there. */
  ghost predicate RulesInPlace(cfg: Config, s: VpnState) {
    var active := Active(LocalTranslations(s.localRoutes, cfg.destination, cfg.aliasing));
    s.kernel.pre == PreRules(active) && s.kernel.post == PostRules(active) && s.kernel.mss
  }

  /** The state is the one after the start or after a handler that syncs, and the sync
      completed with iptables at hand. */
  ghost predicate SyncedWithRules(r: Run, k: nat)
    requires |r.states| == |r.events| + 1 && k < |r.states|
  {
    && (k == 0 || Syncs(r.cfg, r.states[k - 1], r.events[k - 1].event, r.events[k - 1].now))
    && r.cfg.hasInterface && r.states[k].kernel.iptables && !r.states[k].failed
  }

  /** Then the rules of the local routes are in place. */
  lemma RulesAfterSync(r: Run, k: nat)
    requires IsRun(r) && k < |r.states| && SyncedWithRules(r, k)
    ensures RulesInPlace(r.cfg, r.states[k])
  {
    if k == 0 {
      InitShape(r);
    } else {
      assert StepAt(r, k - 1);
      StepSync(r.cfg, r.states[k - 1], r.events[k - 1].event, r.events[k - 1].now, r.states[k]);
    }
  }

  /** And the chains stay as they are until the next sync. */
  lemma {:induction false} RulesStay(r: Run, j: nat, k: nat)
    requires IsRun(r) && j <= k < |r.states|
    requires forall i :: j <= i < k ==> !Syncs(r.cfg, r.states[i], r.events[i].event, r.events[i].now)
    ensures var a, b := r.states[j].kernel, r.states[k].kernel; b.pre == a.pre && b.post == a.post && b.mss == a.mss
  {
    if j < k {
      RulesStay(r, j, k - 1);
      assert StepAt(r, k - 1);
      StepSync(r.cfg, r.states[k - 1], r.events[k - 1].event, r.events[k - 1].now, r.states[k]);
    }
  }

  /** In every state of every run, what some PREROUTING rule in the kernel rewrites is
      restored by the POSTROUTING chain, exactly if the last PREROUTING rule has its partner
      or repeats an earlier alias. */
  lemma KernelUndoesExactly(r: Run, k: nat)
    requires IsRun(r) && k < |r.states|
    ensures var kernel := r.states[k].kernel;
            Undoes(kernel.pre, kernel.post) <==> |kernel.pre| <= |kernel.post| || LastAliasRepeats(kernel.pre)
  {
    var routes, j, n, m := RulesAlwaysLocal(r, k);
    RulesOnlyForLans(routes, r.cfg.destination, r.cfg.aliasing);
    if n > 0 {
      UndoesExactly(Active(LocalTranslations(routes, r.cfg.destination, r.cfg.aliasing)), n, m);
    }
  }

  /** While no kernel command has failed, every rewritten address is restored. */
  lemma KernelAliasesUndo(r: Run, k: nat, ip: Ipv4, rule: Rule)
    requires IsRun(r) && k < |r.states| && r.states[k].kernel.failures == 0
    requires rule in r.states[k].kernel.pre && Contains(rule.matches, ip)
    ensures var kernel := r.states[k].kernel;
            Rewrite(kernel.post, Rewrite(kernel.pre, ip)) == ip
  {
    var routes, j, n, m := RulesAlwaysLocal(r, k);
    KernelUndoesExactly(r, k);
    var i :| 0 <= i < |r.states[k].kernel.pre| && r.states[k].kernel.pre[i] == rule;
  }
}
