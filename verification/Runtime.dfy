/** `VpnRuntime`: the object whose handlers change the registry, the table and the
    kernel. Each method is proved to be a transition of the state machine. */
module Runtime {
  import opened Common
  import opened Cidrs
  import opened Addressing
  import LinkLifecycle
  import opened Peers
  import opened Routing
  import opened Translations
  import opened Platform
  import opened RouteSync
  import opened VpnModel

  class VpnRuntime {
    const cfg: Config
    const local: Local
    const registry: PeerRegistry
    const kernel: Kernel
    var table: RouteTable
    ghost var rebuiltAt: nat
    var allowAll: bool
    var allowed: set<AddressHash>
    var advertised: seq<Cidr>
    var localRoutes: seq<Cidr>
    var installed: set<Cidr>
    var conflicted: set<Cidr>
    var failed: bool

    ghost predicate Valid()
      reads this, registry, registry.peers.Values
    {
      registry.Valid() && local == LocalOf(cfg)
    }

    ghost function State(): VpnState
      reads this, registry, registry.peers.Values, kernel
    {
      VpnState(registry.View(), table, rebuiltAt, allowAll, allowed, advertised, localRoutes,
               installed, conflicted, kernel.View(), failed)
    }

    /** `VpnRuntime::start`, once the network is validated: seed the configured peers,
        build the first table and sync the kernel. */
    constructor (cfg: Config, start: StartConfig, discovered: seq<Cidr>, now: nat)
      ensures Valid() && Init(cfg, start, discovered, now, State())
      ensures this.cfg == cfg && fresh(registry) && fresh(kernel) && fresh(registry.peers.Values)
    {
      this.cfg, local := cfg, LocalOf(cfg);
      registry := new PeerRegistry();
      kernel := new Kernel(cfg.aliasing, start.faults);
      table, rebuiltAt := EMPTY_TABLE, now;
      allowAll, allowed, advertised := start.allowAll, start.configured, start.advertised;
      localRoutes, installed, conflicted, failed := [], {}, {}, false;
      new;
      localRoutes := MergeRoutes(discovered, advertised);
      assert registry.View() == map[];
      SeedPeers(registry, cfg, start.configured);
      RebuildAndSync(now);
    }

    // ── Router ───────────────────────────────────────────────────────────────

    method BuildTable(now: nat) returns (next: RouteTable)
      requires Valid()
      ensures IsTableOf(next, registry.View().Values, now, local)
    {
      var all := registry.All();
      RegistryViews(registry, all);
      next := Build(all, now, local);
    }

    method RebuildRouter(now: nat)
      requires Valid()
      modifies this`table, this`rebuiltAt
      ensures Valid() && Rebuilt(cfg, old(State()), now, State())
    {
      table := BuildTable(now);
      rebuiltAt := now;
    }

    method RebuildAndSync(now: nat)
      requires Valid()
      modifies this`table, this`rebuiltAt, this`installed, this`conflicted, this`failed, kernel
      ensures Valid() && RebuiltAndSynced(cfg, old(State()), now, State())
    {
      RebuildRouter(now);
      SyncRoutes();
    }

    // ── Kernel ───────────────────────────────────────────────────────────────

    /** The kernel calls of `sync_routes`. */
    method ApplyPlan(plan: Plan) returns (completed: bool)
      modifies kernel
      ensures KernelMoved(plan, SyncState(installed, conflicted, old(kernel.View())),
                          SyncState(installed, conflicted, kernel.View()), completed)
    {
      ghost var k := kernel.View();
      DeleteRoutes(installed - plan.desired);
      ghost var k1 := kernel.View();
      completed := AddRoutes(plan.desired);
      ghost var k2 := kernel.View();
      RanOn(k, k1, k2);
      if completed {
        completed := kernel.SyncRouteTranslations(plan.translations);
        RanOn(k, k2, kernel.View());
      }
    }

    method DeleteRoutes(stale: set<Cidr>)
      modifies kernel
      ensures RoutesDeleted(stale, old(kernel.View()), kernel.View())
    {
      ghost var k := kernel.View();
      var todo := stale;
      while todo != {}
        invariant todo <= stale && RoutesDeleted(stale - todo, k, kernel.View())
        decreases todo
      {
        var route :| route in todo;
        ghost var k' := kernel.View();
        kernel.DeleteRoute(route);
        DeletedOneMore(stale - todo, route, k, k', kernel.View());
        assert stale - (todo - {route}) == stale - todo + {route};
        todo := todo - {route};
      }
    }

    method AddRoutes(desired: set<Cidr>) returns (ok: bool)
      modifies kernel
      ensures RoutesAdded(desired, old(kernel.View()), kernel.View(), ok)
    {
      ghost var k := kernel.View();
      var adding := desired;
      ok := true;
      while adding != {}
        invariant adding <= desired && ok && RoutesAdded(desired - adding, k, kernel.View(), true)
        decreases adding
      {
        var route :| route in adding;
        ghost var k' := kernel.View();
        ok := kernel.ReplaceRoute(route);
        AddedStep(desired, adding, route, k, k', kernel.View(), ok);
        if !ok {
          return;
        }
        adding := adding - {route};
      }
    }

    method SyncRoutes()
      requires Valid()
      modifies this`installed, this`conflicted, this`failed, kernel
      ensures Valid() && SyncStep(cfg, old(State()), State())
    {
      var translations := LocalTranslations(localRoutes, cfg.destination, cfg.aliasing);
      var plan := PlanOf(table.subnets, translations);
      ghost var before := State();
      var completed := MoveKernel(plan);
      ghost var moved := State();
      Commit(plan, completed);
      Committed(cfg, before, plan, moved, State(), completed);
    }

    method MoveKernel(plan: Plan) returns (completed: bool)
      requires Valid()
      modifies kernel
      ensures Valid() && Moved(cfg, plan, old(State()), State(), completed)
    {
      completed := true;
      if cfg.hasInterface {
        completed := ApplyPlan(plan);
      }
    }

    /** Book the plan, or only that it could not be carried out. */
    method Commit(plan: Plan, completed: bool)
      modifies this`installed, this`conflicted, this`failed
      ensures State() == if completed
                         then old(State()).(installed := plan.desired, conflicted := plan.conflicts, failed := false)
                         else old(State()).(failed := true)
    {
      if !completed {
        failed := true;
        return;
      }
      installed := plan.desired;
      conflicted := plan.conflicts;
      failed := false;
    }

    // ── Handlers ─────────────────────────────────────────────────────────────

    method HandlePeerAnnounce(hash: AddressHash, routes: seq<Cidr>, now: nat) returns (accepted: bool)
      requires Valid()
      modifies this, registry, registry.peers.Values, kernel
      ensures Valid() && accepted == PeerAllowed(cfg, old(State()), hash)
      ensures AnnounceStep(cfg, old(State()), hash, routes, now, State())
      ensures fresh(registry.peers.Values - old(registry.peers.Values))
    {
      if hash == cfg.destination {
        return false;
      }
      accepted := AllowsPeer(hash);
      if !accepted {
        return;
      }
      var derived := DeriveTunnelIp(cfg.network, hash);
      if derived.Err? {
        return false;
      }
      AcceptAnnounce(hash, derived.value, routes, now);
    }

    /** `peer_allowed`. */
    method AllowsPeer(hash: AddressHash) returns (ok: bool)
      ensures ok == PeerAllowed(cfg, State(), hash)
    {
      ok := hash != cfg.destination && (allowAll || hash in allowed);
    }

    method AcceptAnnounce(hash: AddressHash, tunnelIp: Ipv4, routes: seq<Cidr>, now: nat)
      requires Valid() && tunnelIp == TunnelIp(cfg.network, hash)
      modifies this, registry, registry.peers.Values, kernel
      ensures Valid()
      ensures RebuiltAndSynced(cfg, old(State()).(peers := Announced(cfg, old(State()).peers, hash, routes, now)), now, State())
      ensures fresh(registry.peers.Values - old(registry.peers.Values))
    {
      AnnouncePeer(hash, tunnelIp, routes, now);
      RebuildAndSync(now);
    }

    method AnnouncePeer(hash: AddressHash, tunnelIp: Ipv4, routes: seq<Cidr>, now: nat)
      requires Valid() && tunnelIp == TunnelIp(cfg.network, hash)
      modifies registry, registry.peers.Values
      ensures Valid() && State() == old(State()).(peers := Announced(cfg, old(State()).peers, hash, routes, now))
      ensures fresh(registry.peers.Values - old(registry.peers.Values))
    {
      ProvidedAnnounced(cfg, State().peers, hash, routes, now);
      ProvidePeer(hash, tunnelIp);
      RefreshPeer(hash, routes, now);
    }

    method ProvidePeer(hash: AddressHash, tunnelIp: Ipv4)
      requires Valid() && tunnelIp == TunnelIp(cfg.network, hash)
      modifies registry
      ensures Valid() && hash in registry.peers
      ensures State() == old(State()).(peers := Provided(cfg, old(State()).peers, hash))
      ensures fresh(registry.peers.Values - old(registry.peers.Values))
    {
      var peer := registry.GetOrCreate(hash, tunnelIp, LinkLifecycle.Discovered);
    }

    /** A Hello or Routes frame on the out-link of `hash`. */
    method HandleControl(hash: AddressHash, routes: seq<Cidr>, now: nat)
      requires Valid()
      modifies this, registry.peers.Values, kernel
      ensures Valid() && ControlStep(cfg, old(State()), hash, routes, now, State())
    {
      if hash in registry.peers {
        RefreshPeer(hash, routes, now);
      }
      RebuildAndSync(now);
    }

    method RefreshPeer(hash: AddressHash, routes: seq<Cidr>, now: nat)
      requires Valid() && hash in registry.peers
      modifies registry.peers.Values
      ensures Valid() && State() == old(State()).(peers := Announced(cfg, old(State()).peers, hash, routes, now))
    {
      registry.peers[hash].RefreshRoutes(routes, now + ROUTE_GRACE_SECS);
    }

    method ReplacePeerPolicy(newAllowAll: bool, parsed: Option<set<AddressHash>>, now: nat) returns (ok: bool)
      requires Valid()
      modifies this, registry, kernel
      ensures Valid() && ok == parsed.Some?
      ensures if ok then PolicyStep(cfg, old(State()), newAllowAll, parsed.value, now, State()) else State() == old(State())
      ensures fresh(registry.peers.Values - old(registry.peers.Values))
    {
      if parsed.None? {
        return false;
      }
      ok := true;
      SetPolicy(newAllowAll, parsed.value);
      ApplyPolicy(newAllowAll, parsed.value);
      RebuildAndSync(now);
    }

    method SetPolicy(newAllowAll: bool, hashes: set<AddressHash>)
      requires Valid()
      modifies this`allowAll, this`allowed, this`failed
      ensures Valid() && State() == old(State()).(allowAll := newAllowAll, allowed := hashes, failed := false)
    {
      allowAll := newAllowAll;
      allowed := hashes;
      failed := false;
    }

    method ApplyPolicy(newAllowAll: bool, hashes: set<AddressHash>)
      requires Valid()
      modifies registry
      ensures Valid() && State() == old(State()).(peers := PolicyPeers(cfg, old(State()).peers, newAllowAll, hashes))
      ensures fresh(registry.peers.Values - old(registry.peers.Values))
    {
      SeedPeers(registry, cfg, hashes);
      if !newAllowAll {
        PrunePeers(registry, cfg, hashes);
      }
    }

    /** The route part of a watchdog tick. */
    method WatchdogExpire(now: nat)
      requires Valid()
      modifies this, registry.peers.Values, kernel
      ensures Valid() && WatchdogStep(cfg, old(State()), now, State())
    {
      var routesChanged := ExpirePeers(registry, cfg, now);
      if routesChanged {
        RebuildAndSync(now);
      }
    }

    method ReplaceAdvertisedRoutes(discovered: seq<Cidr>, routes: seq<Cidr>)
      requires Valid()
      modifies this, kernel
      ensures Valid() && AdvertiseStep(cfg, old(State()), discovered, routes, State())
    {
      SetAdvertised(discovered, routes);
      SyncRoutes();
    }

    method SetAdvertised(discovered: seq<Cidr>, routes: seq<Cidr>)
      requires Valid()
      modifies this`advertised, this`localRoutes, this`failed
      ensures Valid() && Merged(localRoutes, discovered, routes)
      ensures State() == old(State()).(advertised := routes, localRoutes := localRoutes, failed := false)
    {
      advertised := routes;
      localRoutes := MergeRoutes(discovered, advertised);
      failed := false;
    }

    // ── Out-link events ──────────────────────────────────────────────────────

    /** Link events touch the peer's link fields and nothing of the route state. */
    method OutLinkActivated(hash: AddressHash)
      requires Valid()
      modifies registry.peers.Values
      ensures Valid() && State() == old(State())
      ensures hash in registry.peers ==>
                registry.peers[hash].Link() == LinkLifecycle.SeenActive(old(registry.peers[hash].Link()))
      ensures forall h :: h in registry.peers && h != hash ==> unchanged(registry.peers[h])
    {
      if hash in registry.peers {
        registry.peers[hash].OnActivated();
      }
    }

    method OutLinkClosed(hash: AddressHash, now: LinkLifecycle.Seconds)
      requires Valid()
      modifies registry.peers.Values
      ensures Valid() && State() == old(State())
      ensures hash in registry.peers ==>
                registry.peers[hash].Link() == LinkLifecycle.CloseWithCooldown(old(registry.peers[hash].Link()), now)
      ensures forall h :: h in registry.peers && h != hash ==> unchanged(registry.peers[h])
    {
      if hash in registry.peers {
        registry.peers[hash].OnClosed(now);
      }
    }

    // ── Local routes ─────────────────────────────────────────────────────────

    method RefreshLocalRoutes(discovered: seq<Cidr>)
      requires Valid()
      modifies this`localRoutes
      ensures Valid() && RefreshStep(cfg, old(State()), discovered, State())
    {
      localRoutes := MergeRoutes(discovered, advertised);
    }
  }

  ghost function Provided(cfg: Config, peers: map<AddressHash, RouteView>, hash: AddressHash): map<AddressHash, RouteView> {
    if hash in peers then peers else peers[hash := SeededPeer(cfg, hash)]
  }

  lemma ProvidedAnnounced(cfg: Config, peers: map<AddressHash, RouteView>, hash: AddressHash, routes: seq<Cidr>, now: nat)
    ensures Announced(cfg, Provided(cfg, peers, hash), hash, routes, now) == Announced(cfg, peers, hash, routes, now)
  {
  }

  // ── Kernel commands ────────────────────────────────────────────────────────

  /** The kernel calls were made, if there is an interface, and nothing is booked yet. */
  ghost predicate Moved(cfg: Config, plan: Plan, s: VpnState, moved: VpnState, completed: bool) {
    && moved == s.(kernel := moved.kernel)
    && if cfg.hasInterface then KernelMoved(plan, SyncPart(s), SyncPart(moved), completed) else completed && moved == s
  }

  lemma Committed(cfg: Config, s: VpnState, plan: Plan, moved: VpnState, s': VpnState, completed: bool)
    requires plan == PlanFor(cfg, s) && Moved(cfg, plan, s, moved, completed)
    requires s' == if completed then moved.(installed := plan.desired, conflicted := plan.conflicts, failed := false)
                   else moved.(failed := true)
    ensures SyncStep(cfg, s, s')
  {
    assert KernelMoved(plan, SyncPart(s), SyncPart(moved), completed) ==> KernelMoved(plan, SyncPart(s), SyncPart(s'), completed);
    assert cfg.hasInterface && !completed ==> Faulted(s.kernel, s'.kernel);
  }

  /** One delete for each route; the ones that fail change nothing. */
  ghost predicate RoutesDeleted(stale: set<Cidr>, k: KernelView, k': KernelView) {
    && Ran(k, k') && k' == k.(routes := k'.routes, commands := k.commands + |stale|, failures := k'.failures)
    && k.routes - stale <= k'.routes <= k.routes
    && (k'.failures == k.failures ==> k'.routes == k.routes - stale)
  }

  lemma DeletedOneMore(done: set<Cidr>, route: Cidr, k: KernelView, k': KernelView, k'': KernelView)
    requires RoutesDeleted(done, k, k') && Deleted(k', k'', route) && route !in done
    ensures RoutesDeleted(done + {route}, k, k'')
  {
    RanOn(k, k', k'');
  }

  /** One replace for each route, up to the first that fails. */
  ghost predicate RoutesAdded(desired: set<Cidr>, k: KernelView, k': KernelView, ok: bool) {
    && Ran(k, k') && k' == k.(routes := k'.routes, commands := k'.commands, failures := k'.failures)
    && k.routes <= k'.routes <= k.routes + desired
    && (if ok then k'.routes == k.routes + desired && k'.commands == k.commands + |desired| && k'.failures == k.failures
        else k.commands < k'.commands <= k.commands + |desired| && k'.commands - 1 in k.faults && k.failures < k'.failures)
  }

  lemma AddedOneMore(done: set<Cidr>, route: Cidr, k: KernelView, k': KernelView, k'': KernelView, ok: bool)
    requires RoutesAdded(done, k, k', true) && Replaced(k', k'', route, ok) && route !in done
    ensures RoutesAdded(done + {route}, k, k'', ok)
  {
    RanOn(k, k', k'');
  }

  lemma AddedStep(desired: set<Cidr>, adding: set<Cidr>, route: Cidr, k: KernelView, k': KernelView, k'': KernelView, ok: bool)
    requires route in adding && adding <= desired && RoutesAdded(desired - adding, k, k', true) && Replaced(k', k'', route, ok)
    ensures if ok then RoutesAdded(desired - (adding - {route}), k, k'', true) else RoutesAdded(desired, k, k'', false)
  {
    AddedOneMore(desired - adding, route, k, k', k'', ok);
    assert desired - (adding - {route}) == desired - adding + {route};
    if !ok {
      AddedSome(desired - adding + {route}, desired, k, k'');
    }
  }

  lemma AddedSome(some: set<Cidr>, desired: set<Cidr>, k: KernelView, k': KernelView)
    requires some <= desired && RoutesAdded(some, k, k', false)
    ensures RoutesAdded(desired, k, k', false)
  {
    SubsetSize(some, desired);
  }

  lemma SubsetSize<T>(some: set<T>, all: set<T>)
    requires some <= all
    ensures |some| <= |all|
  {
    assert all == some + (all - some);
  }

  // ── Passes over the registry ───────────────────────────────────────────────

  /** Make the missing peer slots. */
  method SeedPeers(registry: PeerRegistry, cfg: Config, hashes: set<AddressHash>)
    requires registry.Valid()
    modifies registry
    ensures registry.Valid() && registry.View() == Seed(cfg, old(registry.View()), hashes)
    ensures fresh(registry.peers.Values - old(registry.peers.Values))
  {
    ghost var before := registry.View();
    ghost var done := {};
    var todo := hashes;
    while todo != {}
      invariant registry.Valid() && done !! todo && done + todo == hashes
      invariant registry.View() == Seed(cfg, before, done)
      invariant fresh(registry.peers.Values - old(registry.peers.Values))
      decreases todo
    {
      var hash :| hash in todo;
      SeedPeer(registry, cfg, hash);
      SeedOneMore(cfg, before, done, hash);
      todo, done := todo - {hash}, done + {hash};
    }
    assert done == hashes;
  }

  method SeedPeer(registry: PeerRegistry, cfg: Config, hash: AddressHash)
    requires registry.Valid()
    modifies registry
    ensures registry.Valid() && registry.View() == SeedOne(cfg, old(registry.View()), hash)
    ensures fresh(registry.peers.Values - old(registry.peers.Values))
  {
    if hash != cfg.destination && hash !in registry.peers {
      var derived := DeriveTunnelIp(cfg.network, hash);
      var peer := new Peer(hash, derived.value, LinkLifecycle.Configured);
      registry.Insert(peer);
    }
  }

  ghost function SeedOne(cfg: Config, peers: map<AddressHash, RouteView>, hash: AddressHash): map<AddressHash, RouteView> {
    if hash != cfg.destination && hash !in peers then peers[hash := SeededPeer(cfg, hash)] else peers
  }

  lemma SeedOneMore(cfg: Config, peers: map<AddressHash, RouteView>, done: set<AddressHash>, hash: AddressHash)
    ensures SeedOne(cfg, Seed(cfg, peers, done), hash) == Seed(cfg, peers, done + {hash})
  {
  }

  /** Drop the peers that are not allowed. */
  method PrunePeers(registry: PeerRegistry, cfg: Config, hashes: set<AddressHash>)
    requires registry.Valid()
    modifies registry
    ensures registry.Valid() && registry.View() == Prune(cfg, old(registry.View()), hashes)
    ensures registry.peers.Values <= old(registry.peers.Values)
  {
    ghost var before := registry.View();
    var all := registry.peers.Keys;
    var todo := all;
    while todo != {}
      invariant todo <= all && todo <= registry.peers.Keys && registry.Valid()
      invariant registry.peers.Values <= old(registry.peers.Values)
      invariant forall h :: h in registry.View() <==> h in before && (h in todo || h == cfg.destination || h in hashes)
      invariant forall h :: h in registry.View() ==> registry.View()[h] == before[h]
      decreases todo
    {
      var hash :| hash in todo;
      todo := todo - {hash};
      if hash == cfg.destination || hash in hashes {
        continue;
      }
      registry.Remove(hash);
    }
  }

  /** Clear the routes of every overdue peer. */
  method ExpirePeers(registry: PeerRegistry, cfg: Config, now: nat) returns (changed: bool)
    requires registry.Valid()
    modifies registry.peers.Values
    ensures registry.Valid() && registry.View() == Expire(cfg, old(registry.View()), now)
    ensures changed == SomeOverdue(cfg, old(registry.View()), now)
    ensures !changed ==> registry.View() == old(registry.View())
  {
    ghost var before := registry.View();
    changed := false;
    var todo := registry.peers.Keys;
    while todo != {}
      invariant registry.Valid() && todo <= registry.peers.Keys
      invariant registry.View() == ExpireExcept(cfg, before, todo, now)
      invariant changed <==> exists h :: h in before && h !in todo && Overdue(cfg, before[h], now)
      decreases todo
    {
      var hash :| hash in todo;
      var cleared := ExpirePeer(registry, cfg, hash, now);
      ExpireOneMore(cfg, before, todo, hash, now);
      todo := todo - {hash};
      changed := changed || cleared;
    }
    assert registry.View() == Expire(cfg, before, now);
  }

  ghost function ExpireExcept(cfg: Config, peers: map<AddressHash, RouteView>, todo: set<AddressHash>, now: nat)
    : map<AddressHash, RouteView>
  {
    map h | h in peers :: if h !in todo && Overdue(cfg, peers[h], now) then peers[h].(routes := []) else peers[h]
  }

  ghost function ExpireOne(cfg: Config, v: RouteView, now: nat): RouteView {
    if Overdue(cfg, v, now) then v.(routes := []) else v
  }

  lemma ExpireOneMore(cfg: Config, peers: map<AddressHash, RouteView>, todo: set<AddressHash>, hash: AddressHash, now: nat)
    requires hash in peers && hash in todo
    ensures var before := ExpireExcept(cfg, peers, todo, now);
            before[hash] == peers[hash] &&
            before[hash := ExpireOne(cfg, peers[hash], now)] == ExpireExcept(cfg, peers, todo - {hash}, now)
  {
  }

  method ExpirePeer(registry: PeerRegistry, cfg: Config, hash: AddressHash, now: nat) returns (cleared: bool)
    requires registry.Valid() && hash in registry.peers
    modifies registry.peers.Values
    ensures registry.Valid() && cleared == Overdue(cfg, old(registry.View())[hash], now)
    ensures registry.View() == old(registry.View())[hash := ExpireOne(cfg, old(registry.View())[hash], now)]
  {
    var peer := registry.peers[hash];
    assert peer.Routing() == registry.View()[hash];
    if peer.hash == cfg.destination {
      return false;
    }
    cleared := peer.routeExpiresTs != 0 && peer.routeExpiresTs <= now && peer.routes != [];
    if cleared {
      peer.ClearRoutes();
    }
  }

  /** The views of the listed peers are the values of the registry's view. */
  lemma RegistryViews(registry: PeerRegistry, all: seq<Peer>)
    requires registry.Valid()
    requires forall p :: p in all <==> p in registry.peers.Values
    ensures Elements(Views(all)) == registry.View().Values
  {
    forall v | v in registry.View().Values ensures v in Elements(Views(all)) {
      var h :| h in registry.View() && registry.View()[h] == v;
      var p := registry.peers[h];
      assert p in all;
      var i :| 0 <= i < |all| && all[i] == p;
      assert Views(all)[i] == v;
    }
    forall v | v in Elements(Views(all)) ensures v in registry.View().Values {
      var i :| 0 <= i < |all| && Views(all)[i] == v;
      assert all[i] in all;
      var h :| h in registry.peers && registry.peers[h] == all[i];
      assert registry.View()[h] == v;
    }
  }
}
