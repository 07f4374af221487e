/** The route control plane as a state machine: one transition per handler.

    A handler runs without interruption and reads the clock once. The order of hash
    maps and the outcome of kernel commands are left open, so a transition is a
    relation between two states. */
module VpnModel {
  import opened Common
  import opened Cidrs
  import opened Addressing
  import opened Peers
  import opened Routing
  import opened Translations
  import opened Platform
  import opened RouteSync

  const ROUTE_GRACE_SECS: nat := 45
  const WATCHDOG_SECS: nat := 10

  datatype ConfigData = ConfigData(destination: AddressHash, network: Cidr, hasInterface: bool, aliasing: bool)

  /** `validate_network` has accepted the network. */
  type Config = c: ConfigData | c.network.len <= 30 witness ConfigData(ZERO_HASH, Block(0, 0), false, false)

  /** What the user configures and may replace later, and which kernel commands will fail. */
  datatype StartConfig = StartConfig(allowAll: bool, configured: set<AddressHash>, advertised: seq<Cidr>, faults: iset<nat>)

  datatype VpnState = VpnState(
    peers: map<AddressHash, RouteView>,
    table: RouteTable,
    rebuiltAt: nat,
    allowAll: bool,
    allowed: set<AddressHash>,
    advertised: seq<Cidr>,
    localRoutes: seq<Cidr>,
    installed: set<Cidr>,
    conflicted: set<Cidr>,
    kernel: KernelView,
    failed: bool)

  function LocalOf(cfg: Config): Local {
    Local(cfg.destination, TunnelIp(cfg.network, cfg.destination))
  }

  function SyncPart(s: VpnState): SyncState {
    SyncState(s.installed, s.conflicted, s.kernel)
  }

  function PlanFor(cfg: Config, s: VpnState): Plan {
    PlanOf(s.table.subnets, LocalTranslations(s.localRoutes, cfg.destination, cfg.aliasing))
  }

  // ── Building blocks ────────────────────────────────────────────────────────

  /** `rebuild_router` at time `now`. */
  ghost predicate Rebuilt(cfg: Config, s: VpnState, now: nat, s': VpnState) {
    && s' == s.(table := s'.table, rebuiltAt := now)
    && IsTableOf(s'.table, s.peers.Values, now, LocalOf(cfg))
  }

  /** `sync_routes`; `failed` records whether it stopped early. */
  ghost predicate SyncStep(cfg: Config, s: VpnState, s': VpnState) {
    && s' == s.(installed := s'.installed, conflicted := s'.conflicted, kernel := s'.kernel, failed := s'.failed)
    && Synced(PlanFor(cfg, s), cfg.hasInterface, SyncPart(s), SyncPart(s'), !s'.failed)
  }

  ghost predicate RebuiltAndSynced(cfg: Config, s: VpnState, now: nat, s': VpnState) {
    exists mid :: Rebuilt(cfg, s, now, mid) && SyncStep(cfg, mid, s')
  }

  predicate PeerAllowed(cfg: Config, s: VpnState, hash: AddressHash) {
    hash != cfg.destination && (s.allowAll || hash in s.allowed)
  }

  function SeededPeer(cfg: Config, hash: AddressHash): RouteView {
    RouteView(hash, TunnelIp(cfg.network, hash), 0, [])
  }

  /** A peer slot for every allowed hash that has none and is not our own. */
  function Seed(cfg: Config, peers: map<AddressHash, RouteView>, hashes: set<AddressHash>): map<AddressHash, RouteView> {
    peers + map h | h in hashes && h != cfg.destination && h !in peers :: SeededPeer(cfg, h)
  }

  function Prune(cfg: Config, peers: map<AddressHash, RouteView>, allowed: set<AddressHash>): map<AddressHash, RouteView> {
    map h | h in peers && (h == cfg.destination || h in allowed) :: peers[h]
  }

  /** The registry after `replace_peer_policy`. */
  function PolicyPeers(cfg: Config, peers: map<AddressHash, RouteView>, allowAll: bool, hashes: set<AddressHash>)
    : map<AddressHash, RouteView>
  {
    var seeded := Seed(cfg, peers, hashes);
    if allowAll then seeded else Prune(cfg, seeded, hashes)
  }

  function Announced(cfg: Config, peers: map<AddressHash, RouteView>, hash: AddressHash, routes: seq<Cidr>, now: nat)
    : map<AddressHash, RouteView>
  {
    var peer := if hash in peers then peers[hash] else SeededPeer(cfg, hash);
    peers[hash := peer.(routes := routes, expires := now + ROUTE_GRACE_SECS)]
  }

  predicate Overdue(cfg: Config, v: RouteView, now: nat) {
    v.hash != cfg.destination && v.expires != 0 && v.expires <= now && v.routes != []
  }

  /** The watchdog's first pass: routes past their expiry are dropped. */
  function Expire(cfg: Config, peers: map<AddressHash, RouteView>, now: nat): map<AddressHash, RouteView> {
    map h | h in peers :: if Overdue(cfg, peers[h], now) then peers[h].(routes := []) else peers[h]
  }

  predicate SomeOverdue(cfg: Config, peers: map<AddressHash, RouteView>, now: nat) {
    exists h :: h in peers && Overdue(cfg, peers[h], now)
  }

  ghost predicate Merged(local: seq<Cidr>, discovered: seq<Cidr>, advertised: seq<Cidr>) {
    NoRepeats(local) && forall r :: r in local <==> r in discovered || r in advertised
  }

  // ── Transitions ────────────────────────────────────────────────────────────

  datatype Event =
    | Announce(hash: AddressHash, routes: seq<Cidr>)
    | Control(hash: AddressHash, routes: seq<Cidr>)
    /** `parsed` is `None` when some configured peer hash is malformed. */
    | ReplacePolicy(allowAll: bool, parsed: Option<set<AddressHash>>)
    | WatchdogTick
    | ReplaceAdvertised(discovered: seq<Cidr>, routes: seq<Cidr>)
    | RefreshLocal(discovered: seq<Cidr>)
    /** The environment installs or removes iptables. */
    | IptablesChange(present: bool)

  /** `handle_peer_announce`. */
  ghost predicate AnnounceStep(cfg: Config, s: VpnState, hash: AddressHash, routes: seq<Cidr>, now: nat, s': VpnState) {
    if PeerAllowed(cfg, s, hash)
    then RebuiltAndSynced(cfg, s.(peers := Announced(cfg, s.peers, hash, routes, now)), now, s')
    else s' == s
  }

  /** A Hello or Routes frame; the sender need not be registered any more. */
  ghost predicate ControlStep(cfg: Config, s: VpnState, hash: AddressHash, routes: seq<Cidr>, now: nat, s': VpnState) {
    RebuiltAndSynced(cfg, if hash in s.peers then s.(peers := Announced(cfg, s.peers, hash, routes, now)) else s, now, s')
  }

  /** `replace_peer_policy` with well-formed hashes. */
  ghost predicate PolicyStep(cfg: Config, s: VpnState, allowAll: bool, hashes: set<AddressHash>, now: nat, s': VpnState) {
    var peers := PolicyPeers(cfg, s.peers, allowAll, hashes);
    RebuiltAndSynced(cfg, s.(allowAll := allowAll, allowed := hashes, peers := peers, failed := false), now, s')
  }

  /** The route part of a watchdog tick. */
  ghost predicate WatchdogStep(cfg: Config, s: VpnState, now: nat, s': VpnState) {
    if SomeOverdue(cfg, s.peers, now)
    then RebuiltAndSynced(cfg, s.(peers := Expire(cfg, s.peers, now)), now, s')
    else s' == s
  }

  /** `replace_advertised_routes`: syncs without rebuilding the table. */
  ghost predicate AdvertiseStep(cfg: Config, s: VpnState, discovered: seq<Cidr>, routes: seq<Cidr>, s': VpnState) {
    && Merged(s'.localRoutes, discovered, routes)
    && SyncStep(cfg, s.(advertised := routes, localRoutes := s'.localRoutes, failed := false), s')
  }

  /** `refresh_local_routes`: no sync. */
  ghost predicate RefreshStep(cfg: Config, s: VpnState, discovered: seq<Cidr>, s': VpnState) {
    Merged(s'.localRoutes, discovered, s.advertised) && s' == s.(localRoutes := s'.localRoutes)
  }

  ghost predicate Step(cfg: Config, s: VpnState, e: Event, now: nat, s': VpnState) {
    match e
    case Announce(hash, routes) => AnnounceStep(cfg, s, hash, routes, now, s')
    case Control(hash, routes) => ControlStep(cfg, s, hash, routes, now, s')
    case ReplacePolicy(allowAll, parsed) =>
      if parsed.None? then s' == s else PolicyStep(cfg, s, allowAll, parsed.value, now, s')
    case WatchdogTick => WatchdogStep(cfg, s, now, s')
    case ReplaceAdvertised(discovered, routes) => AdvertiseStep(cfg, s, discovered, routes, s')
    case RefreshLocal(discovered) => RefreshStep(cfg, s, discovered, s')
    case IptablesChange(present) => s' == s.(kernel := s.kernel.(iptables := present))
  }

  /** The configured peers have slots, and nothing is built or installed yet. Aliasing is
      on exactly if iptables was found. */
  function Blank(cfg: Config, start: StartConfig, localRoutes: seq<Cidr>, now: nat): VpnState {
    VpnState(Seed(cfg, map[], start.configured), EMPTY_TABLE, now, start.allowAll, start.configured, start.advertised,
             localRoutes, {}, {}, FreshKernel(cfg.aliasing, start.faults), false)
  }

  /** The state after `VpnRuntime::start`. */
  ghost predicate Init(cfg: Config, start: StartConfig, discovered: seq<Cidr>, now: nat, s': VpnState) {
    && Merged(s'.localRoutes, discovered, start.advertised)
    && RebuiltAndSynced(cfg, Blank(cfg, start, s'.localRoutes, now), now, s')
  }
}
