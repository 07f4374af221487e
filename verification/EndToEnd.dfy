/** Two nodes. Node `a` announces its local LANs under their aliases, node `b` accepts the
    announce and forwards a packet for an alias address, and the NETMAP rules of `a` rewrite
    it to an address of a LAN. The announce arrives as it was sent. */
module EndToEnd {
  import opened Common
  import opened Cidrs
  import opened Addressing
  import opened Routing
  import opened Translations
  import opened Platform
  import opened RouteSync
  import opened VpnModel
  import opened VpnRuns
  import opened Instances

  /** `exported_routes`: what an announce of the node carries. */
  function ExportedRoutes(cfg: Config, s: VpnState): (routes: seq<Cidr>)
    ensures |routes| == |s.localRoutes|
    ensures forall i :: 0 <= i < |routes| ==>
      routes[i] == if cfg.aliasing then ExportedRoute(cfg.destination, s.localRoutes[i]) else s.localRoutes[i]
  {
    var ts := LocalTranslations(s.localRoutes, cfg.destination, cfg.aliasing);
    seq(|ts|, i requires 0 <= i < |ts| => ts[i].exported)
  }

  // ── The sending node ───────────────────────────────────────────────────────

  /** The refresh `i` of peer `h` with these routes is still what counts for `route` in
      state `k`: undisturbed, not expired at the last rebuild, claimed by nobody else. */
  ghost predicate Uncontested(b: Run, i: nat, k: nat, h: AddressHash, routes: seq<Cidr>, route: Cidr)
    requires |b.states| == |b.events| + 1
  {
    && i < k < |b.states| && Refreshes(b, i, h, routes) && route in routes
    && (forall j :: i < j < k ==> !Disturbs(b, i, j, h))
    && LastRebuild(b, k) < b.events[i].now + ROUTE_GRACE_SECS
    && (forall g :: g in b.states[k].peers && route in b.states[k].peers[g].routes ==> g == h)
    && !Contains(route, TunnelIp(b.cfg.network, b.cfg.destination))
  }

  /** A packet into an announced route goes to the announcer, unless its address is a tunnel
      IP or another peer holds a longer subnet around it. */
  lemma ForwardedToAnnouncer(b: Run, i: nat, k: nat, h: AddressHash, routes: seq<Cidr>, route: Cidr, ip: Ipv4)
    returns (longest: Cidr, owner: AddressHash)
    requires IsRun(b) && Uncontested(b, i, k, h, routes, route) && Contains(route, ip)
    requires ip !in b.states[k].table.tunnelIps
    ensures var s := b.states[k];
            Longest(Claims(s.peers.Values, LastRebuild(b, k), LocalOf(b.cfg)), LocalOf(b.cfg), ip, (longest, owner))
    ensures Lookup(b.states[k].table, ip) == Some(owner)
    ensures (longest == route && owner == h) || longest.len > route.len
  {
    var s := b.states[k];
    RefreshedRouteInTable(b, i, k, h, routes, route);
    TableAlwaysCurrent(b, k);
    LookupIsLongestMatch(s.table, s.peers.Values, LastRebuild(b, k), LocalOf(b.cfg), ip);
    longest, owner := SomeLongest(s.table, ip, (route, h));
    assert Survives(Claims(s.peers.Values, LastRebuild(b, k), LocalOf(b.cfg)), LocalOf(b.cfg), (route, h));
    if longest.len == route.len {
      EqualLengthDisjoint(longest, route, ip);
    }
  }

  /** Some subnet of the table around the address is longest. */
  lemma SomeLongest(t: RouteTable, ip: Ipv4, c: Claim) returns (longest: Cidr, owner: AddressHash)
    requires c in t.subnets && Contains(c.0, ip)
    ensures (longest, owner) in t.subnets && Contains(longest, ip)
    ensures forall d :: d in t.subnets && Contains(d.0, ip) ==> d.0.len <= longest.len
  {
    longest, owner := c.0, c.1;
    for i := 0 to |t.subnets|
      invariant (longest, owner) in t.subnets && Contains(longest, ip)
      invariant forall d :: d in t.subnets[..i] && Contains(d.0, ip) ==> d.0.len <= longest.len
    {
      var d := t.subnets[i];
      if Contains(d.0, ip) && d.0.len > longest.len {
        longest, owner := d.0, d.1;
      }
    }
    assert t.subnets[..|t.subnets|] == t.subnets;
  }

  // ── The receiving node ─────────────────────────────────────────────────────

  ghost predicate MatchedBy(rules: seq<Rule>, ip: Ipv4) {
    exists i :: 0 <= i < |rules| && Contains(rules[i].matches, ip)
  }

  /** `inside` is the host with the octet of `ip` in one of the /24s of the list whose
      alias holds `ip`. */
  ghost predicate InsideOneOf(destination: AddressHash, routes: seq<Cidr>, ip: Ipv4, inside: Ipv4) {
    exists lan :: lan in routes && StandsFor(destination, lan, ip, inside)
  }

  ghost predicate StandsFor(destination: AddressHash, lan: Cidr, ip: Ipv4, inside: Ipv4) {
    && lan.len == 24 && Contains(ExportedRoute(destination, lan), ip)
    && Contains(lan, inside) && inside % 0x100 == ip % 0x100
  }

  /** A packet lands in a LAN that is or was local. */
  ghost predicate Lands(a: Run, k: nat, ip: Ipv4)
    requires k < |a.states|
  {
    exists j: nat :: j <= k
      && InsideOneOf(a.cfg.destination, a.states[j].localRoutes, ip, Rewrite(a.states[k].kernel.pre, ip))
  }

  /** In every state of every run, with any failures: a packet lands in a LAN behind its
      alias exactly if some rule in the PREROUTING chain matches it. */
  lemma LandsExactly(a: Run, k: nat, ip: Ipv4)
    requires IsRun(a) && k < |a.states|
    ensures Lands(a, k, ip) <==> MatchedBy(a.states[k].kernel.pre, ip)
  {
    if MatchedBy(a.states[k].kernel.pre, ip) {
      MatchedLands(a, k, ip);
    } else {
      RewriteNone(a.states[k].kernel.pre, ip);
      forall j: nat, lan | j <= k && lan in a.states[j].localRoutes
        ensures !StandsFor(a.cfg.destination, lan, ip, ip)
      {
        NotItsOwnAlias(a.cfg.destination, lan, ip);
      }
    }
  }

  lemma NotItsOwnAlias(destination: AddressHash, lan: Cidr, ip: Ipv4)
    ensures !StandsFor(destination, lan, ip, ip)
  {
    if lan.len == 24 {
      AliasDiffers(destination, lan);
      OverlapIsSharedAddress(ExportedRoute(destination, lan), lan);
    }
  }

  lemma MatchedLands(a: Run, k: nat, ip: Ipv4)
    requires IsRun(a) && k < |a.states| && MatchedBy(a.states[k].kernel.pre, ip)
    ensures Lands(a, k, ip)
  {
    var routes, j, n, m := RulesAlwaysLocal(a, k);
    FirstRulesLand(a.cfg, routes, n, ip);
    assert InsideOneOf(a.cfg.destination, a.states[j].localRoutes, ip, Rewrite(a.states[k].kernel.pre, ip));
  }

  /** The first `n` rules for a list of routes take a matching packet into one of them. */
  lemma FirstRulesLand(cfg: Config, routes: seq<Cidr>, n: nat, ip: Ipv4)
    requires NoRepeats(routes)
    requires n <= |Active(LocalTranslations(routes, cfg.destination, cfg.aliasing))|
    requires var active := Active(LocalTranslations(routes, cfg.destination, cfg.aliasing));
             MatchedBy(PreRules(active[..n]), ip)
    ensures routes != []
    ensures var active := Active(LocalTranslations(routes, cfg.destination, cfg.aliasing));
            InsideOneOf(cfg.destination, routes, ip, Rewrite(PreRules(active[..n]), ip))
  {
    var active := Active(LocalTranslations(routes, cfg.destination, cfg.aliasing));
    RulesOnlyForLans(routes, cfg.destination, cfg.aliasing);
    var first := MatchedRewrite(active[..n], ip);
    var t := active[first];
    assert t in active;
    assert StandsFor(cfg.destination, t.local, ip, Rewrite(PreRules(active[..n]), ip));
  }

  lemma MatchedRewrite(active: seq<Translation>, ip: Ipv4) returns (k: nat)
    requires LansApart(active) && MatchedBy(PreRules(active), ip)
    ensures k < |active| && Contains(active[k].exported, ip)
    ensures var inside := Rewrite(PreRules(active), ip); Contains(active[k].local, inside) && inside % 0x100 == ip % 0x100
  {
    var i :| 0 <= i < |active| && Contains(PreRules(active)[i].matches, ip);
    k := ThereAndBack(active, 0, ip, i);
  }

  // ── Both together ──────────────────────────────────────────────────────────

  /** The last sync before state `m` of node `a` left state `j`, completed with iptables, and
      the local routes are still the same. */
  ghost predicate RulesCurrent(a: Run, j: nat, m: nat)
    requires |a.states| == |a.events| + 1 && j <= m < |a.states|
  {
    && SyncedWithRules(a, j) && a.states[m].localRoutes == a.states[j].localRoutes
    && forall i :: j <= i < m ==> !Syncs(a.cfg, a.states[i], a.events[i].event, a.events[i].now)
  }

  /** What the routes are for. If `a` announces its exported routes after a completed sync of
      them and `b` accepts them uncontested, then a packet of `b` to the alias of a LAN goes
      to `a`, unless its address is a tunnel IP or lies in a longer subnet. There the rules
      take it to the host with the same last octet in a local /24 with that alias, and
      restore the address on the way back. */
  lemma AliasTraffic(a: Run, j: nat, m: nat, b: Run, i: nat, k: nat, lan: Cidr, ip: Ipv4)
    returns (longest: Cidr, owner: AddressHash)
    requires IsRun(a) && j <= m < |a.states| && a.cfg.aliasing && RulesCurrent(a, j, m)
    requires lan in a.states[m].localRoutes && lan.len == 24
    requires var alias := ExportedRoute(a.cfg.destination, lan);
             && Contains(alias, ip) && IsRun(b)
             && Uncontested(b, i, k, a.cfg.destination, ExportedRoutes(a.cfg, a.states[m]), alias)
    requires ip !in b.states[k].table.tunnelIps
    ensures Lookup(b.states[k].table, ip) == Some(owner) && Contains(longest, ip)
    ensures (longest, owner) in b.states[k].table.subnets && (owner == a.cfg.destination || longest.len > 24)
    ensures var inside := Rewrite(a.states[m].kernel.pre, ip);
            && InsideOneOf(a.cfg.destination, a.states[m].localRoutes, ip, inside)
            && Rewrite(a.states[m].kernel.post, inside) == ip
  {
    var alias := ExportedRoute(a.cfg.destination, lan);
    AliasDiffers(a.cfg.destination, lan);
    AliasApart(a.cfg.destination, lan);
    longest, owner := ForwardedToAnnouncer(b, i, k, a.cfg.destination, ExportedRoutes(a.cfg, a.states[m]), alias, ip);
    TableAlwaysCurrent(b, k);
    LocalRoutesDistinct(a, m);
    RulesAfterSync(a, j);
    RulesStay(a, j, m);
    AliasInside(a.cfg, a.states[m], lan, ip);
  }

  lemma AliasInside(cfg: Config, s: VpnState, lan: Cidr, ip: Ipv4)
    requires cfg.aliasing && RulesInPlace(cfg, s) && NoRepeats(s.localRoutes)
    requires lan in s.localRoutes && lan.len == 24 && Contains(ExportedRoute(cfg.destination, lan), ip)
    ensures var inside := Rewrite(s.kernel.pre, ip);
            InsideOneOf(cfg.destination, s.localRoutes, ip, inside) && Rewrite(s.kernel.post, inside) == ip
  {
    var active := Active(LocalTranslations(s.localRoutes, cfg.destination, true));
    var t := Translation(lan, ExportedRoute(cfg.destination, lan));
    ActiveExactly(s.localRoutes, cfg.destination, true, t);
    var i :| 0 <= i < |active| && active[i] == t;
    assert active[..|active|] == active;
    assert Contains(PreRules(active)[i].matches, ip);
    FirstRulesLand(cfg, s.localRoutes, |active|, ip);
    var k :| 0 <= k < |s.localRoutes| && s.localRoutes[k] == lan;
    AliasRoundTrip(s.localRoutes, cfg.destination, ip, k);
  }

  /** The rules need not be in place when the announce goes out: the node is told to
      advertise a /24, iptables refuses the first command of the sync, and the next announce
      carries an alias that no rule of the node rewrites. */
  lemma AnnouncedWithoutRule() returns (a: Run, lan: Cidr, ip: Ipv4)
    ensures IsRun(a) && |a.events| == 1 && a.cfg.aliasing && lan.len == 24
    ensures lan in a.states[1].localRoutes && ExportedRoute(a.cfg.destination, lan) in ExportedRoutes(a.cfg, a.states[1])
    ensures Contains(ExportedRoute(a.cfg.destination, lan), ip) && !Lands(a, 1, ip)
  {
    lan := HomeLan();
    a := QuietStart(iset{4});
    var s := a.states[0].(advertised := [lan], localRoutes := [lan], failed := false);
    var s1 := s.(failed := true, kernel := s.kernel.(commands := 5, failures := 1));
    HaltedFirst(a.cfg, s, s1);
    assert Merged([lan], [], [lan]);
    a := Extend(a, ReplaceAdvertised([], [lan]), 0, s1);
    ip := ExportedRoute(a.cfg.destination, lan).base;
    BaseIsContained(ExportedRoute(a.cfg.destination, lan));
    assert ExportedRoutes(a.cfg, s1)[0] == ExportedRoute(a.cfg.destination, lan);
    LandsExactly(a, 1, ip);
  }

  /** A sync with nothing installed whose first command fails. */
  lemma HaltedFirst(cfg: Config, s: VpnState, s': VpnState)
    requires cfg.hasInterface && s.kernel.iptables && s.installed == {} && s.kernel.commands in s.kernel.faults
    requires s' == s.(failed := true, kernel := s.kernel.(commands := s.kernel.commands + 1, failures := s.kernel.failures + 1))
    ensures SyncStep(cfg, s, s')
  {
    assert Faulted(s.kernel, s'.kernel);
    assert KernelMoved(PlanFor(cfg, s), SyncPart(s), SyncPart(s'), false);
  }
}
