/** The forwarding table built from the peers, and the lookup on it.

    `Build` and `Resolve` follow the source's loops. The reference definitions are on
    sets: which claims exist, which survive, and which surviving subnet is longest. */
module Routing {
  import opened Common
  import opened Cidrs
  import opened Addressing
  import opened Peers

  type Claim = (Cidr, AddressHash)

  /** `subnets` is sorted by prefix length, longest first. */
  datatype RouteTable = RouteTable(tunnelIps: map<Ipv4, AddressHash>, subnets: seq<Claim>)

  const EMPTY_TABLE := RouteTable(map[], [])

  /** What the node knows about itself when it builds a table. */
  datatype Local = Local(hash: AddressHash, tunnelIp: Ipv4)

  // ── Reference definitions ──────────────────────────────────────────────────

  /** The peer's routes count at time `now`. */
  predicate Live(v: RouteView, now: nat) {
    v.expires == 0 || v.expires > now
  }

  /** Every (route, owner) that a live peer other than ourselves announces. */
  ghost function Claims(views: set<RouteView>, now: nat, local: Local): set<Claim> {
    set v, r | v in views && v.hash != local.hash && Live(v, now) && r in v.routes :: (r, v.hash)
  }

  /** Exact ownership: claimed, by nobody else, and not covering our own tunnel IP. */
  ghost predicate Survives(claims: set<Claim>, local: Local, c: Claim) {
    && c in claims
    && (forall h :: (c.0, h) in claims ==> h == c.1)
    && !Contains(c.0, local.tunnelIp)
  }

  ghost predicate SortedByLength(subnets: seq<Claim>) {
    forall i, j :: 0 <= i < j < |subnets| ==> subnets[i].0.len >= subnets[j].0.len
  }

  /** `h` is the hash of a peer other than ourselves that has tunnel address `ip`. */
  ghost predicate TunnelOwner(views: set<RouteView>, local: Local, ip: Ipv4, h: AddressHash) {
    h != local.hash && exists v :: v in views && v.hash == h && v.tunnelIp == ip
  }

  /** What every table built from these peers satisfies, whatever their order. */
  ghost predicate IsTableOf(t: RouteTable, views: set<RouteView>, now: nat, local: Local) {
    && (forall c :: c in t.subnets <==> Survives(Claims(views, now, local), local, c))
    && NoRepeats(t.subnets)
    && SortedByLength(t.subnets)
    && (forall ip, h :: TunnelOwner(views, local, ip, h) ==> ip in t.tunnelIps)
    && (forall ip :: ip in t.tunnelIps ==> TunnelOwner(views, local, ip, t.tunnelIps[ip]))
  }

  ghost function Elements<T>(s: seq<T>): set<T> {
    set x | x in s
  }

  /** The tunnel IPs after inserting the peers one by one, later ones overwriting. */
  ghost function LastWriter(views: seq<RouteView>, local: Local): map<Ipv4, AddressHash> {
    if views == [] then map[]
    else
      var front, v := LastWriter(views[..|views| - 1], local), views[|views| - 1];
      if v.hash == local.hash then front else front[v.tunnelIp := v.hash]
  }

  ghost function Views(peers: seq<Peer>): (views: seq<RouteView>)
    reads peers
    ensures |views| == |peers|
    ensures forall i :: 0 <= i < |peers| ==> views[i] == peers[i].Routing()
  {
    if peers == [] then [] else Views(peers[..|peers| - 1]) + [peers[|peers| - 1].Routing()]
  }

  // ── Building ───────────────────────────────────────────────────────────────

  /** State of the inner loop: `done` is the set of claims met so far. */
  ghost predicate Sieved(done: set<Claim>, claimed: map<Cidr, AddressHash>, conflicts: set<Cidr>, local: Local) {
    && (forall c :: c in done && !Contains(c.0, local.tunnelIp) ==> c.0 in claimed)
    && (forall r :: r in claimed ==> (r, claimed[r]) in done && !Contains(r, local.tunnelIp))
    && (forall c :: c in done && c.0 in claimed && c.1 != claimed[c.0] ==> c.0 in conflicts)
    && (forall r :: r in conflicts ==> Contains(r, local.tunnelIp) || Contested(done, claimed, r))
  }

  ghost predicate Contested(done: set<Claim>, claimed: map<Cidr, AddressHash>, r: Cidr) {
    r in claimed && exists h :: h != claimed[r] && (r, h) in done
  }

  /** One announced route, as the inner loop treats it. */
  method ClaimRoute(route: Cidr, hash: AddressHash, local: Local, ghost done: set<Claim>,
                    claimed: map<Cidr, AddressHash>, conflicts: set<Cidr>)
    returns (claimed': map<Cidr, AddressHash>, conflicts': set<Cidr>)
    requires Sieved(done, claimed, conflicts, local)
    ensures Sieved(done + {(route, hash)}, claimed', conflicts', local)
  {
    claimed', conflicts' := claimed, conflicts;
    if Contains(route, local.tunnelIp) {
      conflicts' := conflicts + {route};
    } else if route in claimed {
      if claimed[route] != hash {
        conflicts' := conflicts + {route};
      }
    } else {
      claimed' := claimed[route := hash];
      assert forall c :: c in done ==> c.0 != route;
    }
    ghost var done' := done + {(route, hash)};
    forall r | r in conflicts' && !Contains(r, local.tunnelIp)
      ensures Contested(done', claimed', r)
    {
      if r in conflicts {
        assert Contested(done, claimed, r);
        var h :| h != claimed[r] && (r, h) in done;
        assert (r, h) in done';
      } else {
        assert (r, hash) in done';
      }
    }
  }

  /** The inner loop, over the routes of one peer. */
  method ClaimRoutes(routes: seq<Cidr>, hash: AddressHash, local: Local, ghost before: set<Claim>,
                     claimed: map<Cidr, AddressHash>, conflicts: set<Cidr>)
    returns (claimed': map<Cidr, AddressHash>, conflicts': set<Cidr>)
    requires Sieved(before, claimed, conflicts, local)
    ensures Sieved(before + ClaimsOf(hash, routes), claimed', conflicts', local)
  {
    claimed', conflicts' := claimed, conflicts;
    assert before + ClaimsOf(hash, routes[..0]) == before;
    for j := 0 to |routes|
      invariant Sieved(before + ClaimsOf(hash, routes[..j]), claimed', conflicts', local)
    {
      ghost var done := before + ClaimsOf(hash, routes[..j]);
      assert routes[..j + 1] == routes[..j] + [routes[j]];
      assert done + {(routes[j], hash)} == before + ClaimsOf(hash, routes[..j + 1]);
      claimed', conflicts' := ClaimRoute(routes[j], hash, local, done, claimed', conflicts');
    }
    assert routes[..|routes|] == routes;
  }

  /** After the last claim, the routes in `claimed` and not in `conflicts` survive. */
  lemma SievedIsSurvival(claims: set<Claim>, claimed: map<Cidr, AddressHash>, conflicts: set<Cidr>, local: Local, c: Claim)
    requires Sieved(claims, claimed, conflicts, local)
    ensures Survives(claims, local, c) <==> c.0 in claimed && claimed[c.0] == c.1 && c.0 !in conflicts
  {
    if Survives(claims, local, c) {
      assert (c.0, claimed[c.0]) in claims;
      assert c.0 in conflicts ==> Contested(claims, claimed, c.0);
    }
    if c.0 in claimed && claimed[c.0] == c.1 && c.0 !in conflicts {
      forall h | (c.0, h) in claims ensures h == c.1 {
        assert (c.0, h).0 in claimed;
      }
    }
  }

  ghost function ClaimsOf(hash: AddressHash, routes: seq<Cidr>): set<Claim> {
    set r | r in routes :: (r, hash)
  }

  lemma ClaimsGrow(front: seq<RouteView>, v: RouteView, now: nat, local: Local)
    ensures Claims(Elements(front + [v]), now, local) == Claims(Elements(front), now, local) +
            (if v.hash != local.hash && Live(v, now) then ClaimsOf(v.hash, v.routes) else {})
  {
    assert forall w :: w in Elements(front + [v]) <==> w in Elements(front) || w == v;
  }

  /** Loop state of `Build` after the peers in `front`. */
  ghost predicate Progress(front: seq<RouteView>, now: nat, local: Local, tunnelIps: map<Ipv4, AddressHash>,
                           claimed: map<Cidr, AddressHash>, conflicts: set<Cidr>) {
    && tunnelIps == LastWriter(front, local)
    && Sieved(Claims(Elements(front), now, local), claimed, conflicts, local)
  }

  /** The outer loop's body. */
  method VisitPeer(peer: Peer, now: nat, local: Local, ghost front: seq<RouteView>, tunnelIps: map<Ipv4, AddressHash>,
                   claimed: map<Cidr, AddressHash>, conflicts: set<Cidr>)
    returns (tunnelIps': map<Ipv4, AddressHash>, claimed': map<Cidr, AddressHash>, conflicts': set<Cidr>)
    requires Progress(front, now, local, tunnelIps, claimed, conflicts)
    ensures Progress(front + [peer.Routing()], now, local, tunnelIps', claimed', conflicts')
  {
    tunnelIps', claimed', conflicts' := tunnelIps, claimed, conflicts;
    ghost var before := Claims(Elements(front), now, local);
    ClaimsGrow(front, peer.Routing(), now, local);
    assert (front + [peer.Routing()])[..|front|] == front;
    assert before + {} == before;
    if peer.hash == local.hash {
      return;
    }
    tunnelIps' := tunnelIps[peer.tunnelIp := peer.hash];
    if peer.routeExpiresTs != 0 && peer.routeExpiresTs <= now {
      return;
    }
    claimed', conflicts' := ClaimRoutes(peer.routes, peer.hash, local, before, claimed, conflicts);
  }

  /** Insert after every subnet that is at least as long: the library sort is stable. */
  function InsertByLength(c: Claim, s: seq<Claim>): (r: seq<Claim>)
    ensures forall x :: x in r <==> x == c || x in s
    ensures |r| == |s| + 1
  {
    if s == [] then [c]
    else if s[|s| - 1].0.len < c.0.len then InsertByLength(c, s[..|s| - 1]) + [s[|s| - 1]]
    else s + [c]
  }

  lemma {:induction false} InsertKeepsOrder(c: Claim, s: seq<Claim>)
    requires SortedByLength(s) && NoRepeats(s) && c !in s
    ensures SortedByLength(InsertByLength(c, s)) && NoRepeats(InsertByLength(c, s))
  {
    if s != [] && s[|s| - 1].0.len < c.0.len {
      var front := s[..|s| - 1];
      InsertKeepsOrder(c, front);
      var r := InsertByLength(c, front);
      forall i | 0 <= i < |r| ensures r[i].0.len >= s[|s| - 1].0.len && r[i] != s[|s| - 1] {
        assert r[i] in r;
      }
    }
  }

  /** `sort_by_key(Reverse(length))`. */
  function SortByLength(s: seq<Claim>): (r: seq<Claim>)
    ensures forall x :: x in r <==> x in s
  {
    if s == [] then []
    else
      var front, last := s[..|s| - 1], s[|s| - 1];
      assert s == front + [last];
      InsertByLength(last, SortByLength(front))
  }

  lemma {:induction false} SortByLengthSorts(s: seq<Claim>)
    requires NoRepeats(s)
    ensures SortedByLength(SortByLength(s)) && NoRepeats(SortByLength(s))
  {
    if s != [] {
      SortByLengthSorts(s[..|s| - 1]);
      InsertKeepsOrder(s[|s| - 1], SortByLength(s[..|s| - 1]));
    }
  }

  /** The claimed routes without a conflict, in the hash map's own order. */
  method Unconflicted(claimed: map<Cidr, AddressHash>, conflicts: set<Cidr>) returns (subnets: seq<Claim>)
    ensures NoRepeats(subnets)
    ensures forall c :: c in subnets <==> c.0 in claimed && claimed[c.0] == c.1 && c.0 !in conflicts
  {
    subnets := [];
    var left := claimed.Keys;
    while left != {}
      invariant left <= claimed.Keys
      invariant NoRepeats(subnets)
      invariant forall c :: c in subnets <==> c.0 in claimed.Keys - left && claimed[c.0] == c.1 && c.0 !in conflicts
      decreases left
    {
      var route :| route in left;
      if route !in conflicts {
        assert (route, claimed[route]) !in subnets;
        subnets := subnets + [(route, claimed[route])];
      }
      left := left - {route};
    }
  }

  /** `RouteTable::build`. */
  method Build(peers: seq<Peer>, now: nat, local: Local) returns (table: RouteTable)
    ensures table.tunnelIps == LastWriter(Views(peers), local)
    ensures IsTableOf(table, Elements(Views(peers)), now, local)
  {
    ghost var views := Views(peers);
    var tunnelIps: map<Ipv4, AddressHash> := map[];
    var claimed: map<Cidr, AddressHash> := map[];
    var conflicts: set<Cidr> := {};
    for i := 0 to |peers|
      invariant Progress(views[..i], now, local, tunnelIps, claimed, conflicts)
    {
      assert views[..i + 1] == views[..i] + [peers[i].Routing()];
      tunnelIps, claimed, conflicts := VisitPeer(peers[i], now, local, views[..i], tunnelIps, claimed, conflicts);
    }
    assert views[..|peers|] == views;
    var subnets := Unconflicted(claimed, conflicts);
    table := RouteTable(tunnelIps, SortByLength(subnets));
    Assembled(views, now, local, tunnelIps, claimed, conflicts, subnets);
  }

  lemma Assembled(views: seq<RouteView>, now: nat, local: Local, tunnelIps: map<Ipv4, AddressHash>,
                  claimed: map<Cidr, AddressHash>, conflicts: set<Cidr>, subnets: seq<Claim>)
    requires Progress(views, now, local, tunnelIps, claimed, conflicts)
    requires NoRepeats(subnets)
    requires forall c :: c in subnets <==> c.0 in claimed && claimed[c.0] == c.1 && c.0 !in conflicts
    ensures IsTableOf(RouteTable(tunnelIps, SortByLength(subnets)), Elements(views), now, local)
  {
    var claims := Claims(Elements(views), now, local);
    SortByLengthSorts(subnets);
    forall c ensures c in SortByLength(subnets) <==> Survives(claims, local, c) {
      SievedIsSurvival(claims, claimed, conflicts, local, c);
    }
    LastWriterIsOwner(views, local);
  }

  /** The tunnel map holds a true owner for exactly the addresses that have one. */
  lemma {:induction false} LastWriterIsOwner(views: seq<RouteView>, local: Local)
    ensures forall ip, h :: TunnelOwner(Elements(views), local, ip, h) ==> ip in LastWriter(views, local)
    ensures forall ip :: ip in LastWriter(views, local) ==>
              TunnelOwner(Elements(views), local, ip, LastWriter(views, local)[ip])
  {
    if views != [] {
      var front, v := views[..|views| - 1], views[|views| - 1];
      LastWriterIsOwner(front, local);
      assert views == front + [v];
      assert Elements(views) == Elements(front) + {v};
      forall ip, h | TunnelOwner(Elements(views), local, ip, h) ensures ip in LastWriter(views, local) {
        var w :| w in Elements(views) && w.hash == h && w.tunnelIp == ip;
        if w in Elements(front) {
          assert TunnelOwner(Elements(front), local, ip, h);
        }
      }
    }
  }

  // ── Lookup ─────────────────────────────────────────────────────────────────

  function FirstMatch(subnets: seq<Claim>, ip: Ipv4): Option<AddressHash> {
    if subnets == [] then None
    else if Contains(subnets[0].0, ip) then Some(subnets[0].1)
    else FirstMatch(subnets[1..], ip)
  }

  function Lookup(t: RouteTable, ip: Ipv4): Option<AddressHash> {
    if ip in t.tunnelIps then Some(t.tunnelIps[ip]) else FirstMatch(t.subnets, ip)
  }

  /** `RouteTable::resolve`. */
  method Resolve(t: RouteTable, ip: Ipv4) returns (owner: Option<AddressHash>)
    ensures owner == Lookup(t, ip)
  {
    if ip in t.tunnelIps {
      return Some(t.tunnelIps[ip]);
    }
    for i := 0 to |t.subnets|
      invariant FirstMatch(t.subnets, ip) == FirstMatch(t.subnets[i..], ip)
    {
      if Contains(t.subnets[i].0, ip) {
        return Some(t.subnets[i].1);
      }
    }
    owner := None;
  }

  /** `c` is the longest surviving subnet that contains `ip`. */
  ghost predicate Longest(claims: set<Claim>, local: Local, ip: Ipv4, c: Claim) {
    && Survives(claims, local, c) && Contains(c.0, ip)
    && forall d :: Survives(claims, local, d) && Contains(d.0, ip) ==> d.0.len <= c.0.len
  }

  /** There is at most one: equal-length blocks are disjoint and a survivor has one owner. */
  lemma LongestUnique(claims: set<Claim>, local: Local, ip: Ipv4, c: Claim, d: Claim)
    requires Longest(claims, local, ip, c) && Longest(claims, local, ip, d)
    ensures c == d
  {
    EqualLengthDisjoint(c.0, d.0, ip);
    assert (c.0, d.1) in claims;
  }

  lemma {:induction false} FirstMatchAt(subnets: seq<Claim>, ip: Ipv4) returns (at: nat)
    ensures at <= |subnets|
    ensures at < |subnets| ==> Contains(subnets[at].0, ip) && FirstMatch(subnets, ip) == Some(subnets[at].1)
    ensures at == |subnets| ==> FirstMatch(subnets, ip) == None
    ensures forall i :: 0 <= i < at ==> !Contains(subnets[i].0, ip)
  {
    if subnets == [] || Contains(subnets[0].0, ip) {
      at := 0;
    } else {
      var rest := FirstMatchAt(subnets[1..], ip);
      at := rest + 1;
      forall i | 0 <= i < at ensures !Contains(subnets[i].0, ip) {
        assert i > 0 ==> subnets[i] == subnets[1..][i - 1];
      }
    }
  }

  /** Lookup on a built table: the tunnel owner if there is one, else the owner of the
      longest surviving subnet around `ip`, else none (section 5.1 of RFC 4632). */
  lemma LookupIsLongestMatch(t: RouteTable, views: set<RouteView>, now: nat, local: Local, ip: Ipv4)
    requires IsTableOf(t, views, now, local)
    ensures ip in t.tunnelIps <==> exists h :: TunnelOwner(views, local, ip, h)
    ensures ip in t.tunnelIps ==> Lookup(t, ip).Some? && TunnelOwner(views, local, ip, Lookup(t, ip).value)
    ensures ip !in t.tunnelIps ==> forall h ::
              Lookup(t, ip) == Some(h) <==> exists r :: Longest(Claims(views, now, local), local, ip, (r, h))
  {
    if ip !in t.tunnelIps {
      var claims := Claims(views, now, local);
      var at := FirstMatchAt(t.subnets, ip);
      if at < |t.subnets| {
        var c := t.subnets[at];
        assert c in t.subnets;
        forall d | Survives(claims, local, d) && Contains(d.0, ip) ensures d.0.len <= c.0.len {
          var j :| 0 <= j < |t.subnets| && t.subnets[j] == d;
          assert at <= j;
        }
        assert Longest(claims, local, ip, (c.0, c.1));
        forall r, h | Longest(claims, local, ip, (r, h)) ensures h == c.1 {
          LongestUnique(claims, local, ip, (r, h), c);
        }
      } else {
        forall r, h ensures !Longest(claims, local, ip, (r, h)) {
          assert Survives(claims, local, (r, h)) ==> (r, h) in t.subnets;
        }
      }
    }
  }

  /** A second live claimant can withdraw a route but never take it over: no table
      then has the route at all, for either of them. */
  lemma SecondClaimantWithdraws(t: RouteTable, views: set<RouteView>, now: nat, local: Local,
                                v: RouteView, w: RouteView, route: Cidr, owner: AddressHash)
    requires IsTableOf(t, views, now, local)
    requires v in views && w in views && v.hash != w.hash
    requires v.hash != local.hash && w.hash != local.hash && Live(v, now) && Live(w, now)
    requires route in v.routes && route in w.routes
    ensures (route, owner) !in t.subnets
  {
    var claims := Claims(views, now, local);
    assert (route, v.hash) in claims && (route, w.hash) in claims;
  }

  // ── Order independence ─────────────────────────────────────────────────────

  /** No two peers share `ip` as their tunnel address. */
  ghost predicate Unshared(views: set<RouteView>, local: Local, ip: Ipv4) {
    forall h, k :: TunnelOwner(views, local, ip, h) && TunnelOwner(views, local, ip, k) ==> h == k
  }

  /** `t` is a table the source can build from the peers in this order. */
  ghost predicate BuiltFrom(t: RouteTable, views: seq<RouteView>, now: nat, local: Local) {
    IsTableOf(t, Elements(views), now, local) && t.tunnelIps == LastWriter(views, local)
  }

  /** Tables of the same peers agree on every unshared address, however the peers, the
      hash maps and the ties of the sort were ordered. */
  lemma SameAnswer(t: RouteTable, u: RouteTable, views: set<RouteView>, now: nat, local: Local, ip: Ipv4)
    requires IsTableOf(t, views, now, local) && IsTableOf(u, views, now, local)
    requires Unshared(views, local, ip)
    ensures Lookup(t, ip) == Lookup(u, ip)
  {
    LookupIsLongestMatch(t, views, now, local, ip);
    LookupIsLongestMatch(u, views, now, local, ip);
    if ip !in t.tunnelIps && Lookup(t, ip).Some? {
      assert Lookup(u, ip) == Some(Lookup(t, ip).value);
    }
    if ip !in t.tunnelIps && Lookup(u, ip).Some? {
      assert Lookup(t, ip) == Some(Lookup(u, ip).value);
    }
  }

  ghost predicate OrderFree(views: seq<RouteView>, now: nat, local: Local, ip: Ipv4) {
    forall p, q, t, u ::
      && multiset(p) == multiset(views) && multiset(q) == multiset(views)
      && BuiltFrom(t, p, now, local) && BuiltFrom(u, q, now, local)
      ==> Lookup(t, ip) == Lookup(u, ip)
  }

  /** The answer for `ip` is independent of order exactly when `ip` is unshared. */
  lemma OrderFreeExactly(views: seq<RouteView>, now: nat, local: Local, ip: Ipv4)
    ensures OrderFree(views, now, local, ip) <==> Unshared(Elements(views), local, ip)
  {
    if Unshared(Elements(views), local, ip) {
      forall p, q, t, u |
        && multiset(p) == multiset(views) && multiset(q) == multiset(views)
        && BuiltFrom(t, p, now, local) && BuiltFrom(u, q, now, local)
        ensures Lookup(t, ip) == Lookup(u, ip)
      {
        SameElements(p, views);
        SameElements(q, views);
        SameAnswer(t, u, Elements(views), now, local, ip);
      }
    } else {
      var h, k :| TunnelOwner(Elements(views), local, ip, h) && TunnelOwner(Elements(views), local, ip, k) && h != k;
      var p, t := OrderFavouring(views, now, local, ip, h);
      var q, u := OrderFavouring(views, now, local, ip, k);
    }
  }

  /** Visiting an owner last makes it the answer. */
  lemma OrderFavouring(views: seq<RouteView>, now: nat, local: Local, ip: Ipv4, h: AddressHash)
    returns (p: seq<RouteView>, t: RouteTable)
    requires TunnelOwner(Elements(views), local, ip, h)
    ensures multiset(p) == multiset(views) && BuiltFrom(t, p, now, local)
    ensures Lookup(t, ip) == Some(h)
  {
    var v :| v in Elements(views) && v.hash == h && v.tunnelIp == ip;
    var i :| 0 <= i < |views| && views[i] == v;
    var rest := views[..i] + views[i + 1..];
    assert views == views[..i] + [v] + views[i + 1..];
    p := rest + [v];
    assert p[..|p| - 1] == rest;
    t := TableExists(p, now, local);
  }

  lemma SameElements<T>(p: seq<T>, q: seq<T>)
    requires multiset(p) == multiset(q)
    ensures Elements(p) == Elements(q)
  {
    forall x ensures x in p <==> x in q {
      assert x in p <==> x in multiset(p);
      assert x in q <==> x in multiset(q);
    }
  }

  lemma TableExists(views: seq<RouteView>, now: nat, local: Local) returns (t: RouteTable)
    ensures BuiltFrom(t, views, now, local)
  {
    var claims := Claims(Elements(views), now, local);
    var subnets := Enumerate(set c | c in claims && Survives(claims, local, c));
    SortByLengthSorts(subnets);
    LastWriterIsOwner(views, local);
    t := RouteTable(LastWriter(views, local), SortByLength(subnets));
  }
}
