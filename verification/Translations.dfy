/** Local route translations and the NETMAP rules made from them.

    A rule rewrites an address of one block to the same host number in another block
    of the same length. PREROUTING rules turn an alias into the local LAN, POSTROUTING
    rules turn the LAN into its alias; in each chain the first matching rule wins. */
module Translations {
  import opened Common
  import opened Cidrs
  import opened Addressing

  datatype Translation = Translation(local: Cidr, exported: Cidr)

  datatype Rule = Rule(matches: Cidr, to: Cidr)

  // ── Local routes ───────────────────────────────────────────────────────────

  /** `merge_routes`: the union without repeats. The order of the source's tree set is
      that of the address library; nothing below depends on it. */
  method MergeRoutes(discovered: seq<Cidr>, advertised: seq<Cidr>) returns (merged: seq<Cidr>)
    ensures NoRepeats(merged)
    ensures forall r :: r in merged <==> r in discovered || r in advertised
  {
    var both := discovered + advertised;
    merged := [];
    for i := 0 to |both|
      invariant NoRepeats(merged)
      invariant forall r :: r in merged <==> r in both[..i]
    {
      if both[i] !in merged {
        merged := merged + [both[i]];
      }
    }
    assert both[..|both|] == both;
  }

  /** `local_route_translations`. */
  function LocalTranslations(routes: seq<Cidr>, destination: AddressHash, aliasing: bool): (ts: seq<Translation>)
    ensures |ts| == |routes|
    ensures forall i :: 0 <= i < |ts| ==>
      ts[i] == Translation(routes[i], if aliasing then ExportedRoute(destination, routes[i]) else routes[i])
  {
    seq(|routes|, i requires 0 <= i < |routes| =>
      Translation(routes[i], if aliasing then ExportedRoute(destination, routes[i]) else routes[i]))
  }

  // ── Rules ──────────────────────────────────────────────────────────────────

  /** The translations that get rules: those that change anything. */
  function Active(ts: seq<Translation>): (active: seq<Translation>)
    ensures forall t :: t in active <==> t in ts && t.local != t.exported
  {
    if ts == [] then []
    else
      var front, t := Active(ts[..|ts| - 1]), ts[|ts| - 1];
      assert ts == ts[..|ts| - 1] + [t];
      if t.local == t.exported then front else front + [t]
  }

  function PreRules(active: seq<Translation>): (rules: seq<Rule>)
    ensures |rules| == |active|
    ensures forall i :: 0 <= i < |rules| ==> rules[i] == Rule(active[i].exported, active[i].local)
  {
    seq(|active|, i requires 0 <= i < |active| => Rule(active[i].exported, active[i].local))
  }

  function PostRules(active: seq<Translation>): (rules: seq<Rule>)
    ensures |rules| == |active|
    ensures forall i :: 0 <= i < |rules| ==> rules[i] == Rule(active[i].local, active[i].exported)
  {
    seq(|active|, i requires 0 <= i < |active| => Rule(active[i].local, active[i].exported))
  }

  /** The NETMAP target: network bits of `to`, host bits of `ip`. */
  function Netmap(to: Cidr, ip: Ipv4): Ipv4 {
    var size := Pow2(32 - to.len);
    HostFits(to, ip);
    to.base + ip % size
  }

  /** One pass through a chain: the first matching rule rewrites, later ones never run. */
  function Rewrite(rules: seq<Rule>, ip: Ipv4): Ipv4 {
    if rules == [] then ip
    else if Contains(rules[0].matches, ip) then Netmap(rules[0].to, ip)
    else Rewrite(rules[1..], ip)
  }

  // ── Proofs ─────────────────────────────────────────────────────────────────

  lemma HostFits(to: Cidr, ip: Ipv4)
    ensures var size := Pow2(32 - to.len); 0 <= ip % size < size && to.base + size <= ADDRESS_SPACE
  {
    BlockFits(to);
  }

  /** A rewritten address lies in the target and keeps its host bits; mapping it back
      into the block it came from gives it back. */
  lemma NetmapInverts(block: Cidr, to: Cidr, ip: Ipv4)
    requires block.len == to.len && Contains(block, ip)
    ensures Contains(to, Netmap(to, ip))
    ensures Netmap(to, ip) % Pow2(32 - to.len) == ip % Pow2(32 - to.len)
    ensures Netmap(block, Netmap(to, ip)) == ip
  {
    var size := Pow2(32 - to.len);
    var p, q := Prefix(block.base, block.len), Prefix(to.base, to.len);
    BlockFits(to);
    BlockFits(block);
    SwapBase(p, q, size, ip);
    assert Netmap(to, ip) == q * size + ip % size;
    assert Netmap(block, Netmap(to, ip)) == p * size + Netmap(to, ip) % size;
  }

  lemma SwapBase(p: int, q: int, size: int, ip: int)
    requires size > 0 && ip / size == p
    ensures var mapped := q * size + ip % size;
            mapped / size == q && mapped % size == ip % size && p * size + mapped % size == ip
  {
    var host := ip % size;
    assert ip == p * size + host;
    assert (q + 1) * size == q * size + size;
    DivUnique(q * size + host, size, q);
    SmallMod(host, size);
    ModShift(host, q, size);
  }

  lemma {:induction false} RewriteAt(rules: seq<Rule>, ip: Ipv4, k: nat)
    requires k < |rules| && Contains(rules[k].matches, ip)
    requires forall j :: 0 <= j < k ==> !Contains(rules[j].matches, ip)
    ensures Rewrite(rules, ip) == Netmap(rules[k].to, ip)
  {
    if k > 0 {
      assert rules[1..][k - 1] == rules[k];
      assert forall j :: 0 <= j < k - 1 ==> rules[1..][j] == rules[j + 1];
      RewriteAt(rules[1..], ip, k - 1);
    }
  }

  /** The first rule that matches, if any does. */
  lemma FirstRule(rules: seq<Rule>, ip: Ipv4, some: nat) returns (k: nat)
    requires some < |rules| && Contains(rules[some].matches, ip)
    ensures k <= some && Contains(rules[k].matches, ip)
    ensures forall j :: 0 <= j < k ==> !Contains(rules[j].matches, ip)
  {
    k := 0;
    while !Contains(rules[k].matches, ip)
      invariant k <= some
      invariant forall j :: 0 <= j < k ==> !Contains(rules[j].matches, ip)
      decreases some - k
    {
      k := k + 1;
    }
  }

  lemma {:induction false} ActiveInOrder(ts: seq<Translation>)
    requires forall i, j :: 0 <= i < j < |ts| ==> ts[i].local != ts[j].local
    ensures forall i, j :: 0 <= i < j < |Active(ts)| ==> Active(ts)[i].local != Active(ts)[j].local
  {
    if ts != [] {
      var front, t := ts[..|ts| - 1], ts[|ts| - 1];
      ActiveInOrder(front);
      assert ts == front + [t];
      forall u | u in Active(front) ensures u.local != t.local {
        assert u in front;
      }
    }
  }

  /** Rules exist only for distinct /24 LANs, each with a /24 alias of the pool that is
      disjoint from it. */
  lemma RulesOnlyForLans(routes: seq<Cidr>, destination: AddressHash, aliasing: bool)
    requires NoRepeats(routes)
    ensures var active := Active(LocalTranslations(routes, destination, aliasing));
            && (forall t :: t in active <==>
                  aliasing && t.local in routes && t.local.len == 24 && t.exported == ExportedRoute(destination, t.local))
            && (forall t :: t in active ==> t.exported.len == 24 && !RoutesOverlap(t.exported, t.local))
            && (forall i, j :: 0 <= i < j < |active| ==> active[i].local != active[j].local)
  {
    var ts := LocalTranslations(routes, destination, aliasing);
    ActiveInOrder(ts);
    forall t ensures t in Active(ts) <==>
      aliasing && t.local in routes && t.local.len == 24 && t.exported == ExportedRoute(destination, t.local)
    {
      ActiveExactly(routes, destination, aliasing, t);
    }
    forall t | t in Active(ts) ensures t.exported.len == 24 && !RoutesOverlap(t.exported, t.local) {
      AliasDiffers(destination, t.local);
    }
  }

  lemma AliasDiffers(destination: AddressHash, route: Cidr)
    requires route.len == 24
    ensures ExportedRoute(destination, route) != route
    ensures !RoutesOverlap(ExportedRoute(destination, route), route)
  {
    AliasApart(destination, route);
    OverlapIsSharedAddress(route, route);
    BaseIsContained(route);
  }

  lemma ActiveExactly(routes: seq<Cidr>, destination: AddressHash, aliasing: bool, t: Translation)
    ensures t in Active(LocalTranslations(routes, destination, aliasing)) <==>
      aliasing && t.local in routes && t.local.len == 24 && t.exported == ExportedRoute(destination, t.local)
  {
    var ts := LocalTranslations(routes, destination, aliasing);
    if t in ts && t.local != t.exported {
      var i :| 0 <= i < |ts| && ts[i] == t;
      assert t.local == routes[i];
    }
    if aliasing && t.local in routes && t.local.len == 24 && t.exported == ExportedRoute(destination, t.local) {
      var i :| 0 <= i < |routes| && routes[i] == t.local;
      assert ts[i] == t;
      AliasDiffers(destination, t.local);
    }
  }

  /** `Active` keeps the order: what stands before a translation comes from before it. */
  lemma {:induction false} ActivePosition(ts: seq<Translation>, k: nat) returns (a: nat)
    requires k < |ts| && ts[k].local != ts[k].exported
    ensures a < |Active(ts)| && Active(ts)[a] == ts[k]
    ensures forall t :: t in Active(ts)[..a] <==> t in ts[..k] && t.local != t.exported
  {
    var front := ts[..|ts| - 1];
    assert ts == front + [ts[|ts| - 1]];
    if k == |ts| - 1 {
      a := |Active(front)|;
      assert Active(ts)[..a] == Active(front) && ts[..k] == front;
    } else {
      a := ActivePosition(front, k);
      assert Active(ts)[..a] == Active(front)[..a] && ts[..k] == front[..k];
    }
  }

  /** Aliasing undoes itself, even when aliases collide: an address of the exported alias
      of some local /24, rewritten by the PREROUTING rules and then by the POSTROUTING rules,
      is itself again, and keeps its host octet inside some local /24. This is about the two
      rule lists, applied to a bare address; connection tracking is not part of it. */
  lemma AliasRoundTrip(routes: seq<Cidr>, destination: AddressHash, ip: Ipv4, k: nat)
    requires NoRepeats(routes) && k < |routes| && routes[k].len == 24
    requires Contains(ExportedRoute(destination, routes[k]), ip)
    ensures var active := Active(LocalTranslations(routes, destination, true));
            var inside := Rewrite(PreRules(active), ip);
            && (exists lan :: lan in routes && lan.len == 24 && Contains(lan, inside))
            && inside % 0x100 == ip % 0x100
            && Rewrite(PostRules(active), inside) == ip
  {
    var active := Active(LocalTranslations(routes, destination, true));
    RulesOnlyForLans(routes, destination, true);
    AliasDiffers(destination, routes[k]);
    var some := ActivePosition(LocalTranslations(routes, destination, true), k);
    var first := ThereAndBack(active, |active|, ip, some);
    assert active[..|active|] == active && active[first] in active;
  }

  /** Translations between distinct /24s, whatever their aliases. */
  ghost predicate LansApart(active: seq<Translation>) {
    && (forall t :: t in active ==> t.local.len == 24 && t.exported.len == 24)
    && (forall i, j :: 0 <= i < j < |active| ==> active[i].local != active[j].local)
  }

  /** With all PREROUTING rules and the first `posted` POSTROUTING rules in place, the first
      rule for an address rewrites it, and its partner, if already there, restores it. */
  lemma ThereAndBack(active: seq<Translation>, posted: nat, ip: Ipv4, some: nat) returns (k: nat)
    requires LansApart(active) && posted <= |active|
    requires some < |active| && Contains(active[some].exported, ip)
    ensures var inside := Rewrite(PreRules(active), ip);
            k <= some && Contains(active[k].local, inside) && inside % 0x100 == ip % 0x100
            && Rewrite(PostRules(active[..posted]), inside) == if k < posted then ip else inside
    ensures Contains(active[k].exported, ip)
    ensures forall j :: 0 <= j < k ==> !Contains(active[j].exported, ip)
  {
    k := FirstRule(PreRules(active), ip, some);
    RewriteAt(PreRules(active), ip, k);
    var t := active[k];
    assert t in active;
    NetmapInverts(t.exported, t.local, ip);
    HostOctet(t.local);
    var inside := Netmap(t.local, ip);
    OnlyOwnLan(active, k, inside);
    var post := PostRules(active[..posted]);
    if k < posted {
      RewriteAt(post, inside, k);
    } else {
      RewriteNone(post, inside);
    }
    assert forall j :: 0 <= j < k ==> PreRules(active)[j].matches == active[j].exported;
  }

  lemma {:induction false} RewriteNone(rules: seq<Rule>, ip: Ipv4)
    requires forall j :: 0 <= j < |rules| ==> !Contains(rules[j].matches, ip)
    ensures Rewrite(rules, ip) == ip
  {
    if rules != [] {
      assert forall j :: 0 <= j < |rules| - 1 ==> rules[1..][j] == rules[j + 1];
      RewriteNone(rules[1..], ip);
    }
  }

  /** Every address that some PREROUTING rule rewrites is restored. */
  ghost predicate Undoes(pre: seq<Rule>, post: seq<Rule>) {
    forall i, ip: Ipv4 :: 0 <= i < |pre| && Contains(pre[i].matches, ip) ==> Rewrite(post, Rewrite(pre, ip)) == ip
  }

  /** Rules whose last alias occurred before. */
  predicate LastAliasRepeats(pre: seq<Rule>) {
    exists i :: 0 <= i < |pre| - 1 && pre[i].matches == pre[|pre| - 1].matches
  }

  /** When the appending of rule pairs stops after `n` PREROUTING and `m` POSTROUTING rules,
      the chains undo each other exactly when the last PREROUTING rule has its partner, or
      never applies because an earlier one has the same alias. */
  lemma UndoesExactly(active: seq<Translation>, n: nat, m: nat)
    requires LansApart(active) && m <= n <= m + 1 && n <= |active|
    requires forall t :: t in active ==> !RoutesOverlap(t.exported, t.local)
    ensures var pre, post := PreRules(active[..n]), PostRules(active[..m]);
            Undoes(pre, post) <==> n == m || LastAliasRepeats(pre)
  {
    var some := active[..n];
    var pre, post := PreRules(some), PostRules(active[..m]);
    assert some[..m] == active[..m];
    forall i, ip: Ipv4 | 0 <= i < n && Contains(pre[i].matches, ip) && (n == m || LastAliasRepeats(pre))
      ensures Rewrite(post, Rewrite(pre, ip)) == ip
    {
      var k := ThereAndBack(some, m, ip, i);
      assert forall j :: 0 <= j < n ==> pre[j].matches == some[j].exported;
    }
    if m < n && !LastAliasRepeats(pre) {
      LastRuleStays(some, m);
    }
  }

  /** The last rule has no partner and its alias is new: its base address is not restored. */
  lemma LastRuleStays(active: seq<Translation>, m: nat)
    requires LansApart(active) && |active| == m + 1 && !LastAliasRepeats(PreRules(active))
    requires forall t :: t in active ==> !RoutesOverlap(t.exported, t.local)
    ensures var ip := active[m].exported.base;
            Contains(PreRules(active)[m].matches, ip)
            && Rewrite(PostRules(active[..m]), Rewrite(PreRules(active), ip)) != ip
  {
    var t := active[m];
    var ip := t.exported.base;
    assert t in active;
    BaseIsContained(t.exported);
    var k := ThereAndBack(active, m, ip, m);
    assert active[k] in active;
    EqualLengthDisjoint(active[k].exported, t.exported, ip);
    assert forall i :: 0 <= i <= m ==> PreRules(active)[i].matches == active[i].exported;
    OverlapIsSharedAddress(t.exported, t.local);
  }

  /** What is active among the first `i` translations comes first. */
  lemma {:induction false} ActivePrefix(ts: seq<Translation>, i: nat)
    requires i <= |ts|
    ensures var n := |Active(ts[..i])|; n <= |Active(ts)| && Active(ts)[..n] == Active(ts[..i])
  {
    if i < |ts| {
      var front := ts[..|ts| - 1];
      ActivePrefix(front, i);
      assert front[..i] == ts[..i];
    } else {
      assert ts[..i] == ts;
    }
  }

  /** One more active translation, and the pair of rules it adds. */
  lemma ActiveGrows(ts: seq<Translation>, i: nat)
    requires i < |ts| && ts[i].local != ts[i].exported
    ensures var before, after := Active(ts[..i]), Active(ts[..i + 1]);
            && |before| < |Active(ts)| && before == Active(ts)[..|before|] && after == Active(ts)[..|before| + 1]
            && PreRules(after) == PreRules(before) + [Rule(ts[i].exported, ts[i].local)]
            && PostRules(after) == PostRules(before) + [Rule(ts[i].local, ts[i].exported)]
  {
    assert ts[..i + 1][..i] == ts[..i];
    ActivePrefix(ts, i);
    ActivePrefix(ts, i + 1);
  }

  lemma HostOctet(c: Cidr)
    requires c.len == 24
    ensures Pow2(32 - c.len) == 0x100
  {
    Pow2Values();
  }

  /** Distinct /24s are disjoint, so one POSTROUTING rule at most can match. */
  lemma OnlyOwnLan(active: seq<Translation>, k: nat, ip: Ipv4)
    requires LansApart(active) && k < |active| && Contains(active[k].local, ip)
    ensures forall j :: 0 <= j < |active| && j != k ==> !Contains(active[j].local, ip)
  {
    forall j | 0 <= j < |active| && j != k ensures !Contains(active[j].local, ip) {
      assert active[j] in active && active[k] in active;
      if Contains(active[j].local, ip) {
        EqualLengthDisjoint(active[j].local, active[k].local, ip);
        assert false;
      }
    }
  }

  /** The other direction: a LAN address rewritten to its alias comes back to the same
      host exactly when no earlier local /24 has the same alias. */
  lemma LanRoundTripExactly(routes: seq<Cidr>, destination: AddressHash, ip: Ipv4, k: nat)
    requires NoRepeats(routes) && k < |routes| && routes[k].len == 24 && Contains(routes[k], ip)
    ensures var active := Active(LocalTranslations(routes, destination, true));
            Rewrite(PreRules(active), Rewrite(PostRules(active), ip)) == ip
            <==> forall lan :: lan in routes[..k] && lan.len == 24 ==>
                   ExportedRoute(destination, lan) != ExportedRoute(destination, routes[k])
  {
    var ts := LocalTranslations(routes, destination, true);
    var active := Active(ts);
    RulesOnlyForLans(routes, destination, true);
    AliasDiffers(destination, routes[k]);
    var a := ActivePosition(ts, k);
    BackAndThereExactly(active, ip, a);
    assert ts[..k] == LocalTranslations(routes[..k], destination, true);
    forall lan | lan in routes[..k] && lan.len == 24
      ensures Translation(lan, ExportedRoute(destination, lan)) in active[..a]
    {
      ActiveExactly(routes[..k], destination, true, Translation(lan, ExportedRoute(destination, lan)));
    }
    forall t | t in active[..a]
      ensures t.local in routes[..k] && t.local.len == 24 && t.exported == ExportedRoute(destination, t.local)
    {
      ActiveExactly(routes[..k], destination, true, t);
    }
  }

  lemma BackAndThereExactly(active: seq<Translation>, ip: Ipv4, k: nat)
    requires LansApart(active) && k < |active| && Contains(active[k].local, ip)
    ensures Rewrite(PreRules(active), Rewrite(PostRules(active), ip)) == ip
            <==> forall t :: t in active[..k] ==> t.exported != active[k].exported
  {
    var t := active[k];
    assert t in active;
    OnlyOwnLan(active, k, ip);
    RewriteAt(PostRules(active), ip, k);
    NetmapInverts(t.local, t.exported, ip);
    var outside := Netmap(t.exported, ip);
    var first := FirstRule(PreRules(active), outside, k);
    RewriteAt(PreRules(active), outside, first);
    var u := active[first];
    assert u in active;
    EqualLengthDisjoint(u.exported, t.exported, outside);
    NetmapInverts(u.exported, u.local, outside);
    if first < k {
      OnlyOwnLan(active, first, Netmap(u.local, outside));
      assert active[..k][first] == u;
    }
    forall j | 0 <= j < first ensures active[j].exported != t.exported {
      assert !Contains(PreRules(active)[j].matches, outside);
    }
  }
}
