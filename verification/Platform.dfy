/** The kernel side: routes on the tunnel interface and the NETMAP chains.

    Which commands fail is up to the environment: `faults` holds the numbers of the commands
    that will, `commands` counts those run so far and `failures` those that failed. */
module Platform {
  import opened Cidrs
  import opened Translations

  datatype KernelView = KernelView(
    routes: set<Cidr>,
    pre: seq<Rule>,
    post: seq<Rule>,
    mss: bool,
    /** Whether the environment has an iptables with NETMAP. */
    iptables: bool,
    faults: iset<nat>,
    commands: nat,
    failures: nat)

  function FreshKernel(iptables: bool, faults: iset<nat>): KernelView {
    KernelView({}, [], [], false, iptables, faults, 0, 0)
  }

  /** One of the commands between the two states fails. */
  ghost predicate Faulted(k: KernelView, k': KernelView) {
    exists i: nat :: k.commands <= i < k'.commands && i in k.faults
  }

  /** Commands were run, and exactly those that the environment picked have failed. */
  ghost predicate Ran(k: KernelView, k': KernelView) {
    && k'.faults == k.faults && k'.iptables == k.iptables
    && k.commands <= k'.commands && k.failures <= k'.failures
    && (k'.failures == k.failures <==> !Faulted(k, k'))
  }

  lemma RanOn(k: KernelView, k': KernelView, k'': KernelView)
    requires Ran(k, k') && Ran(k', k'')
    ensures Ran(k, k'')
  {
    assert Faulted(k, k'') <==> Faulted(k, k') || Faulted(k', k'');
  }

  /** `replace_route`: on failure the route may or may not be there. */
  ghost predicate Replaced(k: KernelView, k': KernelView, route: Cidr, ok: bool) {
    && ok == (k.commands !in k.faults)
    && (if ok then k' == k.(routes := k.routes + {route}, commands := k.commands + 1)
        else k' == k.(failures := k.failures + 1, commands := k.commands + 1, routes := k'.routes)
             && (k'.routes == k.routes || k'.routes == k.routes + {route}))
  }

  /** `delete_route` ignores its result. */
  ghost predicate Deleted(k: KernelView, k': KernelView, route: Cidr) {
    if k.commands !in k.faults then k' == k.(routes := k.routes - {route}, commands := k.commands + 1)
    else k' == k.(failures := k.failures + 1, commands := k.commands + 1)
  }

  /** The rule sync stopped before it touched a chain, after it flushed PREROUTING, or on
      its way through the rule pairs of the translations. */
  ghost predicate RulesHalted(k: KernelView, k': KernelView, ts: seq<Translation>) {
    || (k'.pre == k.pre && k'.post == k.post && k'.mss == k.mss)
    || (k'.pre == [] && k'.post == k.post && k'.mss == k.mss)
    || exists n: nat, m: nat :: HaltedAt(k', Active(ts), n, m)
  }

  /** `n` PREROUTING and `m` POSTROUTING rules are in place; the TCP rule comes first. */
  ghost predicate HaltedAt(k: KernelView, active: seq<Translation>, n: nat, m: nat) {
    m <= n <= m + 1 && n <= |active| && k.pre == PreRules(active[..n]) && k.post == PostRules(active[..m])
    && (n > 0 ==> k.mss)
  }

  /** The commands of a complete rule sync: three flushes, the TCP rule, and the pairs. */
  function RuleCommands(k: KernelView, ts: seq<Translation>): nat {
    if k.iptables then 4 + 2 * |Active(ts)| else 0
  }

  /** A step of commands that stops at the first one that fails, after at most `count`. */
  ghost predicate StopsAtFault(k: KernelView, k': KernelView, count: nat, ok: bool) {
    && Ran(k, k') && k'.routes == k.routes
    && (ok ==> k'.commands == k.commands + count && k'.failures == k.failures)
    && (!ok ==> k.commands < k'.commands <= k.commands + count && k'.commands - 1 in k.faults && k'.failures == k.failures + 1)
  }

  /** `sync_route_translations`: without iptables nothing changes; with it, exactly the
      rules of the translations are installed unless a command fails. */
  ghost predicate RulesSynced(k: KernelView, k': KernelView, ts: seq<Translation>, ok: bool) {
    && StopsAtFault(k, k', RuleCommands(k, ts), ok)
    && (!k.iptables ==> ok && k' == k)
    && (k.iptables && ok ==> k'.pre == PreRules(Active(ts)) && k'.post == PostRules(Active(ts)) && k'.mss)
    && (!ok ==> RulesHalted(k, k', ts))
  }

  lemma StopsLater(k: KernelView, k': KernelView, k'': KernelView, m: nat, n: nat, ok: bool)
    requires StopsAtFault(k, k', m, true) && StopsAtFault(k', k'', n, ok)
    ensures StopsAtFault(k, k'', m + n, ok)
  {
    RanOn(k, k', k'');
  }

  /** The chains before the pair of translation `i`, and between its two rules. */
  lemma HaltedPair(k: KernelView, ts: seq<Translation>, i: nat)
    requires i < |ts| && ts[i].local != ts[i].exported && k.mss
    ensures var before, after := Active(ts[..i]), Active(ts[..i + 1]);
            (k.pre == PreRules(before) || k.pre == PreRules(after)) && k.post == PostRules(before) ==>
              exists n: nat, m: nat :: HaltedAt(k, Active(ts), n, m)
  {
    ActiveGrows(ts, i);
    var n := |Active(ts[..i])|;
    assert k.pre == PreRules(Active(ts[..i])) && k.post == PostRules(Active(ts[..i])) ==> HaltedAt(k, Active(ts), n, n);
    assert k.pre == PreRules(Active(ts[..i + 1])) && k.post == PostRules(Active(ts[..i])) ==> HaltedAt(k, Active(ts), n + 1, n);
  }

  class Kernel {
    var routes: set<Cidr>
    var pre: seq<Rule>
    var post: seq<Rule>
    var mss: bool
    var iptables: bool
    const faults: iset<nat>
    var commands: nat
    ghost var failures: nat

    constructor (iptables: bool, faults: iset<nat>)
      ensures View() == FreshKernel(iptables, faults)
    {
      routes, pre, post, mss := {}, [], [], false;
      this.iptables, this.faults := iptables, faults;
      commands, failures := 0, 0;
    }

    ghost function View(): KernelView
      reads this
    {
      KernelView(routes, pre, post, mss, iptables, faults, commands, failures)
    }

    /** The environment installs or removes iptables. */
    method SetIptables(present: bool)
      modifies this`iptables
      ensures View() == old(View()).(iptables := present)
    {
      iptables := present;
    }

    /** Run one command. */
    method Run() returns (ok: bool)
      modifies this`commands, this`failures
      ensures ok == (old(commands) !in faults) && commands == old(commands) + 1
      ensures failures == old(failures) + if ok then 0 else 1
    {
      ok := commands !in faults;
      commands := commands + 1;
      if !ok {
        failures := failures + 1;
      }
    }

    method ReplaceRoute(route: Cidr) returns (ok: bool)
      modifies this
      ensures Replaced(old(View()), View(), route, ok)
    {
      ok := Run();
      var applied: bool := *;
      if ok || applied {
        routes := routes + {route};
      }
    }

    method DeleteRoute(route: Cidr)
      modifies this
      ensures Deleted(old(View()), View(), route)
    {
      var ok := Run();
      if ok {
        routes := routes - {route};
      }
    }

    method SyncRouteTranslations(ts: seq<Translation>) returns (ok: bool)
      modifies this
      ensures RulesSynced(old(View()), View(), ts, ok)
    {
      if !iptables {
        return true;
      }
      ghost var k := View();
      ok := FlushChains();
      if !ok {
        assert pre == post == [] ==> HaltedAt(View(), Active(ts), 0, 0);
        return;
      }
      ghost var flushed := View();
      ok := AppendRules(ts);
      StopsLater(k, flushed, View(), 4, 2 * |Active(ts)|, ok);
    }

    /** Chains and jumps, flush of each chain, then the TCP rule. */
    method FlushChains() returns (ok: bool)
      modifies this`pre, this`post, this`mss, this`commands, this`failures
      ensures StopsAtFault(old(View()), View(), 4, ok)
      ensures ok ==> pre == [] && post == [] && mss
      ensures !ok ==> (pre == post == []) || (post == old(post) && mss == old(mss) && (pre == [] || pre == old(pre)))
    {
      ok := Run();
      if !ok {
        return;
      }
      pre := [];
      ok := Run();
      if !ok {
        return;
      }
      post := [];
      ok := Run();
      if !ok {
        return;
      }
      mss := false;
      ok := Run();
      if ok {
        mss := true;
      }
    }

    /** A pair of rules for each translation that changes anything. */
    method AppendRules(ts: seq<Translation>) returns (ok: bool)
      requires pre == post == [] && mss
      modifies this`pre, this`post, this`commands, this`failures
      ensures StopsAtFault(old(View()), View(), 2 * |Active(ts)|, ok)
      ensures ok ==> pre == PreRules(Active(ts)) && post == PostRules(Active(ts))
      ensures !ok ==> exists n: nat, m: nat :: HaltedAt(View(), Active(ts), n, m)
    {
      ok := true;
      for i := 0 to |ts|
        invariant ok && StopsAtFault(old(View()), View(), 2 * |Active(ts[..i])|, true)
        invariant pre == PreRules(Active(ts[..i])) && post == PostRules(Active(ts[..i]))
      {
        assert ts[..i + 1][..i] == ts[..i];
        if ts[i].local == ts[i].exported {
          continue;
        }
        ghost var k := View();
        ok := AppendPair(ts, i);
        StopsLater(old(View()), k, View(), 2 * |Active(ts[..i])|, 2, ok);
        ActiveGrows(ts, i);
        if !ok {
          return;
        }
      }
      assert ts[..|ts|] == ts;
    }

    method AppendPair(ts: seq<Translation>, i: nat) returns (ok: bool)
      requires i < |ts| && ts[i].local != ts[i].exported && mss
      requires pre == PreRules(Active(ts[..i])) && post == PostRules(Active(ts[..i]))
      modifies this`pre, this`post, this`commands, this`failures
      ensures StopsAtFault(old(View()), View(), 2, ok)
      ensures ok ==> pre == PreRules(Active(ts[..i + 1])) && post == PostRules(Active(ts[..i + 1]))
      ensures !ok ==> exists n: nat, m: nat :: HaltedAt(View(), Active(ts), n, m)
    {
      ghost var k := View();
      ActiveGrows(ts, i);
      ok := AppendPre(Rule(ts[i].exported, ts[i].local));
      if ok {
        ghost var between := View();
        ok := AppendPost(Rule(ts[i].local, ts[i].exported));
        StopsLater(k, between, View(), 1, 1, ok);
      }
      HaltedPair(View(), ts, i);
    }

    method AppendPre(rule: Rule) returns (ok: bool)
      modifies this`pre, this`commands, this`failures
      ensures StopsAtFault(old(View()), View(), 1, ok)
      ensures pre == old(pre) + if ok then [rule] else []
    {
      ok := Run();
      if ok {
        pre := pre + [rule];
      }
    }

    method AppendPost(rule: Rule) returns (ok: bool)
      modifies this`post, this`commands, this`failures
      ensures StopsAtFault(old(View()), View(), 1, ok)
      ensures post == old(post) + if ok then [rule] else []
    {
      ok := Run();
      if ok {
        post := post + [rule];
      }
    }
  }
}
