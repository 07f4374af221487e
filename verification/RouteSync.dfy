/** One run of `sync_routes`, as a relation between the states around it, and what a
    completed run guarantees. */
module RouteSync {
  import opened Cidrs
  import opened Peers
  import opened Routing
  import opened Translations
  import opened Platform

  /** `conflicting_local_routes`. */
  function ConflictingLocalRoutes(ts: seq<Translation>, subnets: seq<Claim>): set<Cidr> {
    set c | c in subnets && exists t :: t in ts && (RoutesOverlap(c.0, t.local) || RoutesOverlap(c.0, t.exported)) :: c.0
  }

  function DesiredRoutes(subnets: seq<Claim>, conflicts: set<Cidr>): set<Cidr> {
    set c | c in subnets && c.0 !in conflicts :: c.0
  }

  function TableRoutes(subnets: seq<Claim>): set<Cidr> {
    set c | c in subnets :: c.0
  }

  /** The part of the state that a sync reads or writes. */
  datatype SyncState = SyncState(installed: set<Cidr>, conflicted: set<Cidr>, kernel: KernelView)

  datatype Plan = Plan(desired: set<Cidr>, conflicts: set<Cidr>, translations: seq<Translation>)

  function PlanOf(subnets: seq<Claim>, translations: seq<Translation>): Plan {
    var conflicts := ConflictingLocalRoutes(translations, subnets);
    Plan(DesiredRoutes(subnets, conflicts), conflicts, translations)
  }

  /** The routes a sync tries to delete: installed before, not wanted now. */
  function Stale(plan: Plan, before: SyncState): set<Cidr> {
    before.installed - plan.desired
  }

  /** A completed sync rebuilds the chains if there is an iptables and leaves them alone if
      there is none; a failing command can leave them on the way. */
  ghost predicate ChainsMoved(plan: Plan, k: KernelView, k': KernelView, completed: bool) {
    if !completed then RulesHalted(k, k', plan.translations)
    else if k.iptables then
      var active := Active(plan.translations);
      k'.pre == PreRules(active) && k'.post == PostRules(active) && k'.mss
    else k'.pre == k.pre && k'.post == k.post && k'.mss == k.mss
  }

  /** The commands of a complete sync. */
  function CommandCount(plan: Plan, before: SyncState): nat {
    |Stale(plan, before)| + |plan.desired| + RuleCommands(before.kernel, plan.translations)
  }

  /** A sync that completes runs all its commands; any other one stops at a command that
      the environment lets fail. */
  ghost predicate CommandsRun(plan: Plan, before: SyncState, after: SyncState, completed: bool) {
    var k, k' := before.kernel, after.kernel;
    && Ran(k, k') && k'.commands <= k.commands + CommandCount(plan, before)
    && (completed ==> k'.commands == k.commands + CommandCount(plan, before))
    && (!completed ==> k.commands < k'.commands && k'.commands - 1 in k.faults)
  }

  ghost predicate KernelMoved(plan: Plan, before: SyncState, after: SyncState, completed: bool) {
    && CommandsRun(plan, before, after, completed)
    // nothing that is still wanted, or was never installed, is deleted
    && before.kernel.routes - Stale(plan, before) <= after.kernel.routes
    // nothing that is not wanted is added
    && after.kernel.routes <= before.kernel.routes + plan.desired
    && (completed ==> plan.desired <= after.kernel.routes)
    && ChainsMoved(plan, before.kernel, after.kernel, completed)
    && (after.kernel.failures == before.kernel.failures ==>
          completed && after.kernel.routes == before.kernel.routes - Stale(plan, before) + plan.desired)
  }

  /** Any run of `sync_routes`, with or without failing commands. */
  ghost predicate Synced(plan: Plan, hasInterface: bool, before: SyncState, after: SyncState, completed: bool) {
    && (completed ==> after.installed == plan.desired && after.conflicted == plan.conflicts)
    && (!completed ==> after.installed == before.installed && after.conflicted == before.conflicted
                       && before.kernel.failures < after.kernel.failures)
    && (hasInterface ==> KernelMoved(plan, before, after, completed))
    && (!hasInterface ==> completed && after.kernel == before.kernel)
  }

  ghost predicate NoSharedAddress(a: Cidr, b: Cidr) {
    forall ip: Ipv4 :: !(Contains(a, ip) && Contains(b, ip))
  }

  /** A completed sync splits the table's subnets into installed and conflicted. No
      installed subnet shares an address with a local LAN or its alias or covers our
      tunnel IP; every conflicted one does share an address with a LAN or an alias. */
  lemma CompletedSyncSeparates(t: RouteTable, views: set<RouteView>, builtAt: nat, local: Local, ts: seq<Translation>,
                               hasInterface: bool, before: SyncState, after: SyncState)
    requires IsTableOf(t, views, builtAt, local)
    requires Synced(PlanOf(t.subnets, ts), hasInterface, before, after, true)
    ensures after.installed + after.conflicted == TableRoutes(t.subnets) && after.installed !! after.conflicted
    ensures forall r, x :: r in after.installed && x in ts ==> NoSharedAddress(r, x.local) && NoSharedAddress(r, x.exported)
    ensures forall r :: r in after.installed ==> !Contains(r, local.tunnelIp)
    ensures forall r :: r in after.conflicted ==>
              exists x :: x in ts && !(NoSharedAddress(r, x.local) && NoSharedAddress(r, x.exported))
  {
    var conflicts := ConflictingLocalRoutes(ts, t.subnets);
    forall r | r in TableRoutes(t.subnets) ensures r in after.installed + after.conflicted {
      var c :| c in t.subnets && c.0 == r;
      assert r in conflicts || r in DesiredRoutes(t.subnets, conflicts);
    }
    forall r, x | r in after.installed && x in ts
      ensures NoSharedAddress(r, x.local) && NoSharedAddress(r, x.exported)
    {
      var c :| c in t.subnets && c.0 == r;
      OverlapIsSharedAddress(r, x.local);
      OverlapIsSharedAddress(r, x.exported);
    }
    forall r | r in after.conflicted
      ensures exists x :: x in ts && !(NoSharedAddress(r, x.local) && NoSharedAddress(r, x.exported))
    {
      var x :| x in ts && (RoutesOverlap(r, x.local) || RoutesOverlap(r, x.exported));
      OverlapIsSharedAddress(r, x.local);
      OverlapIsSharedAddress(r, x.exported);
    }
  }

  /** After a sync in which nothing fails, kernel and bookkeeping agree exactly when the
      kernel held no route beyond the installed and the desired ones. */
  lemma AgreementExactly(plan: Plan, before: SyncState, after: SyncState, completed: bool)
    requires Synced(plan, true, before, after, completed)
    requires after.kernel.failures == before.kernel.failures
    ensures after.kernel.routes == after.installed <==> before.kernel.routes <= before.installed + plan.desired
  {
    var old', new' := before.kernel.routes, after.kernel.routes;
    assert new' == old' - Stale(plan, before) + plan.desired;
    if new' == plan.desired {
      forall r | r in old' ensures r in before.installed + plan.desired {
        assert r in Stale(plan, before) || r in new';
      }
    }
  }
}
