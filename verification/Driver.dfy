/** The runtime object handles any sequence of events, and what it does is a run of the
    state machine. So every theorem about runs holds of the object. */
module Driver {
  import opened Cidrs
  import opened VpnModel
  import opened VpnRuns
  import opened Runtime

  /** Call the handler of an event. */
  method Handle(runtime: VpnRuntime, e: Event, now: nat)
    requires runtime.Valid()
    modifies runtime, runtime.registry, runtime.registry.peers.Values, runtime.kernel
    ensures runtime.Valid() && Step(runtime.cfg, old(runtime.State()), e, now, runtime.State())
    ensures fresh(runtime.registry.peers.Values - old(runtime.registry.peers.Values))
  {
    match e {
      case Announce(hash, routes) =>
        var accepted := runtime.HandlePeerAnnounce(hash, routes, now);
      case Control(hash, routes) =>
        runtime.HandleControl(hash, routes, now);
      case ReplacePolicy(allowAll, parsed) =>
        var ok := runtime.ReplacePeerPolicy(allowAll, parsed, now);
      case WatchdogTick =>
        runtime.WatchdogExpire(now);
      case ReplaceAdvertised(discovered, routes) =>
        runtime.ReplaceAdvertisedRoutes(discovered, routes);
      case RefreshLocal(discovered) =>
        runtime.RefreshLocalRoutes(discovered);
      case IptablesChange(present) =>
        runtime.kernel.SetIptables(present);
    }
  }

  /** Start the runtime, then let it handle the events one after the other. */
  method Drive(cfg: Config, start: StartConfig, discovered: seq<Cidr>, startAt: nat, events: seq<TimedEvent>)
    returns (runtime: VpnRuntime, ghost r: Run)
    requires forall i :: 0 <= i < |events| ==> startAt <= events[i].now
    requires forall i, j :: 0 <= i <= j < |events| ==> events[i].now <= events[j].now
    ensures fresh(runtime) && runtime.Valid()
    ensures IsRun(r) && r.cfg == cfg && r.start == start && r.discovered == discovered && r.startAt == startAt
    ensures r.events == events && runtime.State() == LastState(r)
  {
    runtime := new VpnRuntime(cfg, start, discovered, startAt);
    r := Run(cfg, start, discovered, startAt, [runtime.State()], []);
    for i := 0 to |events|
      invariant fresh(runtime) && fresh(runtime.registry) && fresh(runtime.kernel) && fresh(runtime.registry.peers.Values)
      invariant runtime.Valid() && runtime.cfg == cfg
      invariant IsRun(r) && r == Run(cfg, start, discovered, startAt, r.states, events[..i])
      invariant runtime.State() == LastState(r)
    {
      Handle(runtime, events[i].event, events[i].now);
      r := Extend(r, events[i].event, events[i].now, runtime.State());
      assert events[..i + 1] == events[..i] + [events[i]];
    }
    assert events[..|events|] == events;
  }
}
