/** Flooding of diagnostic commands over the mesh.

    Every node runs the diagnostic state of `Diagnostics`. A local request applies a new
    command and sends it to every in-link; a received payload is parsed, and a command
    that is new to the node is applied and sent on. Packets may be delayed, reordered
    and lost, and any number of other commands may be on their way. */
module Mesh {
  import opened Common
  import opened Commands
  import opened Diagnostics

  type Node = nat

  /** `links[n]` lists the receivers of what `n` sends to its in-links, link by link. */
  datatype Graph = Graph(nodes: seq<Node>, links: map<Node, seq<Node>>)

  ghost predicate ValidGraph(g: Graph) {
    && NoRepeats(g.nodes)
    && (forall n :: n in g.nodes <==> n in g.links)
    && (forall n, d :: n in g.links && d in g.links[n] ==> d in g.links)
  }

  datatype Packet = Packet(dst: Node, payload: seq<Byte>)

  /** One operation log per node, and the packets under way. */
  datatype Net = Net(logs: map<Node, seq<Op>>, flight: seq<Packet>)

  datatype Step =
    | Originate(node: Node, command: Command, now: Time)
    | Deliver(index: nat, now: Time)
    | Lose(index: nat)
    | Local(node: Node, op: Op)

  function Broadcast(receivers: seq<Node>, payload: seq<Byte>): (ps: seq<Packet>)
    ensures |ps| == |receivers|
    ensures forall i :: 0 <= i < |ps| ==> ps[i] == Packet(receivers[i], payload)
  {
    seq(|receivers|, i requires 0 <= i < |receivers| => Packet(receivers[i], payload))
  }

  function Without<T>(s: seq<T>, i: nat): seq<T>
    requires i < |s|
  {
    s[..i] + s[i + 1..]
  }

  predicate Enabled(g: Graph, net: Net, step: Step) {
    match step
    case Originate(n, c, _) => n in g.links && Constructible(c)
    case Deliver(i, _) => i < |net.flight|
    case Lose(i) => i < |net.flight|
    case Local(n, op) => n in g.links && !op.Apply?
  }

  ghost predicate ValidNet(g: Graph, net: Net) {
    net.logs.Keys == g.links.Keys && forall p :: p in net.flight ==> p.dst in g.links
  }

  /** The relay step at `n` for a parsed command. */
  ghost function Received(g: Graph, net: Net, n: Node, c: Command, now: Time, maxRecords: nat): Net
    requires n in net.logs && n in g.links
  {
    var isNew := IsNew(After(net.logs[n], maxRecords), c.id, now);
    Net(net.logs[n := net.logs[n] + [Apply(c, now)]],
        net.flight + if isNew then Broadcast(g.links[n], EncodeCommand(c)) else [])
  }

  ghost function Next(g: Graph, net: Net, step: Step, maxRecords: nat): Net
    requires ValidNet(g, net) && Enabled(g, net, step)
  {
    match step
    case Originate(n, c, now) =>
      Net(net.logs[n := net.logs[n] + [Apply(c, now)]], net.flight + Broadcast(g.links[n], EncodeCommand(c)))
    case Deliver(i, now) =>
      var p, rest := net.flight[i], net.(flight := Without(net.flight, i));
      (match Parse(p.payload)
       case Err(_) => rest
       case Ok(c) => Received(g, rest, p.dst, c, now, maxRecords))
    case Lose(i) => net.(flight := Without(net.flight, i))
    case Local(n, op) => net.(logs := net.logs[n := net.logs[n] + [op]])
  }

  // ── The tasks of one node ──────────────────────────────────────────────────

  /** A payload from a mesh link: what to send to the in-links, if anything. The node's
      log grows as `Received` says. */
  method RelayPayload(state: DiagnosticState, payload: seq<Byte>, now: Time, ghost log: seq<Op>)
    returns (forward: Option<seq<Byte>>)
    requires state.Contents() == After(log, state.maxRecords)
    modifies state
    ensures match Parse(payload)
            case Err(_) => forward == None && state.Contents() == After(log, state.maxRecords)
            case Ok(c) =>
              && state.Contents() == After(log + [Apply(c, now)], state.maxRecords)
              && forward == if IsNew(After(log, state.maxRecords), c.id, now) then Some(EncodeCommand(c)) else None
  {
    match Parse(payload)
    case Err(_) => forward := None;
    case Ok(command) =>
      assert (log + [Apply(command, now)])[..|log|] == log;
      var applied := state.ApplyOnceAt(command, now);
      forward := if applied then Some(EncodeCommand(command)) else None;
  }

  /** A local enable or disable: the command is sent on whatever `apply_once` answers. */
  method OriginateCommand(state: DiagnosticState, command: Command, meshControl: bool, now: Time, ghost log: seq<Op>)
    returns (payload: Option<seq<Byte>>)
    requires state.Contents() == After(log, state.maxRecords)
    modifies state
    ensures state.Contents() == After(log + [Apply(command, now)], state.maxRecords)
    ensures payload == if meshControl then Some(EncodeCommand(command)) else None
  {
    assert (log + [Apply(command, now)])[..|log|] == log;
    var applied := state.ApplyOnceAt(command, now);
    payload := if meshControl then Some(EncodeCommand(command)) else None;
  }

  // ── One command ────────────────────────────────────────────────────────────

  predicate Carries(p: Packet, id: string) {
    Parse(p.payload).Ok? && Parse(p.payload).value.id == id
  }

  /** How often the id was accepted. */
  ghost function Times(h: seq<Stamp>, id: string): nat {
    if h == [] then 0 else Times(h[..|h| - 1], id) + if h[|h| - 1].id == id then 1 else 0
  }

  ghost function TimesAt(net: Net, n: Node, id: string, maxRecords: nat): nat
    requires n in net.logs
  {
    Times(History(net.logs[n], maxRecords), id)
  }

  ghost predicate HasApplied(net: Net, n: Node, id: string, maxRecords: nat) {
    n in net.logs && TimesAt(net, n, id, maxRecords) > 0
  }

  ghost function AppliedNodes(net: Net, id: string, maxRecords: nat): set<Node> {
    set n | n in net.logs && HasApplied(net, n, id, maxRecords)
  }

  /** The step hands a copy of the command to a node. */
  predicate DeliversCopy(net: Net, step: Step, id: string) {
    step.Deliver? && step.index < |net.flight| && Carries(net.flight[step.index], id)
  }

  predicate LosesCopy(net: Net, step: Step, id: string) {
    step.Lose? && step.index < |net.flight| && Carries(net.flight[step.index], id)
  }

  /** `n` sends the command to its in-links in this step. */
  ghost predicate Sends(net: Net, step: Step, n: Node, id: string, maxRecords: nat) {
    || (step.Originate? && step.node == n && step.command.id == id)
    || (DeliversCopy(net, step, id) && net.flight[step.index].dst == n && n in net.logs
        && IsNew(After(net.logs[n], maxRecords), id, step.now))
  }

  /** A flood: a run that begins with the one local request for `command`, its id being
      unknown everywhere. */
  datatype Flood = Flood(graph: Graph, origin: Node, command: Command, startAt: Time, maxRecords: nat,
                         nets: seq<Net>, steps: seq<Step>)

  ghost predicate Ready(f: Flood) {
    ValidGraph(f.graph) && Constructible(f.command)
  }

  /** A step that may follow in a flood. */
  ghost predicate Lawful(f: Flood, net: Net, step: Step) {
    && ValidNet(f.graph, net) && Enabled(f.graph, net, step)
    && !(step.Originate? && step.command.id == f.command.id)
    && (DeliversCopy(net, step, f.command.id) ==> Timely(net.logs[net.flight[step.index].dst], step.now))
  }

  /** The clock of the node has not gone backwards. */
  ghost predicate Timely(log: seq<Op>, now: Time) {
    Monotone(log) && LastTime(log) <= now
  }

  /** If the step hands a copy to a node that has applied the command, the id is still
      among that node's last 2048 commands of 24 h. */
  ghost predicate Recalls(f: Flood, net: Net, step: Step) {
    DeliversCopy(net, step, f.command.id) ==>
      var n := net.flight[step.index].dst;
      HasApplied(net, n, f.command.id, f.maxRecords) ==>
        InWindow(History(net.logs[n], f.maxRecords), f.command.id, step.now)
  }

  /** In the first `k` steps no copy reaches a node that has applied the command and
      forgotten it. */
  ghost predicate Remembered(f: Flood, k: nat)
    requires |f.nets| == |f.steps| + 1 && k <= |f.steps|
  {
    forall i :: 0 < i < k ==> RecallsAt(f, i)
  }

  ghost predicate RecallsAt(f: Flood, i: nat)
    requires |f.nets| == |f.steps| + 1 && i < |f.steps|
  {
    Recalls(f, f.nets[i], f.steps[i])
  }

  ghost predicate IsFlood(f: Flood) {
    && Ready(f) && f.origin in f.graph.links
    && |f.nets| == |f.steps| + 1 && |f.steps| > 0
    && (forall i :: 0 <= i < |f.steps| ==> StepAt(f, i))
  }

  ghost predicate StepAt(f: Flood, i: nat)
    requires |f.nets| == |f.steps| + 1 && i < |f.steps|
  {
    && ValidNet(f.graph, f.nets[i]) && Enabled(f.graph, f.nets[i], f.steps[i])
    && (if i == 0 then Untouched(f, f.nets[0]) && f.steps[0] == Originate(f.origin, f.command, f.startAt)
        else Lawful(f, f.nets[i], f.steps[i]))
    && f.nets[i + 1] == Next(f.graph, f.nets[i], f.steps[i], f.maxRecords)
  }

  /** Nobody knows the command and no copy is under way. */
  ghost predicate Untouched(f: Flood, net: Net) {
    && ValidNet(f.graph, net)
    && (forall n :: n in net.logs ==> TimesAt(net, n, f.command.id, f.maxRecords) == 0)
    && (forall p :: p in net.flight ==> !Carries(p, f.command.id))
  }

  // ── Single nodes ───────────────────────────────────────────────────────────

  lemma {:induction false} TimesPositive(h: seq<Stamp>, id: string)
    ensures Times(h, id) > 0 <==> exists i :: 0 <= i < |h| && h[i].id == id
  {
    if h != [] {
      var front := h[..|h| - 1];
      TimesPositive(front, id);
      if i :| 0 <= i < |h| && h[i].id == id {
        assert i < |front| ==> front[i].id == id;
      }
    }
  }

  /** What a node never accepted is new to it. */
  lemma UnknownIsNew(log: seq<Op>, id: string, now: Time, maxRecords: nat)
    requires Times(History(log, maxRecords), id) == 0
    ensures IsNew(After(log, maxRecords), id, now)
  {
    var h, d := History(log, maxRecords), After(log, maxRecords);
    var j := SeenAlways(log, maxRecords);
    var k := PruneStep(d, h, j, now);
    TimesPositive(h, id);
    var p := Prune(d, now);
    forall i | 0 <= i < |p.order| ensures p.order[i] != id {
      assert p.order[i] == h[i + k].id;
    }
  }

  /** A node accepts the command exactly if it never did or has forgotten. */
  lemma NewExactly(log: seq<Op>, id: string, now: Time, maxRecords: nat)
    requires Timely(log, now)
    ensures IsNew(After(log, maxRecords), id, now) <==>
              Times(History(log, maxRecords), id) == 0 || !InWindow(History(log, maxRecords), id, now)
  {
    AppliedOnceExactly(log, maxRecords, id, now);
    TimesPositive(History(log, maxRecords), id);
  }

  /** Appending an operation adds to the count exactly if it accepts the id. */
  lemma TimesAppend(log: seq<Op>, op: Op, id: string, maxRecords: nat)
    ensures Times(History(log + [op], maxRecords), id) == Times(History(log, maxRecords), id) +
            if op.Apply? && op.command.id == id && IsNew(After(log, maxRecords), id, op.now) then 1 else 0
  {
    var all := log + [op];
    assert all[..|all| - 1] == log;
    var h := History(log, maxRecords);
    if Accepts(all, maxRecords) {
      assert (h + [Stamp(op.command.id, op.now)])[..|h|] == h;
    }
  }

  // ── Counting copies ────────────────────────────────────────────────────────

  ghost function Copies(flight: seq<Packet>, id: string): nat {
    if flight == [] then 0 else Copies(flight[..|flight| - 1], id) + if Carries(flight[|flight| - 1], id) then 1 else 0
  }

  lemma {:induction false} CopiesAppend(a: seq<Packet>, b: seq<Packet>, id: string)
    ensures Copies(a + b, id) == Copies(a, id) + Copies(b, id)
  {
    if b == [] {
      assert a + b == a;
    } else {
      assert (a + b)[..|a + b| - 1] == a + b[..|b| - 1];
      CopiesAppend(a, b[..|b| - 1], id);
    }
  }

  lemma CopiesWithout(flight: seq<Packet>, i: nat, id: string)
    requires i < |flight|
    ensures Copies(flight, id) == Copies(Without(flight, i), id) + if Carries(flight[i], id) then 1 else 0
  {
    var one := [flight[i]];
    assert flight == flight[..i] + (one + flight[i + 1..]);
    CopiesAppend(flight[..i], one + flight[i + 1..], id);
    CopiesAppend(one, flight[i + 1..], id);
    CopiesAppend(flight[..i], flight[i + 1..], id);
    assert one[..0] == [];
  }

  lemma {:induction false} CopiesUniform(flight: seq<Packet>, id: string, carries: bool)
    requires forall p :: p in flight ==> Carries(p, id) == carries
    ensures Copies(flight, id) == if carries then |flight| else 0
  {
    if flight != [] {
      assert flight[|flight| - 1] in flight;
      CopiesUniform(flight[..|flight| - 1], id, carries);
    }
  }

  /** What a node sends is the command it was given, whatever text it was given in. */
  lemma BroadcastCopies(receivers: seq<Node>, c: Command, id: string)
    requires Constructible(c)
    ensures Copies(Broadcast(receivers, EncodeCommand(c)), id) == if c.id == id then |receivers| else 0
    ensures forall p :: p in Broadcast(receivers, EncodeCommand(c)) ==> Carries(p, id) == (c.id == id)
  {
    ParseEncode(c);
    CopiesUniform(Broadcast(receivers, EncodeCommand(c)), id, c.id == id);
  }

  /** Links of the listed nodes that have not applied the command. */
  ghost function Unused(g: Graph, nodes: seq<Node>, applied: set<Node>): nat
    requires forall n :: n in nodes ==> n in g.links
  {
    if nodes == [] then 0
    else
      var n := nodes[|nodes| - 1];
      assert forall m :: m in nodes[..|nodes| - 1] ==> m in nodes;
      Unused(g, nodes[..|nodes| - 1], applied) + if n in applied then 0 else |g.links[n]|
  }

  lemma {:induction false} UnusedInsert(g: Graph, nodes: seq<Node>, applied: set<Node>, n: Node)
    requires forall m :: m in nodes ==> m in g.links
    requires NoRepeats(nodes)
    requires n !in applied && n in g.links
    ensures Unused(g, nodes, applied) == Unused(g, nodes, applied + {n}) + if n in nodes then |g.links[n]| else 0
  {
    if nodes != [] {
      var front := nodes[..|nodes| - 1];
      assert nodes == front + [nodes[|nodes| - 1]];
      UnusedInsert(g, front, applied, n);
    }
  }

  /** Copies under way, plus links that a first application will still use. */
  ghost function Potential(f: Flood, net: Net): nat
    requires ValidGraph(f.graph)
  {
    Copies(net.flight, f.command.id) + Unused(f.graph, f.graph.nodes, AppliedNodes(net, f.command.id, f.maxRecords))
  }

  /** The number of links of the whole mesh. */
  ghost function AllLinks(g: Graph): nat
    requires ValidGraph(g)
  {
    Unused(g, g.nodes, {})
  }

  // ── Reachability ───────────────────────────────────────────────────────────

  ghost predicate IsPath(g: Graph, path: seq<Node>, from: Node, to: Node) {
    && path != [] && path[0] == from && path[|path| - 1] == to
    && forall i :: 0 <= i < |path| - 1 ==> path[i] in g.links && path[i + 1] in g.links[path[i]]
  }

  ghost predicate Reachable(g: Graph, from: Node, to: Node) {
    exists path :: IsPath(g, path, from, to)
  }

  lemma ReachMore(g: Graph, from: Node, n: Node, d: Node)
    requires Reachable(g, from, n) && n in g.links && d in g.links[n]
    ensures Reachable(g, from, d)
  {
    var path :| IsPath(g, path, from, n);
    assert IsPath(g, path + [d], from, d);
  }

  // ── What every step keeps ──────────────────────────────────────────────────

  /** Copies are canonical and under way to reachable nodes, and whoever has applied the
      command is reachable. */
  ghost predicate FloodInv(f: Flood, net: Net) {
    && ValidNet(f.graph, net)
    && (forall p :: p in net.flight && Carries(p, f.command.id) ==>
          p.payload == EncodeCommand(f.command) && Reachable(f.graph, f.origin, p.dst))
    && (forall n :: HasApplied(net, n, f.command.id, f.maxRecords) ==> Reachable(f.graph, f.origin, n))
  }

  /** Whether `op` makes node `n` accept the id. */
  ghost predicate AcceptsId(net: Net, n: Node, op: Op, id: string, maxRecords: nat) {
    n in net.logs && op.Apply? && op.command.id == id && IsNew(After(net.logs[n], maxRecords), id, op.now)
  }

  ghost function Accepted(net: Net, n: Node, op: Op, id: string, maxRecords: nat): set<Node> {
    if AcceptsId(net, n, op, id, maxRecords) then {n} else {}
  }

  ghost function Logged(net: Net, n: Node, op: Op, flight: seq<Packet>): Net
    requires n in net.logs
  {
    Net(net.logs[n := net.logs[n] + [op]], flight)
  }

  /** One node logs one operation; flight is arbitrary. */
  lemma LogOne(net: Net, n: Node, op: Op, flight: seq<Packet>, id: string, maxRecords: nat)
    requires n in net.logs
    ensures var net' := Logged(net, n, op, flight);
            && (forall m :: m in net.logs && m != n ==> TimesAt(net', m, id, maxRecords) == TimesAt(net, m, id, maxRecords))
            && TimesAt(net', n, id, maxRecords) == TimesAt(net, n, id, maxRecords) +
                 if AcceptsId(net, n, op, id, maxRecords) then 1 else 0
  {
    TimesAppend(net.logs[n], op, id, maxRecords);
  }

  lemma LogOneApplied(net: Net, n: Node, op: Op, flight: seq<Packet>, id: string, maxRecords: nat)
    requires n in net.logs
    ensures AppliedNodes(Logged(net, n, op, flight), id, maxRecords) ==
            AppliedNodes(net, id, maxRecords) + Accepted(net, n, op, id, maxRecords)
  {
    var net' := Logged(net, n, op, flight);
    forall m ensures m in AppliedNodes(net', id, maxRecords) <==>
                     m in AppliedNodes(net, id, maxRecords) + Accepted(net, n, op, id, maxRecords)
    {
      LogOneAppliedAt(net, n, op, flight, id, maxRecords, m);
    }
  }

  lemma LogOneAppliedAt(net: Net, n: Node, op: Op, flight: seq<Packet>, id: string, maxRecords: nat, m: Node)
    requires n in net.logs
    ensures HasApplied(Logged(net, n, op, flight), m, id, maxRecords) <==>
            HasApplied(net, m, id, maxRecords) || (m == n && AcceptsId(net, n, op, id, maxRecords))
  {
    LogOne(net, n, op, flight, id, maxRecords);
  }

  /** The receiver of a copy that has not forgotten the command accepts it exactly if it
      never has. */
  lemma AcceptedExactly(f: Flood, net: Net, step: Step)
    requires Lawful(f, net, step) && DeliversCopy(net, step, f.command.id) && Recalls(f, net, step)
    ensures var n := net.flight[step.index].dst;
            AcceptsId(net, n, Apply(f.command, step.now), f.command.id, f.maxRecords) <==>
            !HasApplied(net, n, f.command.id, f.maxRecords)
  {
    NewExactly(net.logs[net.flight[step.index].dst], f.command.id, step.now, f.maxRecords);
  }

  lemma WithoutIsPart<T>(s: seq<T>, i: nat)
    requires i < |s|
    ensures forall x :: x in Without(s, i) ==> x in s
  {
  }

  // ── Steps ──────────────────────────────────────────────────────────────────

  /** A step neither delivers nor loses a copy and no node logs the command: another
      command's packet, a loss, a record. */
  ghost predicate Unrelated(f: Flood, net: Net, step: Step) {
    && Enabled(f.graph, net, step) && !DeliversCopy(net, step, f.command.id) && !LosesCopy(net, step, f.command.id)
    && !(step.Originate? && step.command.id == f.command.id)
  }

  /** The new packets of a step carry other commands or the canonical text. */
  lemma FlightKept(f: Flood, net: Net, flight: seq<Packet>, extra: seq<Packet>)
    requires FloodInv(f, net)
    requires forall p :: p in flight ==> p in net.flight
    requires forall p :: p in extra ==> p.dst in f.graph.links
    requires forall p :: p in extra && Carries(p, f.command.id) ==>
               p.payload == EncodeCommand(f.command) && Reachable(f.graph, f.origin, p.dst)
    ensures forall p :: p in flight + extra ==> p.dst in f.graph.links
    ensures forall p :: p in flight + extra && Carries(p, f.command.id) ==>
               p.payload == EncodeCommand(f.command) && Reachable(f.graph, f.origin, p.dst)
  {
  }

  lemma InvAfterLog(f: Flood, net: Net, n: Node, op: Op, flight: seq<Packet>)
    requires FloodInv(f, net) && n in net.logs
    requires forall p :: p in flight ==> p.dst in f.graph.links
    requires forall p :: p in flight && Carries(p, f.command.id) ==>
               p.payload == EncodeCommand(f.command) && Reachable(f.graph, f.origin, p.dst)
    requires AcceptsId(net, n, op, f.command.id, f.maxRecords) ==> Reachable(f.graph, f.origin, n)
    ensures FloodInv(f, Logged(net, n, op, flight))
  {
    var net' := Logged(net, n, op, flight);
    LogOne(net, n, op, flight, f.command.id, f.maxRecords);
    assert net'.logs.Keys == net.logs.Keys;
    forall m | m in net'.logs
      ensures HasApplied(net', m, f.command.id, f.maxRecords) ==> Reachable(f.graph, f.origin, m)
    {
      if m != n {
        assert TimesAt(net', m, f.command.id, f.maxRecords) == TimesAt(net, m, f.command.id, f.maxRecords);
        assert HasApplied(net', m, f.command.id, f.maxRecords) ==> HasApplied(net, m, f.command.id, f.maxRecords);
      } else if !AcceptsId(net, n, op, f.command.id, f.maxRecords) {
        assert HasApplied(net', m, f.command.id, f.maxRecords) ==> HasApplied(net, m, f.command.id, f.maxRecords);
      }
    }
  }

  /** The potential after one node logs one operation. */
  lemma PotentialAfterLog(f: Flood, net: Net, n: Node, op: Op, flight: seq<Packet>)
    requires ValidGraph(f.graph) && n in net.logs && n in f.graph.links
    requires AcceptsId(net, n, op, f.command.id, f.maxRecords) ==> !HasApplied(net, n, f.command.id, f.maxRecords)
    ensures var net' := Logged(net, n, op, flight);
            Potential(f, net') + Copies(net.flight, f.command.id)
              + (if AcceptsId(net, n, op, f.command.id, f.maxRecords) then |f.graph.links[n]| else 0)
            == Potential(f, net) + Copies(flight, f.command.id)
  {
    LogOneApplied(net, n, op, flight, f.command.id, f.maxRecords);
    var applied := AppliedNodes(net, f.command.id, f.maxRecords);
    if AcceptsId(net, n, op, f.command.id, f.maxRecords) {
      UnusedInsert(f.graph, f.graph.nodes, applied, n);
    } else {
      assert applied + {} == applied;
    }
  }

  /** A packet leaves the flight and nothing else happens. */
  lemma FlightShrinks(f: Flood, net: Net, i: nat)
    requires ValidGraph(f.graph) && FloodInv(f, net) && i < |net.flight|
    ensures var net' := net.(flight := Without(net.flight, i));
            && FloodInv(f, net')
            && Potential(f, net') + (if Carries(net.flight[i], f.command.id) then 1 else 0)
               == Potential(f, net)
  {
    var net' := net.(flight := Without(net.flight, i));
    WithoutIsPart(net.flight, i);
    CopiesWithout(net.flight, i, f.command.id);
    forall n ensures HasApplied(net', n, f.command.id, f.maxRecords) == HasApplied(net, n, f.command.id, f.maxRecords) {
    }
    assert AppliedNodes(net', f.command.id, f.maxRecords) == AppliedNodes(net, f.command.id, f.maxRecords);
  }

  /** A node logs an operation of another command and may send packets of that one. */
  lemma OtherCommand(f: Flood, net: Net, n: Node, c: Command, now: Time, flight: seq<Packet>, send: bool)
    requires ValidGraph(f.graph) && FloodInv(f, net) && n in net.logs
    requires Constructible(c) && c.id != f.command.id
    requires forall p :: p in flight ==> p in net.flight
    requires Copies(flight, f.command.id) == Copies(net.flight, f.command.id)
    ensures var extra := if send then Broadcast(f.graph.links[n], EncodeCommand(c)) else [];
            var net' := Logged(net, n, Apply(c, now), flight + extra);
            FloodInv(f, net') && Potential(f, net') == Potential(f, net)
  {
    var extra := if send then Broadcast(f.graph.links[n], EncodeCommand(c)) else [];
    BroadcastCopies(f.graph.links[n], c, f.command.id);
    CopiesAppend(flight, extra, f.command.id);
    FlightKept(f, net, flight, extra);
    InvAfterLog(f, net, n, Apply(c, now), flight + extra);
    PotentialAfterLog(f, net, n, Apply(c, now), flight + extra);
  }

  /** A step that is not about the command keeps the invariant and the potential. */
  lemma UnrelatedStep(f: Flood, net: Net, step: Step)
    requires ValidGraph(f.graph) && FloodInv(f, net) && Unrelated(f, net, step)
    ensures var net' := Next(f.graph, net, step, f.maxRecords);
            FloodInv(f, net') && Potential(f, net') == Potential(f, net)
  {
    match step
    case Originate(n, c, now) => OtherCommand(f, net, n, c, now, net.flight, true);
    case Deliver(i, now) =>
      var p := net.flight[i];
      FlightShrinks(f, net, i);
      if Parse(p.payload).Ok? {
        var c := Parse(p.payload).value;
        ParseExactly(p.payload, c);
        WithoutIsPart(net.flight, i);
        CopiesWithout(net.flight, i, f.command.id);
        OtherCommand(f, net, p.dst, c, now, Without(net.flight, i), IsNew(After(net.logs[p.dst], f.maxRecords), c.id, now));
      }
    case Lose(i) => FlightShrinks(f, net, i);
    case Local(n, op) =>
      InvAfterLog(f, net, n, op, net.flight);
      PotentialAfterLog(f, net, n, op, net.flight);
  }

  /** A lost copy costs one unit of potential. */
  lemma LossStep(f: Flood, net: Net, step: Step)
    requires ValidGraph(f.graph) && FloodInv(f, net) && Enabled(f.graph, net, step) && LosesCopy(net, step, f.command.id)
    ensures var net' := Next(f.graph, net, step, f.maxRecords);
            FloodInv(f, net') && Potential(f, net') + 1 == Potential(f, net)
  {
    FlightShrinks(f, net, step.index);
  }

  /** The net after a delivered copy of the command. */
  ghost function CopyTaken(f: Flood, net: Net, i: nat, now: Time): Net
    requires ValidNet(f.graph, net) && i < |net.flight|
  {
    var p := net.flight[i];
    var isNew := IsNew(After(net.logs[p.dst], f.maxRecords), f.command.id, now);
    Logged(net, p.dst, Apply(f.command, now),
           Without(net.flight, i) + if isNew then Broadcast(f.graph.links[p.dst], EncodeCommand(f.command)) else [])
  }

  lemma CopyIsTaken(f: Flood, net: Net, step: Step)
    requires Ready(f) && FloodInv(f, net) && Lawful(f, net, step) && DeliversCopy(net, step, f.command.id)
    ensures Next(f.graph, net, step, f.maxRecords) == CopyTaken(f, net, step.index, step.now)
  {
    ParseEncode(f.command);
  }

  lemma CopyKeeps(f: Flood, net: Net, step: Step)
    requires Ready(f) && FloodInv(f, net) && Lawful(f, net, step) && DeliversCopy(net, step, f.command.id)
    ensures FloodInv(f, CopyTaken(f, net, step.index, step.now))
  {
    var i, now := step.index, step.now;
    var p, rest := net.flight[i], Without(net.flight, i);
    var links := f.graph.links[p.dst];
    var isNew := IsNew(After(net.logs[p.dst], f.maxRecords), f.command.id, now);
    var extra := if isNew then Broadcast(links, EncodeCommand(f.command)) else [];
    WithoutIsPart(net.flight, i);
    forall q | q in extra ensures Reachable(f.graph, f.origin, q.dst) {
      ReachMore(f.graph, f.origin, p.dst, q.dst);
    }
    FlightKept(f, net, rest, extra);
    InvAfterLog(f, net, p.dst, Apply(f.command, now), rest + extra);
  }

  /** So does a delivered copy, whether it is new to its receiver or not, if the receiver
      has not forgotten the command. */
  lemma CopyPotential(f: Flood, net: Net, step: Step)
    requires Ready(f) && ValidNet(f.graph, net) && Lawful(f, net, step) && DeliversCopy(net, step, f.command.id)
    requires Recalls(f, net, step)
    ensures Potential(f, CopyTaken(f, net, step.index, step.now)) + 1 == Potential(f, net)
  {
    var i, now := step.index, step.now;
    var p, rest := net.flight[i], Without(net.flight, i);
    var links := f.graph.links[p.dst];
    var isNew := IsNew(After(net.logs[p.dst], f.maxRecords), f.command.id, now);
    var extra := if isNew then Broadcast(links, EncodeCommand(f.command)) else [];
    AcceptedExactly(f, net, step);
    CopiesWithout(net.flight, i, f.command.id);
    BroadcastCopies(links, f.command, f.command.id);
    CopiesAppend(rest, extra, f.command.id);
    PotentialAfterLog(f, net, p.dst, Apply(f.command, now), rest + extra);
  }

  /** The local request that starts the flood, as a function of the net before it. */
  ghost function Started(f: Flood, net: Net, now: Time): Net
    requires f.origin in net.logs && f.origin in f.graph.links
  {
    Logged(net, f.origin, Apply(f.command, now), net.flight + Broadcast(f.graph.links[f.origin], EncodeCommand(f.command)))
  }

  lemma StartKeeps(f: Flood, net: Net, now: Time)
    requires Ready(f) && f.origin in f.graph.links && Untouched(f, net)
    ensures FloodInv(f, Started(f, net, now))
  {
    var links := f.graph.links[f.origin];
    var extra := Broadcast(links, EncodeCommand(f.command));
    OriginReaches(f, links);
    FlightKept(f, net, net.flight, extra);
    InvAfterLog(f, net, f.origin, Apply(f.command, now), net.flight + extra);
  }

  lemma StartPotential(f: Flood, net: Net, now: Time)
    requires Ready(f) && f.origin in f.graph.links && Untouched(f, net)
    ensures Potential(f, Started(f, net, now)) == AllLinks(f.graph)
  {
    var links := f.graph.links[f.origin];
    var extra := Broadcast(links, EncodeCommand(f.command));
    UnknownIsNew(net.logs[f.origin], f.command.id, now, f.maxRecords);
    BroadcastCopies(links, f.command, f.command.id);
    CopiesAppend(net.flight, extra, f.command.id);
    CopiesUniform(net.flight, f.command.id, false);
    assert AppliedNodes(net, f.command.id, f.maxRecords) == {};
    PotentialAfterLog(f, net, f.origin, Apply(f.command, now), net.flight + extra);
  }

  lemma OriginReaches(f: Flood, links: seq<Node>)
    requires f.origin in f.graph.links && links == f.graph.links[f.origin]
    ensures Reachable(f.graph, f.origin, f.origin) && forall d :: d in links ==> Reachable(f.graph, f.origin, d)
  {
    assert IsPath(f.graph, [f.origin], f.origin, f.origin);
    forall d | d in links ensures Reachable(f.graph, f.origin, d) {
      ReachMore(f.graph, f.origin, f.origin, d);
    }
  }

  /** After it the origin alone has applied the command, and a copy is on every link. */
  lemma StartCovers(f: Flood, net: Net, now: Time)
    requires Ready(f) && f.origin in f.graph.links && Untouched(f, net)
    ensures var net' := Started(f, net, now);
            && (forall n :: n in net.logs ==> TimesAt(net', n, f.command.id, f.maxRecords) == if n == f.origin then 1 else 0)
            && Covered(f, net')
  {
    var links := f.graph.links[f.origin];
    var sent := Broadcast(links, EncodeCommand(f.command));
    var net' := Started(f, net, now);
    UnknownIsNew(net.logs[f.origin], f.command.id, now, f.maxRecords);
    LogOne(net, f.origin, Apply(f.command, now), net.flight + sent, f.command.id, f.maxRecords);
    ParseEncode(f.command);
    forall d | d in links ensures HasCopy(net', d, f.command.id) {
      var j :| 0 <= j < |links| && links[j] == d;
      assert sent[j] in net'.flight;
    }
  }

  ghost function Handles(f: Flood, net: Net, step: Step): nat {
    if DeliversCopy(net, step, f.command.id) || LosesCopy(net, step, f.command.id) then 1 else 0
  }

  /** Copies delivered or lost in the first `k` steps. */
  ghost function Handled(f: Flood, k: nat): nat
    requires |f.nets| == |f.steps| + 1 && k <= |f.steps|
  {
    if k == 0 then 0 else Handled(f, k - 1) + Handles(f, f.nets[k - 1], f.steps[k - 1])
  }

  /** The net after the first step. */
  lemma FloodBase(f: Flood)
    requires IsFlood(f)
    ensures Untouched(f, f.nets[0]) && f.nets[1] == Started(f, f.nets[0], f.startAt)
    ensures Handled(f, 1) == 0
    ensures forall n :: Forwards(f, 1, n) == if n == f.origin then 1 else 0
  {
    assert StepAt(f, 0);
    assert Handled(f, 0) == 0;
    assert forall n :: Forwards(f, 0, n) == 0;
  }

  lemma BaseKeeps(f: Flood)
    requires IsFlood(f)
    ensures FloodInv(f, f.nets[1])
    ensures Handled(f, 1) + Potential(f, f.nets[1]) == AllLinks(f.graph)
  {
    FloodBase(f);
    StartKeeps(f, f.nets[0], f.startAt);
    StartPotential(f, f.nets[0], f.startAt);
  }

  lemma BaseCovers(f: Flood)
    requires IsFlood(f)
    ensures Covered(f, f.nets[1])
    ensures forall n :: n in f.graph.links ==>
              n in f.nets[1].logs && Forwards(f, 1, n) == TimesAt(f.nets[1], n, f.command.id, f.maxRecords)
    ensures HasApplied(f.nets[1], f.origin, f.command.id, f.maxRecords)
  {
    FloodBase(f);
    StartCovers(f, f.nets[0], f.startAt);
  }

  /** Every step keeps the invariant. */
  lemma FloodStep(f: Flood, net: Net, step: Step)
    requires Ready(f) && FloodInv(f, net) && Lawful(f, net, step)
    ensures FloodInv(f, Next(f.graph, net, step, f.maxRecords))
  {
    if DeliversCopy(net, step, f.command.id) {
      CopyIsTaken(f, net, step);
      CopyKeeps(f, net, step);
    } else if LosesCopy(net, step, f.command.id) {
      LossStep(f, net, step);
    } else {
      UnrelatedStep(f, net, step);
    }
  }

  /** A handled copy costs one unit of potential and nothing else changes it. */
  lemma PotentialStep(f: Flood, net: Net, step: Step)
    requires Ready(f) && FloodInv(f, net) && Lawful(f, net, step) && Recalls(f, net, step)
    ensures Potential(f, Next(f.graph, net, step, f.maxRecords)) + Handles(f, net, step) == Potential(f, net)
  {
    if DeliversCopy(net, step, f.command.id) {
      CopyIsTaken(f, net, step);
      CopyPotential(f, net, step);
    } else if LosesCopy(net, step, f.command.id) {
      LossStep(f, net, step);
    } else {
      UnrelatedStep(f, net, step);
    }
  }

  /** On every flood, after every step, the invariant holds. */
  lemma {:induction false} InvAlways(f: Flood, k: nat)
    requires IsFlood(f) && 0 < k <= |f.steps|
    ensures FloodInv(f, f.nets[k])
  {
    if k == 1 {
      BaseKeeps(f);
    } else {
      InvAlways(f, k - 1);
      assert StepAt(f, k - 1);
      FloodStep(f, f.nets[k - 1], f.steps[k - 1]);
    }
  }

  /** As long as nobody forgets, the copies handled so far plus the potential make up the
      number of links after every step. So at most one copy per link is ever handled, and
      each handled copy brings the flood one closer to its end. */
  lemma {:induction false} FloodAlways(f: Flood, k: nat)
    requires IsFlood(f) && 0 < k <= |f.steps| && Remembered(f, k)
    ensures FloodInv(f, f.nets[k])
    ensures Handled(f, k) + Potential(f, f.nets[k]) == AllLinks(f.graph)
  {
    InvAlways(f, k);
    if k == 1 {
      BaseKeeps(f);
    } else {
      FloodAlways(f, k - 1);
      assert StepAt(f, k - 1) && RecallsAt(f, k - 1);
      PotentialStep(f, f.nets[k - 1], f.steps[k - 1]);
    }
  }

  /** Whatever route a copy took and whatever text it was first given in, it parses to
      the command of the origin: all nodes apply the same action. */
  lemma CopiesAreTheCommand(f: Flood, k: nat, p: Packet)
    requires IsFlood(f) && 0 < k <= |f.steps| && p in f.nets[k].flight && Carries(p, f.command.id)
    ensures Parse(p.payload) == Ok(f.command)
  {
    InvAlways(f, k);
    ParseEncode(f.command);
  }

  /** How often `n` sent the command to its in-links in the first `k` steps. */
  ghost function Forwards(f: Flood, k: nat, n: Node): nat
    requires |f.nets| == |f.steps| + 1 && k <= |f.steps|
  {
    if k == 0 then 0
    else
      Forwards(f, k - 1, n) + if Sends(f.nets[k - 1], f.steps[k - 1], n, f.command.id, f.maxRecords) then 1 else 0
  }

  /** Sending goes with accepting. */
  lemma SendIsAccept(f: Flood, net: Net, step: Step, n: Node)
    requires Lawful(f, net, step) && n in net.logs
    ensures TimesAt(Next(f.graph, net, step, f.maxRecords), n, f.command.id, f.maxRecords) ==
            TimesAt(net, n, f.command.id, f.maxRecords) + if Sends(net, step, n, f.command.id, f.maxRecords) then 1 else 0
  {
    match step
    case Originate(m, c, now) =>
      LogOne(net, m, Apply(c, now), net.flight + Broadcast(f.graph.links[m], EncodeCommand(c)), f.command.id, f.maxRecords);
    case Deliver(i, now) =>
      var p := net.flight[i];
      if Parse(p.payload).Ok? {
        LogOne(net, p.dst, Apply(Parse(p.payload).value, now), Next(f.graph, net, step, f.maxRecords).flight,
               f.command.id, f.maxRecords);
      }
    case Lose(i) =>
    case Local(m, op) => LogOne(net, m, op, net.flight, f.command.id, f.maxRecords);
  }

  lemma AdvanceCount(f: Flood, i: nat, n: Node)
    requires IsFlood(f) && 0 < i < |f.steps| && n in f.graph.links
    ensures n in f.nets[i].logs && n in f.nets[i + 1].logs
    ensures TimesAt(f.nets[i + 1], n, f.command.id, f.maxRecords) == TimesAt(f.nets[i], n, f.command.id, f.maxRecords)
            + if Sends(f.nets[i], f.steps[i], n, f.command.id, f.maxRecords) then 1 else 0
  {
    assert StepAt(f, i);
    SendIsAccept(f, f.nets[i], f.steps[i], n);
  }

  lemma {:induction false} ForwardsAreAccepts(f: Flood, k: nat, n: Node)
    requires IsFlood(f) && 0 < k <= |f.steps| && n in f.graph.links
    ensures n in f.nets[k].logs && Forwards(f, k, n) == TimesAt(f.nets[k], n, f.command.id, f.maxRecords)
  {
    if k == 1 {
      BaseCovers(f);
    } else {
      AdvanceCount(f, k - 1, n);
      ForwardsAreAccepts(f, k - 1, n);
    }
  }

  /** A node forwards the command as often as it applies it, and only nodes reachable from
      the origin ever do. */
  lemma AppliersReachable(f: Flood, k: nat, n: Node)
    requires IsFlood(f) && 0 < k <= |f.steps| && n in f.graph.links
    ensures n in f.nets[k].logs && Forwards(f, k, n) == TimesAt(f.nets[k], n, f.command.id, f.maxRecords)
    ensures Forwards(f, k, n) > 0 ==> Reachable(f.graph, f.origin, n)
  {
    InvAlways(f, k);
    ForwardsAreAccepts(f, k, n);
  }

  /** As long as nobody forgets, a node applies and forwards the command at most once. */
  lemma {:induction false} OnceAlways(f: Flood, k: nat, n: Node)
    requires IsFlood(f) && 0 < k <= |f.steps| && n in f.graph.links && Remembered(f, k)
    ensures Forwards(f, k, n) <= 1
  {
    if k == 1 {
      FloodBase(f);
    } else {
      OnceAlways(f, k - 1, n);
      ForwardsAreAccepts(f, k - 1, n);
      assert StepAt(f, k - 1) && RecallsAt(f, k - 1);
      if Sends(f.nets[k - 1], f.steps[k - 1], n, f.command.id, f.maxRecords) {
        AcceptedExactly(f, f.nets[k - 1], f.steps[k - 1]);
      }
    }
  }

  /** Each node applies and forwards the command at most once, and forwards it exactly if
      it has applied it; only nodes reachable from the origin ever do. */
  lemma AppliesOnceAndReachable(f: Flood, k: nat, n: Node)
    requires IsFlood(f) && 0 < k <= |f.steps| && n in f.graph.links && Remembered(f, k)
    ensures Forwards(f, k, n) == if HasApplied(f.nets[k], n, f.command.id, f.maxRecords) then 1 else 0
    ensures HasApplied(f.nets[k], n, f.command.id, f.maxRecords) ==> Reachable(f.graph, f.origin, n)
  {
    AppliersReachable(f, k, n);
    OnceAlways(f, k, n);
  }

  /** A copy that reaches a node which has applied the command and forgotten it is applied
      and forwarded once more. */
  lemma ForgottenRepeats(f: Flood, i: nat) returns (n: Node)
    requires IsFlood(f) && 0 < i < |f.steps| && !RecallsAt(f, i)
    ensures n in f.graph.links && Forwards(f, i + 1, n) > 1
  {
    assert StepAt(f, i);
    var net, step := f.nets[i], f.steps[i];
    n := net.flight[step.index].dst;
    NewExactly(net.logs[n], f.command.id, step.now, f.maxRecords);
    ForwardsAreAccepts(f, i, n);
  }

  /** Counts do not shrink. */
  lemma {:induction false} ForwardsGrow(f: Flood, i: nat, k: nat, n: Node)
    requires IsFlood(f) && i <= k <= |f.steps|
    ensures Forwards(f, i, n) <= Forwards(f, k, n)
  {
    if i < k {
      ForwardsGrow(f, i, k - 1, n);
    }
  }

  /** In a flood every node applies the command at most once exactly as long as no copy
      reaches a node that has applied it and forgotten it. */
  lemma AppliedOnceThroughoutExactly(f: Flood, k: nat)
    requires IsFlood(f) && 0 < k <= |f.steps|
    ensures (forall n :: n in f.graph.links ==> Forwards(f, k, n) <= 1) <==> Remembered(f, k)
  {
    if Remembered(f, k) {
      forall n | n in f.graph.links ensures Forwards(f, k, n) <= 1 {
        OnceAlways(f, k, n);
      }
    } else {
      var n := SomeoneRepeats(f, k);
    }
  }

  lemma SomeoneRepeats(f: Flood, k: nat) returns (n: Node)
    requires IsFlood(f) && k <= |f.steps| && !Remembered(f, k)
    ensures n in f.graph.links && Forwards(f, k, n) > 1
  {
    var i :| 0 < i < k && !RecallsAt(f, i);
    n := ForgottenRepeats(f, i);
    ForwardsGrow(f, i + 1, k, n);
  }

  const QUIET_PAIR: Net := Net(map[0 := [], 1 := []], [])
  const PAIR: Graph := Graph([0, 1], map[0 := [1], 1 := [0]])

  /** The net after node 0 has sent `c` and after node 1 has sent it back. */
  function PairNet(c: Command, answered: bool): Net {
    if answered then Net(map[0 := [Apply(c, 0)], 1 := [Apply(c, 0)]], [Packet(0, EncodeCommand(c))])
    else Net(map[0 := [Apply(c, 0)], 1 := []], [Packet(1, EncodeCommand(c))])
  }

  /** It can: two nodes, and the copy that comes back to the origin is a day late. */
  lemma ForgetfulFlood(maxRecords: nat) returns (f: Flood, n: Node)
    ensures IsFlood(f) && |f.steps| == 3 && f.maxRecords == maxRecords
    ensures n in f.graph.links && Forwards(f, 3, n) > 1
  {
    f := PairReturns(Command("a", Disable), maxRecords);
    f := PairDelivers(f, Deliver(0, SEEN_COMMAND_RETENTION + 1), true);
    PairForgets(f);
    n := ForgottenRepeats(f, 2);
  }

  lemma PairReturns(c: Command, maxRecords: nat) returns (f: Flood)
    requires Constructible(c)
    ensures IsFlood(f) && |f.steps| == 2 && LastNet(f) == PairNet(c, true)
    ensures f.graph == PAIR && f.command == c && f.maxRecords == maxRecords
  {
    f := PairStarts(c, maxRecords);
    f := PairDelivers(f, Deliver(0, 0), false);
    PairAnswers(c, maxRecords);
  }

  lemma PairStarts(c: Command, maxRecords: nat) returns (f: Flood)
    requires Constructible(c)
    ensures IsFlood(f) && |f.steps| == 1 && f.nets[1] == PairNet(c, false)
    ensures f.graph == PAIR && f.command == c && f.maxRecords == maxRecords
  {
    f := Flood(PAIR, 0, c, 0, maxRecords, [QUIET_PAIR, PairNet(c, false)], [Originate(0, c, 0)]);
    PairSends(c, maxRecords);
    OneAccepted(c, maxRecords);
    assert Times([], c.id) == 0;
    assert Untouched(f, QUIET_PAIR);
    assert StepAt(f, 0);
  }

  lemma PairDelivers(f: Flood, step: Step, answered: bool) returns (f': Flood)
    requires IsFlood(f) && f.graph == PAIR && step.Deliver? && step.index == 0
    requires LastNet(f) == PairNet(f.command, answered)
    ensures ValidNet(PAIR, LastNet(f)) && IsFlood(f')
    ensures f' == f.(nets := f.nets + [Next(PAIR, LastNet(f), step, f.maxRecords)], steps := f.steps + [step])
  {
    PairLawful(f, step, answered);
    f' := ExtendFlood(f, step);
  }

  lemma PairLawful(f: Flood, step: Step, answered: bool)
    requires f.graph == PAIR && step.Deliver? && step.index == 0
    ensures Lawful(f, PairNet(f.command, answered), step)
  {
    var net := PairNet(f.command, answered);
    var log := net.logs[net.flight[0].dst];
    assert log == [] || log == [Apply(f.command, 0)];
  }

  function LastNet(f: Flood): Net
    requires f.nets != []
  {
    f.nets[|f.nets| - 1]
  }

  lemma ExtendFlood(f: Flood, step: Step) returns (f': Flood)
    requires IsFlood(f) && Lawful(f, LastNet(f), step)
    ensures IsFlood(f')
    ensures f' == f.(nets := f.nets + [Next(f.graph, LastNet(f), step, f.maxRecords)], steps := f.steps + [step])
  {
    f' := f.(nets := f.nets + [Next(f.graph, LastNet(f), step, f.maxRecords)], steps := f.steps + [step]);
    forall i | 0 <= i < |f'.steps| ensures StepAt(f', i) {
      assert i < |f.steps| ==> StepAt(f, i);
    }
  }

  lemma PairSends(c: Command, maxRecords: nat)
    requires Constructible(c)
    ensures Next(PAIR, QUIET_PAIR, Originate(0, c, 0), maxRecords) == PairNet(c, false)
  {
    var sent := Broadcast([1], EncodeCommand(c));
    var log: seq<Op> := [];
    assert log + [Apply(c, 0)] == [Apply(c, 0)];
    assert QUIET_PAIR.flight + sent == sent == [Packet(1, EncodeCommand(c))];
  }

  lemma PairAnswers(c: Command, maxRecords: nat)
    requires Constructible(c)
    ensures ValidNet(PAIR, PairNet(c, false))
    ensures Next(PAIR, PairNet(c, false), Deliver(0, 0), maxRecords) == PairNet(c, true)
  {
    ParseEncode(c);
    OneAccepted(c, maxRecords);
    var net := PairNet(c, false);
    var sent := Broadcast([0], EncodeCommand(c));
    var log: seq<Op> := [];
    assert log + [Apply(c, 0)] == [Apply(c, 0)];
    var rest := net.(flight := Without(net.flight, 0));
    assert rest.flight == [];
    assert rest.flight + sent == sent == [Packet(0, EncodeCommand(c))];
    assert Received(PAIR, rest, 1, c, 0, maxRecords) == PairNet(c, true);
  }

  lemma PairForgets(f: Flood)
    requires IsFlood(f) && |f.steps| == 3 && f.nets[2] == PairNet(f.command, true)
    requires f.steps[2] == Deliver(0, SEEN_COMMAND_RETENTION + 1)
    ensures !RecallsAt(f, 2)
  {
    ParseEncode(f.command);
    OneAccepted(f.command, f.maxRecords);
    var h := History([Apply(f.command, 0)], f.maxRecords);
    assert Times(h[..0], f.command.id) == 0 && Times(h, f.command.id) == 1;
  }

  lemma OneAccepted(c: Command, maxRecords: nat)
    ensures History([], maxRecords) == [] && IsNew(After([], maxRecords), c.id, 0)
    ensures History([Apply(c, 0)], maxRecords) == [Stamp(c.id, 0)]
  {
    var log := [Apply(c, 0)];
    assert log[..0] == [];
    assert History([], maxRecords) == [] && After([], maxRecords) == FRESH_INNER;
  }

  /** The flood ends: as long as nobody forgets, no run handles more copies than there are
      links. */
  lemma FloodBounded(f: Flood, k: nat)
    requires IsFlood(f) && 0 < k <= |f.steps| && Remembered(f, k)
    ensures Handled(f, k) <= AllLinks(f.graph)
    ensures Handled(f, k) == AllLinks(f.graph) ==>
              forall p :: p in f.nets[k].flight ==> !Carries(p, f.command.id)
  {
    FloodAlways(f, k);
    if Copies(f.nets[k].flight, f.command.id) == 0 {
      NoCopies(f.nets[k].flight, f.command.id);
    }
  }

  lemma {:induction false} NoCopies(flight: seq<Packet>, id: string)
    ensures Copies(flight, id) == 0 <==> forall p :: p in flight ==> !Carries(p, id)
  {
    if flight != [] {
      var front := flight[..|flight| - 1];
      NoCopies(front, id);
      assert flight == front + [flight[|flight| - 1]];
    }
  }

  // ── Lossless delivery ──────────────────────────────────────────────────────

  ghost predicate HasCopy(net: Net, d: Node, id: string) {
    exists p :: p in net.flight && p.dst == d && Carries(p, id)
  }

  /** Across every link of a node that has applied the command, the receiver has applied
      it too or a copy is on its way. */
  ghost predicate Covered(f: Flood, net: Net) {
    forall n, d :: HasApplied(net, n, f.command.id, f.maxRecords) && n in f.graph.links && d in f.graph.links[n] ==>
      HasApplied(net, d, f.command.id, f.maxRecords) || HasCopy(net, d, f.command.id)
  }

  lemma CoveredStep(f: Flood, net: Net, step: Step)
    requires Ready(f) && FloodInv(f, net) && Lawful(f, net, step) && Covered(f, net)
    requires !LosesCopy(net, step, f.command.id)
    ensures Covered(f, Next(f.graph, net, step, f.maxRecords))
  {
    var id, net' := f.command.id, Next(f.graph, net, step, f.maxRecords);
    forall n | n in net.logs
      ensures HasApplied(net', n, id, f.maxRecords) <==>
              HasApplied(net, n, id, f.maxRecords) || Sends(net, step, n, id, f.maxRecords)
    {
      SendIsAccept(f, net, step, n);
    }
    forall n, d | HasApplied(net', n, id, f.maxRecords) && n in f.graph.links && d in f.graph.links[n]
      ensures HasApplied(net', d, id, f.maxRecords) || HasCopy(net', d, id)
    {
      if Sends(net, step, n, id, f.maxRecords) {
        SendsToAll(f, net, step, n, d);
      } else {
        CopyStays(f, net, step, d);
      }
    }
  }

  /** What a node sends reaches the flight, one copy for each link. */
  lemma SendsToAll(f: Flood, net: Net, step: Step, n: Node, d: Node)
    requires Ready(f) && FloodInv(f, net) && Lawful(f, net, step)
    requires Sends(net, step, n, f.command.id, f.maxRecords) && n in f.graph.links && d in f.graph.links[n]
    ensures HasCopy(Next(f.graph, net, step, f.maxRecords), d, f.command.id)
  {
    ParseEncode(f.command);
    var j :| 0 <= j < |f.graph.links[n]| && f.graph.links[n][j] == d;
    var sent := Broadcast(f.graph.links[n], EncodeCommand(f.command));
    assert sent[j] in sent && Carries(sent[j], f.command.id);
    assert sent[j] in Next(f.graph, net, step, f.maxRecords).flight;
  }

  /** A copy for `d` stays under way until it is delivered, and then `d` has applied. */
  lemma CopyStays(f: Flood, net: Net, step: Step, d: Node)
    requires Ready(f) && FloodInv(f, net) && Lawful(f, net, step)
    requires !LosesCopy(net, step, f.command.id)
    requires d in net.logs && (HasApplied(net, d, f.command.id, f.maxRecords) || HasCopy(net, d, f.command.id))
    ensures var net' := Next(f.graph, net, step, f.maxRecords);
            HasApplied(net', d, f.command.id, f.maxRecords) || HasCopy(net', d, f.command.id)
  {
    var net' := Next(f.graph, net, step, f.maxRecords);
    SendIsAccept(f, net, step, d);
    if !HasApplied(net, d, f.command.id, f.maxRecords) {
      var p :| p in net.flight && p.dst == d && Carries(p, f.command.id);
      if DeliversCopy(net, step, f.command.id) && net.flight[step.index].dst == d {
        UnknownIsNew(net.logs[d], f.command.id, step.now, f.maxRecords);
      } else {
        var i :| 0 <= i < |net.flight| && net.flight[i] == p;
        if (step.Deliver? || step.Lose?) {
          OthersStay(net.flight, step.index, i);
        }
        assert p in net'.flight;
      }
    }
  }

  lemma OthersStay<T>(s: seq<T>, gone: nat, i: nat)
    requires gone < |s| && i < |s| && i != gone
    ensures s[i] in Without(s, gone)
  {
    var rest := Without(s, gone);
    assert rest[if i < gone then i else i - 1] == s[i];
  }

  lemma AdvanceCovered(f: Flood, i: nat)
    requires IsFlood(f) && 0 < i < |f.steps| && FloodInv(f, f.nets[i]) && Covered(f, f.nets[i])
    requires !LosesCopy(f.nets[i], f.steps[i], f.command.id)
    ensures Covered(f, f.nets[i + 1])
  {
    assert StepAt(f, i);
    CoveredStep(f, f.nets[i], f.steps[i]);
  }

  lemma {:induction false} CoveredAlways(f: Flood, k: nat)
    requires IsFlood(f) && 0 < k <= |f.steps|
    requires forall i :: 0 <= i < k ==> !LosesCopy(f.nets[i], f.steps[i], f.command.id)
    ensures Covered(f, f.nets[k])
  {
    if k == 1 {
      BaseCovers(f);
    } else {
      CoveredAlways(f, k - 1);
      InvAlways(f, k - 1);
      AdvanceCovered(f, k - 1);
    }
  }

  lemma {:induction false} OriginHasApplied(f: Flood, k: nat)
    requires IsFlood(f) && 0 < k <= |f.steps|
    ensures HasApplied(f.nets[k], f.origin, f.command.id, f.maxRecords)
  {
    if k == 1 {
      BaseCovers(f);
    } else {
      OriginHasApplied(f, k - 1);
      AdvanceCount(f, k - 1, f.origin);
    }
  }

  /** With lossless delivery, once no copy is under way the nodes that have applied the
      command are exactly those reachable from the origin, whatever they forgot. */
  lemma FloodComplete(f: Flood, k: nat, n: Node)
    requires IsFlood(f) && 0 < k <= |f.steps| && n in f.graph.links
    requires forall i :: 0 <= i < k ==> !LosesCopy(f.nets[i], f.steps[i], f.command.id)
    requires forall p :: p in f.nets[k].flight ==> !Carries(p, f.command.id)
    ensures HasApplied(f.nets[k], n, f.command.id, f.maxRecords) <==> Reachable(f.graph, f.origin, n)
  {
    InvAlways(f, k);
    CoveredAlways(f, k);
    OriginHasApplied(f, k);
    if Reachable(f.graph, f.origin, n) {
      var path :| IsPath(f.graph, path, f.origin, n);
      PathApplied(f, f.nets[k], path, |path| - 1);
    }
  }

  lemma {:induction false} PathApplied(f: Flood, net: Net, path: seq<Node>, j: nat)
    requires Covered(f, net) && HasApplied(net, f.origin, f.command.id, f.maxRecords)
    requires forall p :: p in net.flight ==> !Carries(p, f.command.id)
    requires j < |path| && IsPath(f.graph, path, f.origin, path[|path| - 1])
    ensures HasApplied(net, path[j], f.command.id, f.maxRecords)
  {
    if j > 0 {
      PathApplied(f, net, path, j - 1);
      assert path[j - 1 + 1] in f.graph.links[path[j - 1]];
    }
  }
}
