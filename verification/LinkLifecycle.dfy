/** Out-link life cycle of one peer object, cut at the await points.

    Each code section between two awaits is a function on the peer's link fields.
    `System` adds the tasks that run those sections: any number of link requests, the
    watchdog's visit, and the link event stream. Steps interleave arbitrarily. */
module LinkLifecycle {
  import opened Common

  const LINK_PENDING_TIMEOUT_SECS: nat := 10
  const LINK_RECONNECT_COOLDOWN_SECS: nat := 3

  /** Wall-clock seconds. */
  type Seconds = U64

  datatype LinkState = Configured | Discovered | Pending | Active | Closed | Error

  /** Link status as the transport reports it. */
  datatype LinkStatus = LinkPending | LinkHandshake | LinkActive | LinkStale | LinkClosed

  datatype LinkView = LinkView(
    state: LinkState,
    reconnectAttempts: nat,
    linkAttemptTs: Seconds,
    requestInFlight: bool,
    cooldownUntil: Seconds)

  function SaturatingAdd(t: Seconds, delay: nat): Seconds {
    if t + delay <= U64_MAX then t + delay else U64_MAX
  }

  function FreshLink(state: LinkState): LinkView {
    LinkView(state, 0, 0, false, 0)
  }

  // ── Await-free sections ────────────────────────────────────────────────────

  /** The Activated event, and the watchdog seeing an active link. */
  function SeenActive(v: LinkView): LinkView {
    LinkView(Active, 0, 0, false, 0)
  }

  /** The Closed event, and the watchdog after it closed a stuck link. */
  function CloseWithCooldown(v: LinkView, now: Seconds): LinkView {
    v.(state := Closed, linkAttemptTs := 0, requestInFlight := false,
       cooldownUntil := SaturatingAdd(now, LINK_RECONNECT_COOLDOWN_SECS))
  }

  /** `sync_peer_link_state`. */
  function SyncStatus(v: LinkView, status: LinkStatus): LinkView {
    match status
    case LinkActive => SeenActive(v)
    case LinkPending => v.(state := Pending)
    case LinkHandshake => v.(state := Pending)
    case LinkStale => v.(state := Pending)
    case LinkClosed => v.(state := Closed, requestInFlight := false)
  }

  /** `should_reuse_existing_out_link`. */
  predicate ShouldReuse(existing: Option<LinkStatus>) {
    existing.Some? && !existing.value.LinkClosed?
  }

  /** `out_link_needs_reset`. */
  predicate NeedsReset(status: LinkStatus, ageSecs: nat) {
    (status.LinkPending? || status.LinkHandshake?) && ageSecs >= LINK_PENDING_TIMEOUT_SECS
  }

  datatype Outcome = Reused | OnCooldown | AlreadyInFlight | Started

  /** How the section of `request_out_link` between its awaits ends. */
  function RequestOutcome(v: LinkView, existing: Option<LinkStatus>, now: Seconds): Outcome {
    if ShouldReuse(existing) then Reused
    else if v.cooldownUntil > now then OnCooldown
    else if v.requestInFlight then AlreadyInFlight
    else Started
  }

  function BeginRequest(v: LinkView, now: Seconds): LinkView {
    v.(state := Pending, requestInFlight := true, linkAttemptTs := now,
       reconnectAttempts := (v.reconnectAttempts + 1) % U32_MODULUS)
  }

  function FinishRequest(v: LinkView): LinkView {
    v.(requestInFlight := false)
  }

  // ── Tasks ──────────────────────────────────────────────────────────────────

  /** A link request waits for the transport to look up the old link, then, if there is
      one, for its status (`Deciding`), then for the transport to make a link. */
  datatype RequestPc = Finding | Deciding | Linking

  /** The watchdog's visit to this peer: waiting for the transport's lookup, for the
      link's status, or for the transport to close the link. */
  datatype WatchdogPc = Idle | Seeking | Inspecting | Closing

  datatype Waiter = RequestTask(id: nat) | WatchdogTask

  /** `lock` is the transport's mutex: the tasks of this peer that hold or await it, in the
      order in which they will get it. The guard is held through the transport call. */
  datatype System = System(peer: LinkView, requests: map<nat, RequestPc>, watchdog: WatchdogPc, lock: seq<Waiter>)

  datatype Action =
    | NewRequest(id: nat)
    | LinkFound(id: nat)
    | Decide(id: nat, existing: Option<LinkStatus>)
    | LinkReturned(id: nat)
    | EventActivated
    | EventClosed
    | WatchdogVisit
    | WatchdogFound(found: bool)
    | WatchdogObserve(status: LinkStatus, ageSecs: nat)
    | WatchdogClosed(ok: bool)

  /** An action with the clock value its section reads. */
  datatype Step = Step(action: Action, now: Seconds)

  predicate InPhase(s: System, id: nat, pc: RequestPc) {
    id in s.requests && s.requests[id] == pc
  }

  predicate Holds(s: System, w: Waiter) {
    s.lock != [] && s.lock[0] == w
  }

  predicate Enabled(s: System, step: Step) {
    match step.action
    case NewRequest(id) => id !in s.requests
    case LinkFound(id) => InPhase(s, id, Finding) && Holds(s, RequestTask(id))
    case Decide(id, None) => InPhase(s, id, Finding) && Holds(s, RequestTask(id))
    case Decide(id, Some(_)) => InPhase(s, id, Deciding)
    case LinkReturned(id) => InPhase(s, id, Linking) && Holds(s, RequestTask(id))
    case EventActivated => true
    case EventClosed => true
    case WatchdogVisit => s.watchdog == Idle
    case WatchdogFound(_) => s.watchdog == Seeking && Holds(s, WatchdogTask)
    case WatchdogObserve(_, _) => s.watchdog == Inspecting
    case WatchdogClosed(_) => s.watchdog == Closing && Holds(s, WatchdogTask)
  }

  function Next(s: System, step: Step): System
    requires Enabled(s, step)
  {
    match step.action
    case NewRequest(id) => s.(requests := s.requests[id := Finding], lock := s.lock + [RequestTask(id)])
    case LinkFound(id) => s.(requests := s.requests[id := Deciding], lock := s.lock[1..])
    case Decide(id, existing) =>
      var lock := if existing.None? then s.lock[1..] else s.lock;
      if RequestOutcome(s.peer, existing, step.now) == Started then
        s.(peer := BeginRequest(s.peer, step.now), requests := s.requests[id := Linking],
           lock := lock + [RequestTask(id)])
      else
        s.(requests := s.requests - {id}, lock := lock)
    case LinkReturned(id) =>
      s.(peer := FinishRequest(s.peer), requests := s.requests - {id}, lock := s.lock[1..])
    case EventActivated => s.(peer := SeenActive(s.peer))
    case EventClosed => s.(peer := CloseWithCooldown(s.peer, step.now))
    case WatchdogVisit => s.(watchdog := Seeking, lock := s.lock + [WatchdogTask])
    case WatchdogFound(found) => s.(watchdog := if found then Inspecting else Idle, lock := s.lock[1..])
    case WatchdogObserve(status, age) =>
      if NeedsReset(status, age) then
        s.(peer := SyncStatus(s.peer, status), watchdog := Closing, lock := s.lock + [WatchdogTask])
      else
        s.(peer := SyncStatus(s.peer, status), watchdog := Idle)
    case WatchdogClosed(ok) =>
      s.(peer := if ok then CloseWithCooldown(s.peer, step.now) else s.peer, watchdog := Idle, lock := s.lock[1..])
  }

  /** `states` are the systems before and after each of `steps`. */
  ghost predicate IsRun(states: seq<System>, steps: seq<Step>) {
    && |states| == |steps| + 1
    && !states[0].peer.state.Active?
    && states[0] == System(FreshLink(states[0].peer.state), map[], Idle, [])
    && (forall i :: 0 <= i < |steps| ==> StepAt(states, steps, i))
    && (forall i, j :: 0 <= i <= j < |steps| ==> steps[i].now <= steps[j].now)
  }

  ghost predicate StepAt(states: seq<System>, steps: seq<Step>, i: nat)
    requires |states| == |steps| + 1 && i < |steps|
  {
    Enabled(states[i], steps[i]) && states[i + 1] == Next(states[i], steps[i])
  }

  /** A link attempt begins: the transport knows no link of the peer or a closed one, the
      cooldown is over and no request is in flight. */
  predicate Begins(s: System, step: Step) {
    && step.action.Decide? && (step.action.existing == None || step.action.existing == Some(LinkClosed))
    && s.peer.cooldownUntil <= step.now && !s.peer.requestInFlight
  }

  predicate SeesActive(step: Step) {
    step.action == EventActivated || (step.action.WatchdogObserve? && step.action.status == LinkActive)
  }

  predicate Closes(step: Step) {
    step.action == EventClosed || step.action == WatchdogClosed(true)
  }

  // ── How a request decides ──────────────────────────────────────────────────

  /** The outcome by the status the transport reported. A pending, handshaking, active or
      stale link is kept; otherwise the cooldown comes before the flag. */
  lemma OutcomeExactly(v: LinkView, existing: Option<LinkStatus>, now: Seconds)
    ensures existing in {Some(LinkPending), Some(LinkHandshake), Some(LinkActive), Some(LinkStale)} <==>
              RequestOutcome(v, existing, now) == Reused
    ensures existing == None || existing == Some(LinkClosed) ==>
              RequestOutcome(v, existing, now) ==
                if now < v.cooldownUntil then OnCooldown else if v.requestInFlight then AlreadyInFlight else Started
  {
  }

  /** On every run a decision begins an attempt exactly under that condition; it then sets
      the state, counts the attempt, stamps it and takes the flag. Any other decision, such
      as one that finds a usable link, leaves all fields of the peer as they are. */
  lemma DecisionExactly(states: seq<System>, steps: seq<Step>, k: nat)
    requires IsRun(states, steps) && k < |steps| && steps[k].action.Decide?
    ensures var id, v, now := steps[k].action.id, states[k].peer, steps[k].now;
            if Begins(states[k], steps[k]) then
              && InPhase(states[k + 1], id, Linking)
              && states[k + 1].peer == LinkView(Pending, (v.reconnectAttempts + 1) % 0x1_0000_0000, now, true, v.cooldownUntil)
            else
              id !in states[k + 1].requests && states[k + 1].peer == v
  {
    assert StepAt(states, steps, k);
    OutcomeExactly(states[k].peer, steps[k].action.existing, steps[k].now);
  }

  /** A link that the transport reports as pending, in handshake, active or stale keeps the
      peer as it is. */
  lemma UsableLinkKept(states: seq<System>, steps: seq<Step>, k: nat)
    requires IsRun(states, steps) && k < |steps| && steps[k].action.Decide?
    requires steps[k].action.existing in {Some(LinkPending), Some(LinkHandshake), Some(LinkActive), Some(LinkStale)}
    ensures states[k + 1].peer == states[k].peer && steps[k].action.id !in states[k + 1].requests
  {
    DecisionExactly(states, steps, k);
  }

  // ── The queue of the mutex ─────────────────────────────────────────────────

  predicate Waits(s: System, w: Waiter) {
    match w
    case RequestTask(id) => InPhase(s, id, Finding) || InPhase(s, id, Linking)
    case WatchdogTask => s.watchdog == Seeking || s.watchdog == Closing
  }

  ghost predicate QueueOk(s: System) {
    && (forall w :: w in s.lock <==> Waits(s, w))
    && NoRepeats(s.lock)
  }

  /** The queue after the head has left, if it does, and a task has joined, if one does. */
  lemma QueueMoves(lock: seq<Waiter>, leaves: bool, joins: seq<Waiter>)
    requires NoRepeats(lock) && (leaves ==> lock != []) && |joins| <= 1
    requires forall w :: w in joins ==> w !in lock || (leaves && w == lock[0])
    ensures var lock' := (if leaves then lock[1..] else lock) + joins;
            && NoRepeats(lock')
            && forall w :: w in lock' <==> w in joins || (w in lock && !(leaves && w == lock[0]))
  {
    if leaves {
      assert lock == [lock[0]] + lock[1..];
      assert lock[0] !in lock[1..];
    }
    var rest := if leaves then lock[1..] else lock;
    assert forall w :: w in rest <==> w in lock && !(leaves && w == lock[0]);
    assert NoRepeats(rest);
    if joins != [] {
      assert joins == [joins[0]] && joins[0] in joins;
      forall i | 0 <= i < |rest| ensures rest[i] != joins[0] {
        assert rest[i] in rest;
      }
    }
  }

  lemma StepKeepsQueue(s: System, step: Step)
    requires QueueOk(s) && Enabled(s, step)
    ensures QueueOk(Next(s, step))
  {
    var s' := Next(s, step);
    var leaves := Releases(s, step);
    var joins := Joins(s, step);
    assert leaves ==> s.lock != [] && s.lock[0] in s.lock;
    assert joins != [] ==> Waits(s, joins[0]) ==> leaves && joins[0] == s.lock[0];
    QueueMoves(s.lock, leaves, joins);
    assert s'.lock == (if leaves then s.lock[1..] else s.lock) + joins;
    WaitersMove(s, step);
  }

  /** Does the section run under the guard and drop it? */
  predicate Releases(s: System, step: Step) {
    match step.action
    case LinkFound(_) => true
    case LinkReturned(_) => true
    case Decide(_, existing) => existing.None?
    case WatchdogFound(_) => true
    case WatchdogClosed(_) => true
    case _ => false
  }

  /** The task that asks for the mutex at the end of the section. */
  function Joins(s: System, step: Step): seq<Waiter> {
    match step.action
    case NewRequest(id) => [RequestTask(id)]
    case Decide(id, _) => if Begins(s, step) then [RequestTask(id)] else []
    case WatchdogVisit => [WatchdogTask]
    case WatchdogObserve(status, age) => if NeedsReset(status, age) then [WatchdogTask] else []
    case _ => []
  }

  lemma WaitersMove(s: System, step: Step)
    requires QueueOk(s) && Enabled(s, step)
    ensures forall w :: Waits(Next(s, step), w) <==>
              w in Joins(s, step) || (Waits(s, w) && !(Releases(s, step) && w == s.lock[0]))
  {
  }

  /** Exactly the tasks that wait for the transport are in its queue, each once. */
  lemma {:induction false} QueueAlwaysOk(states: seq<System>, steps: seq<Step>, k: nat)
    requires IsRun(states, steps) && k < |states|
    ensures QueueOk(states[k])
  {
    if k > 0 {
      QueueAlwaysOk(states, steps, k - 1);
      assert StepAt(states, steps, k - 1);
      StepKeepsQueue(states[k - 1], steps[k - 1]);
    }
  }

  /** The tasks of one peer do not lock each other out: the first of them can go on once it
      has the guard. */
  lemma HeadCanGoOn(states: seq<System>, steps: seq<Step>, k: nat, now: Seconds) returns (step: Step)
    requires IsRun(states, steps) && k < |states| && states[k].lock != []
    ensures step.now == now && Enabled(states[k], step)
    ensures Next(states[k], step).lock == states[k].lock[1..]
  {
    QueueAlwaysOk(states, steps, k);
    var s := states[k];
    assert s.lock[0] in s.lock;
    step := match s.lock[0]
      case RequestTask(id) => Step(if s.requests[id] == Finding then LinkFound(id) else LinkReturned(id), now)
      case WatchdogTask => Step(if s.watchdog == Seeking then WatchdogFound(false) else WatchdogClosed(true), now);
  }

  ghost predicate Before(lock: seq<Waiter>, first: Waiter, second: Waiter) {
    exists i, j :: 0 <= i < j < |lock| && lock[i] == first && lock[j] == second
  }

  /** What the mutex does guarantee: a request spawned while another one is linking stays
      behind it in the queue, so it decides only after that attempt has come back. */
  lemma {:induction false} NewcomerWaits(states: seq<System>, steps: seq<Step>, n: nat, k: nat, id: nat, newcomer: nat)
    requires IsRun(states, steps) && n < k < |states| && steps[n].action == NewRequest(newcomer)
    requires forall m :: n <= m <= k ==> InPhase(states[m], id, Linking)
    ensures InPhase(states[k], newcomer, Finding)
    ensures Before(states[k].lock, RequestTask(id), RequestTask(newcomer))
    decreases k
  {
    var s, step := states[k - 1], steps[k - 1];
    assert StepAt(states, steps, k - 1);
    QueueAlwaysOk(states, steps, k - 1);
    assert InPhase(s, id, Linking) && InPhase(states[k], id, Linking);
    if n == k - 1 {
      assert Waits(s, RequestTask(id));
      var i :| 0 <= i < |s.lock| && s.lock[i] == RequestTask(id);
      assert states[k].lock[i] == RequestTask(id) && states[k].lock[|s.lock|] == RequestTask(newcomer);
    } else {
      NewcomerWaits(states, steps, n, k - 1, id, newcomer);
      StaysBefore(s, step, id, newcomer);
    }
  }

  lemma StaysBefore(s: System, step: Step, id: nat, newcomer: nat)
    requires QueueOk(s) && Enabled(s, step) && InPhase(s, id, Linking) && InPhase(Next(s, step), id, Linking)
    requires InPhase(s, newcomer, Finding) && Before(s.lock, RequestTask(id), RequestTask(newcomer))
    ensures InPhase(Next(s, step), newcomer, Finding)
    ensures Before(Next(s, step).lock, RequestTask(id), RequestTask(newcomer))
  {
    var i, j :| 0 <= i < j < |s.lock| && s.lock[i] == RequestTask(id) && s.lock[j] == RequestTask(newcomer);
    var lock' := Next(s, step).lock;
    assert s.lock[0] != RequestTask(newcomer);
    if |lock'| >= |s.lock| && lock'[..|s.lock|] == s.lock {
      assert lock'[i] == lock'[..|s.lock|][i] && lock'[j] == lock'[..|s.lock|][j];
    } else {
      assert lock'[..|s.lock| - 1] == s.lock[1..];
      assert lock'[i - 1] == lock'[..|s.lock| - 1][i - 1] && lock'[j - 1] == lock'[..|s.lock| - 1][j - 1];
    }
  }

  // ── A peer in state Active is quiet ────────────────────────────────────────

  predicate ActiveIsClean(v: LinkView) {
    v.state == Active ==> v == FreshLink(Active)
  }

  /** On every interleaving, an Active peer has no attempts, no attempt timestamp, no
      cooldown and no request in flight. */
  lemma {:induction false} ActiveAlwaysClean(states: seq<System>, steps: seq<Step>, k: nat)
    requires IsRun(states, steps) && k < |states|
    ensures ActiveIsClean(states[k].peer)
  {
    if k > 0 {
      ActiveAlwaysClean(states, steps, k - 1);
      assert StepAt(states, steps, k - 1);
    }
  }

  // ── Cooldown after a close ─────────────────────────────────────────────────

  /** After a Closed event or watchdog reset at time t, no attempt begins before t + 3
      (in saturating arithmetic) unless the link was seen active in between. */
  lemma CooldownRespected(states: seq<System>, steps: seq<Step>, i: nat, j: nat)
    requires IsRun(states, steps) && i < j < |steps|
    requires Closes(steps[i]) && Begins(states[j], steps[j])
    requires forall m :: i < m < j ==> !SeesActive(steps[m])
    ensures steps[j].now >= SaturatingAdd(steps[i].now, LINK_RECONNECT_COOLDOWN_SECS)
  {
    CooldownHolds(states, steps, i, j);
  }

  lemma {:induction false} CooldownHolds(states: seq<System>, steps: seq<Step>, i: nat, j: nat)
    requires IsRun(states, steps) && i < j < |states|
    requires Closes(steps[i])
    requires forall m :: i < m < j ==> !SeesActive(steps[m])
    ensures states[j].peer.cooldownUntil >= SaturatingAdd(steps[i].now, LINK_RECONNECT_COOLDOWN_SECS)
    decreases j
  {
    assert StepAt(states, steps, j - 1);
    if i + 1 < j {
      CooldownHolds(states, steps, i, j - 1);
      assert !SeesActive(steps[j - 1]);
      assert steps[i].now <= steps[j - 1].now;
    }
  }

  // ── Counting attempts ──────────────────────────────────────────────────────

  /** Attempts begun in the first `k` steps since the link was last seen active. */
  ghost function AttemptsSinceActive(states: seq<System>, steps: seq<Step>, k: nat): nat
    requires |states| == |steps| + 1 && k <= |steps|
  {
    if k == 0 then 0
    else if SeesActive(steps[k - 1]) then 0
    else AttemptsSinceActive(states, steps, k - 1) + (if Begins(states[k - 1], steps[k - 1]) then 1 else 0)
  }

  /** The counter is that number, wrapped at 32 bits. */
  lemma {:induction false} AttemptCounterExact(states: seq<System>, steps: seq<Step>, k: nat)
    requires IsRun(states, steps) && k <= |steps|
    ensures states[k].peer.reconnectAttempts == AttemptsSinceActive(states, steps, k) % U32_MODULUS
  {
    if k > 0 {
      AttemptCounterExact(states, steps, k - 1);
      assert StepAt(states, steps, k - 1);
    }
  }

  /** The start of the attempt under way in the first `k` steps, 0 if there is none. */
  ghost function AttemptStart(states: seq<System>, steps: seq<Step>, k: nat): nat
    requires |states| == |steps| + 1 && k <= |steps|
  {
    if k == 0 || SeesActive(steps[k - 1]) || Closes(steps[k - 1]) then 0
    else if Begins(states[k - 1], steps[k - 1]) then steps[k - 1].now
    else AttemptStart(states, steps, k - 1)
  }

  /** The stored timestamp is that start: a new attempt restarts the clock, and an
      activation or a close clears it. */
  lemma {:induction false} AttemptStampExact(states: seq<System>, steps: seq<Step>, k: nat)
    requires IsRun(states, steps) && k <= |steps|
    ensures states[k].peer.linkAttemptTs == AttemptStart(states, steps, k)
  {
    if k > 0 {
      AttemptStampExact(states, steps, k - 1);
      assert StepAt(states, steps, k - 1);
    }
  }

  /** The end of the cooldown after the first `k` steps: three seconds after the last close,
      up to the largest timestamp, and 0 once the link was seen active. */
  ghost function CooldownEnd(steps: seq<Step>, k: nat): nat
    requires k <= |steps|
  {
    if k == 0 || SeesActive(steps[k - 1]) then 0
    else if Closes(steps[k - 1]) then
      if steps[k - 1].now + 3 <= U64_MAX then steps[k - 1].now + 3 else U64_MAX
    else CooldownEnd(steps, k - 1)
  }

  /** The stored cooldown is that. */
  lemma {:induction false} CooldownExact(states: seq<System>, steps: seq<Step>, k: nat)
    requires IsRun(states, steps) && k <= |steps|
    ensures states[k].peer.cooldownUntil == CooldownEnd(steps, k)
  {
    if k > 0 {
      CooldownExact(states, steps, k - 1);
      assert StepAt(states, steps, k - 1);
    }
  }

  /** The flag after the first `k` steps: taken by an attempt, given back by a returning
      transport call, a close, or a sighting of the link as active or closed. */
  ghost function FlagTaken(states: seq<System>, steps: seq<Step>, k: nat): bool
    requires |states| == |steps| + 1 && k <= |steps|
  {
    if k == 0 then false
    else if Begins(states[k - 1], steps[k - 1]) then true
    else if ClearsFlag(steps[k - 1]) || steps[k - 1].action.LinkReturned? then false
    else FlagTaken(states, steps, k - 1)
  }

  /** The stored flag is that. */
  lemma {:induction false} FlagExact(states: seq<System>, steps: seq<Step>, k: nat)
    requires IsRun(states, steps) && k <= |steps|
    ensures states[k].peer.requestInFlight == FlagTaken(states, steps, k)
  {
    if k > 0 {
      FlagExact(states, steps, k - 1);
      assert StepAt(states, steps, k - 1);
    }
  }

  /** The state that the last telling section of the first `k` steps stands for. */
  ghost function StateTold(states: seq<System>, steps: seq<Step>, k: nat): LinkState
    requires |states| == |steps| + 1 && k <= |steps|
  {
    if k == 0 then states[0].peer.state
    else
      var step := steps[k - 1];
      if SeesActive(step) then Active
      else if Closes(step) || (step.action.WatchdogObserve? && step.action.status == LinkClosed) then Closed
      else if Begins(states[k - 1], step) || step.action.WatchdogObserve? then Pending
      else StateTold(states, steps, k - 1)
  }

  /** The stored state is that. */
  lemma {:induction false} StateExact(states: seq<System>, steps: seq<Step>, k: nat)
    requires IsRun(states, steps) && k <= |steps|
    ensures states[k].peer.state == StateTold(states, steps, k)
  {
    if k > 0 {
      StateExact(states, steps, k - 1);
      assert StepAt(states, steps, k - 1);
    }
  }

  // ── When a peer counts as active ───────────────────────────────────────────

  /** A section that moves the peer out of state Active. */
  predicate Deactivates(s: System, step: Step) {
    Begins(s, step) || Closes(step) || (step.action.WatchdogObserve? && step.action.status != LinkActive)
  }

  ghost predicate ActiveSince(states: seq<System>, steps: seq<Step>, i: nat, k: nat)
    requires |states| == |steps| + 1 && k <= |steps|
  {
    i < k && SeesActive(steps[i]) && forall j :: i < j < k ==> !Deactivates(states[j], steps[j])
  }

  /** A peer is in state Active exactly if the link was seen active and no section has
      moved it away since. Only then does TUN traffic go out without backoff. */
  lemma {:induction false} ActiveExactly(states: seq<System>, steps: seq<Step>, k: nat)
    requires IsRun(states, steps) && k <= |steps|
    ensures states[k].peer.state == Active <==> exists i: nat :: ActiveSince(states, steps, i, k)
  {
    if k > 0 {
      ActiveExactly(states, steps, k - 1);
      var s, step := states[k - 1], steps[k - 1];
      assert StepAt(states, steps, k - 1);
      if SeesActive(step) {
        assert ActiveSince(states, steps, k - 1, k);
      } else if states[k].peer.state == Active {
        var i: nat :| ActiveSince(states, steps, i, k - 1);
        assert ActiveSince(states, steps, i, k);
      } else if i: nat :| ActiveSince(states, steps, i, k) {
        assert ActiveSince(states, steps, i, k - 1);
      }
    }
  }

  // ── The watchdog ───────────────────────────────────────────────────────────

  predicate IsWatchdog(step: Step) {
    || step.action.WatchdogVisit? || step.action.WatchdogFound?
    || step.action.WatchdogObserve? || step.action.WatchdogClosed?
  }

  /** The watchdog closes a link only after it saw it pending or in handshake for at
      least ten seconds, on that same visit. */
  lemma {:induction false} ClosesOnlyStuck(states: seq<System>, steps: seq<Step>, k: nat) returns (i: nat)
    requires IsRun(states, steps) && k < |states| && states[k].watchdog == Closing
    ensures i < k && steps[i].action.WatchdogObserve?
    ensures (steps[i].action.status.LinkPending? || steps[i].action.status.LinkHandshake?)
            && steps[i].action.ageSecs >= LINK_PENDING_TIMEOUT_SECS
    ensures forall j :: i < j < k ==> !IsWatchdog(steps[j])
  {
    assert k > 0;
    assert StepAt(states, steps, k - 1);
    i := k - 1;
    if !steps[i].action.WatchdogObserve? {
      i := ClosesOnlyStuck(states, steps, k - 1);
    }
  }

  /** And it always does: on seeing such a link it goes on to close it, and only then. */
  lemma StuckIsClosed(states: seq<System>, steps: seq<Step>, k: nat)
    requires IsRun(states, steps) && k < |steps| && steps[k].action.WatchdogObserve?
    ensures states[k + 1].watchdog == Closing <==>
              steps[k].action.status in {LinkPending, LinkHandshake} && steps[k].action.ageSecs >= 10
    ensures states[k + 1].watchdog != Closing ==> states[k + 1].watchdog == Idle
  {
    assert StepAt(states, steps, k);
  }

  // ── The in-flight flag ─────────────────────────────────────────────────────

  ghost predicate SomeLinking(s: System) {
    exists id: nat :: InPhase(s, id, Linking)
  }

  /** At most one request has begun a link that has not come back. */
  ghost predicate OneLinking(s: System) {
    forall a: nat, b: nat :: InPhase(s, a, Linking) && InPhase(s, b, Linking) ==> a == b
  }

  /** As long as the flag is set, a request is waiting for the transport that clears it
      when its call returns. */
  lemma {:induction false} FlagHasOwner(states: seq<System>, steps: seq<Step>, k: nat)
    requires IsRun(states, steps) && k < |states|
    ensures states[k].peer.requestInFlight ==> SomeLinking(states[k])
  {
    if k > 0 {
      FlagHasOwner(states, steps, k - 1);
      var s, s' := states[k - 1], states[k];
      assert StepAt(states, steps, k - 1);
      if s'.peer.requestInFlight {
        if Begins(s, steps[k - 1]) {
          assert InPhase(s', steps[k - 1].action.id, Linking);
        } else {
          var id: nat :| InPhase(s, id, Linking);
          assert InPhase(s', id, Linking);
        }
      }
    }
  }

  /** So once no request is linking and the cooldown is over, the next one starts. */
  lemma NoWedge(states: seq<System>, steps: seq<Step>, k: nat, existing: Option<LinkStatus>, now: Seconds)
    requires IsRun(states, steps) && k < |states|
    requires !SomeLinking(states[k]) && states[k].peer.cooldownUntil <= now
    requires existing == None || existing == Some(LinkClosed)
    ensures RequestOutcome(states[k].peer, existing, now) == Started
  {
    FlagHasOwner(states, steps, k);
  }

  /** At most one request is linking, and the flag says whether. */
  ghost predicate Guarded(s: System) {
    OneLinking(s) && (s.peer.requestInFlight <==> SomeLinking(s))
  }

  /** Sections of other tasks that clear the flag. */
  predicate ClearsFlag(step: Step) {
    || SeesActive(step)
    || Closes(step)
    || (step.action.WatchdogObserve? && step.action.status == LinkClosed)
  }

  /** The flag keeps telling the truth over a step exactly when the step is not one of
      those sections run while a request is linking. */
  lemma GuardKeptExactly(s: System, step: Step)
    requires Guarded(s) && Enabled(s, step)
    ensures Guarded(Next(s, step)) <==> !(ClearsFlag(step) && SomeLinking(s))
  {
    var s' := Next(s, step);
    if SomeLinking(s) {
      var id: nat :| InPhase(s, id, Linking);
      assert !step.action.LinkReturned? ==> InPhase(s', id, Linking);
    }
    assert Begins(s, step) ==> InPhase(s', step.action.id, Linking);
    LinkingFrom(s, step);
  }

  /** Only a request that begins starts to link. */
  lemma LinkingFrom(s: System, step: Step)
    requires Enabled(s, step)
    ensures forall id: nat :: InPhase(Next(s, step), id, Linking) ==>
              InPhase(s, id, Linking) || (Begins(s, step) && step.action.id == id)
  {
  }

  // ── When link attempts overlap ─────────────────────────────────────────────

  /** The flag was cleared by another task at step `i` while request `id` was linking, and
      another request began at step `j` before `id` came back. */
  ghost predicate Breach(states: seq<System>, steps: seq<Step>, i: nat, j: nat, id: nat)
    requires |states| == |steps| + 1
  {
    && i < j < |steps| && ClearsFlag(steps[i]) && Begins(states[j], steps[j])
    && forall m :: i <= m <= j ==> InPhase(states[m], id, Linking)
  }

  ghost predicate OneLinkingUntil(states: seq<System>, k: nat)
    requires k < |states|
  {
    forall m :: 0 <= m <= k ==> OneLinking(states[m])
  }

  /** If nothing has overlapped so far and a request is linking without the flag, then a
      section of another task cleared the flag during that request. */
  lemma {:induction false} ClearedWhileLinking(states: seq<System>, steps: seq<Step>, k: nat, id: nat) returns (i: nat)
    requires IsRun(states, steps) && k < |states| && OneLinkingUntil(states, k)
    requires InPhase(states[k], id, Linking) && !states[k].peer.requestInFlight
    ensures i < k && ClearsFlag(steps[i]) && forall m :: i <= m <= k ==> InPhase(states[m], id, Linking)
  {
    assert k > 0;
    var s, step := states[k - 1], steps[k - 1];
    assert StepAt(states, steps, k - 1);
    assert OneLinking(s);
    assert InPhase(s, id, Linking);
    if s.peer.requestInFlight {
      i := k - 1;
    } else {
      i := ClearedWhileLinking(states, steps, k - 1, id);
    }
  }

  /** A request that begins while another is linking overlaps it. */
  lemma BeginOverlaps(s: System, step: Step, id: nat)
    requires Enabled(s, step) && Begins(s, step) && InPhase(s, id, Linking)
    ensures !OneLinking(Next(s, step))
  {
    var s' := Next(s, step);
    assert InPhase(s', id, Linking) && InPhase(s', step.action.id, Linking);
  }

  /** The first overlap comes from a request that began while another was linking. */
  lemma OverlapBegins(s: System, step: Step) returns (id: nat)
    requires Enabled(s, step) && OneLinking(s) && !OneLinking(Next(s, step))
    ensures Begins(s, step) && InPhase(s, id, Linking)
  {
    var s' := Next(s, step);
    var a: nat, b: nat :| InPhase(s', a, Linking) && InPhase(s', b, Linking) && a != b;
    LinkingFrom(s, step);
    assert InPhase(s, a, Linking) || InPhase(s, b, Linking);
    id := if InPhase(s, a, Linking) then a else b;
  }

  /** Link attempts of a peer do not overlap on a run exactly when no event or watchdog
      section clears the flag during an attempt that outlives the begin of the next. */
  lemma {:induction false} NoOverlapExactly(states: seq<System>, steps: seq<Step>, k: nat)
    requires IsRun(states, steps) && k < |states|
    ensures OneLinkingUntil(states, k) <==> !exists i: nat, j: nat, id: nat :: j < k && Breach(states, steps, i, j, id)
  {
    if k > 0 {
      NoOverlapExactly(states, steps, k - 1);
      var s, step := states[k - 1], steps[k - 1];
      assert StepAt(states, steps, k - 1);
      if OneLinkingUntil(states, k - 1) {
        if !OneLinking(states[k]) {
          assert OneLinking(s);
          var id := OverlapBegins(s, step);
          var i := ClearedWhileLinking(states, steps, k - 1, id);
          assert Breach(states, steps, i, k - 1, id);
        } else if i: nat, j: nat, id: nat :| j < k && Breach(states, steps, i, j, id) {
          assert j == k - 1;
          assert InPhase(states[j], id, Linking);
          BeginOverlaps(s, step, id);
        }
      }
    }
  }

  /** Attempts do overlap: both requests have found the old link closed before either
      decides, and the watchdog, on a visit of its own, clears the flag in between. The
      two transport calls then follow each other in the queue of the mutex. */
  lemma RequestsCanOverlap() returns (states: seq<System>, steps: seq<Step>)
    ensures IsRun(states, steps)
    ensures !OneLinking(Last(states))
    ensures Last(states).lock == [RequestTask(0), RequestTask(1)]
  {
    states, steps := [System(FreshLink(Discovered), map[], Idle, [])], [];
    states, steps := BothFindClosed(states, steps);
    states, steps := Extend(states, steps, Step(Decide(0, Some(LinkClosed)), 100));
    states, steps := Extend(states, steps, Step(WatchdogObserve(LinkClosed, 0), 100));
    states, steps := Extend(states, steps, Step(Decide(1, Some(LinkClosed)), 100));
    assert InPhase(Last(states), 0, Linking) && InPhase(Last(states), 1, Linking);
  }

  lemma BothFindClosed(states: seq<System>, steps: seq<Step>) returns (states': seq<System>, steps': seq<Step>)
    requires steps == [] && IsRun(states, steps)
    ensures IsRun(states', steps') && (steps' == [] || steps'[|steps'| - 1].now == 100)
    ensures Last(states') == System(states[0].peer, map[0 := Deciding, 1 := Deciding], Inspecting, [])
  {
    states', steps' := Extend(states, steps, Step(NewRequest(0), 100));
    states', steps' := Extend(states', steps', Step(NewRequest(1), 100));
    states', steps' := Extend(states', steps', Step(WatchdogVisit, 100));
    states', steps' := Extend(states', steps', Step(LinkFound(0), 100));
    states', steps' := Extend(states', steps', Step(LinkFound(1), 100));
    states', steps' := Extend(states', steps', Step(WatchdogFound(true), 100));
  }

  function Last(states: seq<System>): System
    requires states != []
  {
    states[|states| - 1]
  }

  lemma Extend(states: seq<System>, steps: seq<Step>, step: Step) returns (states': seq<System>, steps': seq<Step>)
    requires IsRun(states, steps) && Enabled(Last(states), step)
    requires steps == [] || steps[|steps| - 1].now <= step.now
    ensures IsRun(states', steps') && steps' == steps + [step]
    ensures Last(states') == Next(Last(states), step)
  {
    states', steps' := states + [Next(Last(states), step)], steps + [step];
    forall i | 0 <= i < |steps'| ensures StepAt(states', steps', i) {
      assert i < |steps| ==> StepAt(states, steps, i);
    }
  }
}
