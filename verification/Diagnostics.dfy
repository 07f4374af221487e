/** The diagnostic state: which commands were seen, and the records of the current
    enable window.

    `Inner` is the locked structure as a value with one function per operation; the
    class performs them in place with the source's loops. The reference definitions are
    on the log of operations: the history of accepted commands and the session. */
module Diagnostics {
  import opened Common
  import opened Commands

  const SECOND: nat := 1_000_000_000
  const SEEN_COMMAND_RETENTION: nat := 86400 * SECOND
  const DEFAULT_MAX_SEEN_COMMANDS: nat := 2048
  /** The latest representable system time. */
  const MAX_TIME: nat := 0x7FFF_FFFF_FFFF_FFFF * SECOND + 999_999_999

  /** Nanoseconds since the epoch. */
  type Time = nat

  datatype Entry = Entry(
    remotePeerHash: string,
    channelPort: nat,
    uid: string,
    callsign: Option<string>,
    eventType: string,
    point: Option<(real, real)>,
    observedAt: Time)

  datatype Status = Status(enabled: bool, remainingSeconds: nat, recordCount: nat)

  datatype Inner = Inner(enabledUntil: Option<Time>, records: seq<Entry>, seen: map<string, Time>, order: seq<string>)

  const FRESH_INNER := Inner(None, [], map[], [])

  // ── Operations on values ───────────────────────────────────────────────────

  /** The front command stays: known, and not older than the retention period. */
  predicate Keep(seen: map<string, Time>, id: string, now: Time) {
    id in seen && (now <= seen[id] || now - seen[id] <= SEEN_COMMAND_RETENTION)
  }

  function PopSeen(d: Inner): Inner
    requires d.order != []
  {
    d.(order := d.order[1..], seen := d.seen - {d.order[0]})
  }

  function PruneSeen(d: Inner, now: Time): Inner
    decreases |d.order|
  {
    if d.order == [] || Keep(d.seen, d.order[0], now) then d else PruneSeen(PopSeen(d), now)
  }

  function PruneWindow(d: Inner, now: Time): Inner {
    if d.enabledUntil.Some? && d.enabledUntil.value <= now then d.(enabledUntil := None, records := []) else d
  }

  /** `prune_locked`. */
  function Prune(d: Inner, now: Time): Inner {
    PruneSeen(PruneWindow(d, now), now)
  }

  /** `enforce_seen_bound_locked`. */
  function EnforceBound(d: Inner): Inner
    decreases |d.order|
  {
    if |d.seen| <= DEFAULT_MAX_SEEN_COMMANDS || d.order == [] then d else EnforceBound(PopSeen(d))
  }

  function CheckedAdd(now: Time, seconds: nat): Option<Time> {
    if now + seconds * SECOND <= MAX_TIME then Some(now + seconds * SECOND) else None
  }

  function WindowEnd(action: Action, now: Time): Option<Time> {
    match action
    case Enable(seconds) => CheckedAdd(now, seconds)
    case Disable => None
  }

  predicate IsNew(d: Inner, id: string, now: Time) {
    id !in Prune(d, now).seen
  }

  /** `apply_once_at`. */
  function Applied(d: Inner, c: Command, now: Time): Inner {
    var p := Prune(d, now);
    if !IsNew(d, c.id, now) then p
    else
      EnforceBound(p.(seen := p.seen[c.id := now], order := p.order + [c.id]))
        .(records := [], enabledUntil := WindowEnd(c.action, now))
  }

  /** `is_enabled_locked` after pruning. */
  predicate IsEnabled(d: Inner, now: Time) {
    var until := Prune(d, now).enabledUntil;
    until.Some? && until.value > now
  }

  function LastN<T>(s: seq<T>, n: nat): seq<T> {
    if |s| <= n then s else s[|s| - n..]
  }

  /** `record_remote_at` for a record observed now. */
  function Recorded(d: Inner, e: Entry, maxRecords: nat): Inner {
    var p := Prune(d, e.observedAt);
    if IsEnabled(d, e.observedAt) then p.(records := LastN(p.records + [e], maxRecords)) else p
  }

  /** `status_at`. */
  function StatusOf(d: Inner, now: Time): Status {
    var p := Prune(d, now);
    var remaining := if p.enabledUntil.Some? && p.enabledUntil.value >= now
                     then (p.enabledUntil.value - now) / SECOND else 0;
    Status(remaining > 0, remaining, |p.records|)
  }

  // ── The object ─────────────────────────────────────────────────────────────

  class DiagnosticState {
    var enabledUntil: Option<Time>
    var records: seq<Entry>
    var seenCommands: map<string, Time>
    var seenOrder: seq<string>
    const maxRecords: nat

    constructor (maxRecords: nat)
      ensures Contents() == FRESH_INNER
      ensures this.maxRecords == if maxRecords == 0 then 1 else maxRecords
    {
      enabledUntil, records, seenCommands, seenOrder := None, [], map[], [];
      this.maxRecords := if maxRecords == 0 then 1 else maxRecords;
    }

    function Contents(): Inner
      reads this
    {
      Inner(enabledUntil, records, seenCommands, seenOrder)
    }

    method PruneLocked(now: Time)
      modifies this
      ensures Contents() == Prune(old(Contents()), now)
    {
      if enabledUntil.Some? && enabledUntil.value <= now {
        enabledUntil := None;
        records := [];
      }
      while seenOrder != []
        invariant PruneSeen(Contents(), now) == Prune(old(Contents()), now)
        decreases |seenOrder|
      {
        var commandId := seenOrder[0];
        var keep := commandId in seenCommands &&
          (now <= seenCommands[commandId] || now - seenCommands[commandId] <= SEEN_COMMAND_RETENTION);
        if keep {
          break;
        }
        seenOrder := seenOrder[1..];
        seenCommands := seenCommands - {commandId};
      }
    }

    method EnforceSeenBoundLocked()
      modifies this`seenOrder, this`seenCommands
      ensures Contents() == EnforceBound(old(Contents()))
    {
      while |seenCommands| > DEFAULT_MAX_SEEN_COMMANDS
        invariant EnforceBound(Contents()) == EnforceBound(old(Contents()))
        invariant enabledUntil == old(enabledUntil) && records == old(records)
        decreases |seenOrder|
      {
        if seenOrder == [] {
          break;
        }
        var commandId := seenOrder[0];
        seenOrder := seenOrder[1..];
        seenCommands := seenCommands - {commandId};
      }
    }

    method ApplyOnceAt(command: Command, now: Time) returns (applied: bool)
      modifies this
      ensures applied == IsNew(old(Contents()), command.id, now)
      ensures Contents() == Applied(old(Contents()), command, now)
    {
      PruneLocked(now);
      if command.id in seenCommands {
        return false;
      }
      seenCommands := seenCommands[command.id := now];
      seenOrder := seenOrder + [command.id];
      EnforceSeenBoundLocked();
      match command.action {
        case Enable(seconds) =>
          records := [];
          enabledUntil := CheckedAdd(now, seconds);
        case Disable =>
          enabledUntil := None;
          records := [];
      }
      applied := true;
    }

    method RecordRemoteAt(e: Entry) returns (stored: bool)
      modifies this
      ensures stored == IsEnabled(old(Contents()), e.observedAt)
      ensures Contents() == Recorded(old(Contents()), e, maxRecords)
    {
      PruneLocked(e.observedAt);
      if !(enabledUntil.Some? && enabledUntil.value > e.observedAt) {
        return false;
      }
      records := records + [e];
      ghost var all := records;
      while |records| > maxRecords
        invariant LastN(records, maxRecords) == LastN(all, maxRecords)
        invariant Contents() == Prune(old(Contents()), e.observedAt).(records := records)
        decreases |records|
      {
        records := records[1..];
      }
      stored := true;
    }

    method StatusAt(now: Time) returns (status: Status)
      modifies this
      ensures status == StatusOf(old(Contents()), now) && Contents() == Prune(old(Contents()), now)
    {
      PruneLocked(now);
      var remaining := 0;
      if enabledUntil.Some? && enabledUntil.value >= now {
        remaining := (enabledUntil.value - now) / SECOND;
      }
      status := Status(remaining > 0, remaining, |records|);
    }

    /** Newest first. */
    method RecentAt(limit: nat, now: Time) returns (recent: seq<Entry>)
      modifies this
      ensures Contents() == Prune(old(Contents()), now)
      ensures |recent| == if limit < |records| then limit else |records|
      ensures forall i :: 0 <= i < |recent| ==> recent[i] == records[|records| - 1 - i]
    {
      PruneLocked(now);
      recent := [];
      while |recent| < limit && |recent| < |records|
        invariant Contents() == Prune(old(Contents()), now)
        invariant |recent| <= limit && |recent| <= |records|
        invariant forall i :: 0 <= i < |recent| ==> recent[i] == records[|records| - 1 - i]
      {
        recent := recent + [records[|records| - 1 - |recent|]];
      }
    }
  }

  // ── The log and its reference meaning ──────────────────────────────────────

  datatype Op = Apply(command: Command, now: Time) | Record(entry: Entry) | Look(now: Time)

  function OpTime(op: Op): Time {
    match op
    case Apply(_, now) => now
    case Record(e) => e.observedAt
    case Look(now) => now
  }

  /** The time of the last operation. */
  ghost function LastTime(log: seq<Op>): Time {
    if log == [] then 0 else OpTime(log[|log| - 1])
  }

  /** The clock never goes backwards. */
  ghost predicate Monotone(log: seq<Op>) {
    forall i, j :: 0 <= i <= j < |log| ==> OpTime(log[i]) <= OpTime(log[j])
  }

  /** The structure after the operations of the log. */
  ghost function After(log: seq<Op>, maxRecords: nat): Inner {
    if log == [] then FRESH_INNER
    else
      var d, op := After(log[..|log| - 1], maxRecords), log[|log| - 1];
      match op
      case Apply(c, now) => Applied(d, c, now)
      case Record(e) => Recorded(d, e, maxRecords)
      case Look(now) => Prune(d, now)
  }

  /** Does the last operation of the log apply a command that was new? */
  ghost predicate Accepts(log: seq<Op>, maxRecords: nat)
    requires log != []
  {
    var op := log[|log| - 1];
    op.Apply? && IsNew(After(log[..|log| - 1], maxRecords), op.command.id, op.now)
  }

  datatype Stamp = Stamp(id: string, at: Time)

  /** The accepted commands, oldest first. */
  ghost function History(log: seq<Op>, maxRecords: nat): seq<Stamp> {
    if log == [] then []
    else
      var earlier, op := History(log[..|log| - 1], maxRecords), log[|log| - 1];
      if Accepts(log, maxRecords) then earlier + [Stamp(op.command.id, op.now)] else earlier
  }

  /** The id is among the last 2048 accepted commands that are at most 24 h old. */
  ghost predicate InWindow(h: seq<Stamp>, id: string, now: Time) {
    exists i :: 0 <= i < |h| && |h| - 2048 <= i
                && h[i].id == id && now - h[i].at <= 24 * 3600 * 1_000_000_000
  }

  // ── The seen commands ──────────────────────────────────────────────────────

  /** Map and deque agree and hold the stamps from position `k` of the history on. */
  ghost predicate Tracks(d: Inner, h: seq<Stamp>, k: nat) {
    && k <= |h| && |d.order| == |h| - k
    && (forall i :: k <= i < |h| ==> d.order[i - k] == h[i].id && h[i].id in d.seen && d.seen[h[i].id] == h[i].at)
    && (forall id :: id in d.seen <==> id in d.order)
    && NoRepeats(d.order)
  }

  ghost predicate SortedStamps(h: seq<Stamp>, last: Time) {
    && (forall i, j :: 0 <= i <= j < |h| ==> h[i].at <= h[j].at)
    && (forall i :: 0 <= i < |h| ==> h[i].at <= last)
  }

  /** What was dropped is too old, or has 2048 later commands after it. */
  ghost predicate DroppedRightly(h: seq<Stamp>, k: nat, last: Time)
    requires k <= |h|
  {
    forall i :: 0 <= i < k ==> i < |h| - DEFAULT_MAX_SEEN_COMMANDS || last - h[i].at > SEEN_COMMAND_RETENTION
  }

  lemma {:induction false} SeenSize(order: seq<string>, seen: set<string>)
    requires NoRepeats(order) && forall id :: id in seen <==> id in order
    ensures |seen| == |order|
  {
    if order == [] {
      assert seen == {};
    } else {
      var last := order[|order| - 1];
      SeenSize(order[..|order| - 1], seen - {last});
    }
  }

  lemma PopTracks(d: Inner, h: seq<Stamp>, k: nat)
    requires Tracks(d, h, k) && d.order != []
    ensures Tracks(PopSeen(d), h, k + 1) && d.order[0] == h[k].id
  {
    var p := PopSeen(d);
    forall id ensures id in p.seen <==> id in p.order {
      if id in p.seen {
        var i :| 0 <= i < |d.order| && d.order[i] == id;
        assert p.order[i - 1] == id;
      }
    }
  }

  lemma {:induction false} PruneTracks(d: Inner, h: seq<Stamp>, k: nat, now: Time) returns (k': nat)
    requires Tracks(d, h, k)
    ensures k <= k' && Tracks(PruneSeen(d, now), h, k')
    ensures forall i :: k <= i < k' ==> now - h[i].at > SEEN_COMMAND_RETENTION
    ensures k' < |h| ==> now - h[k'].at <= SEEN_COMMAND_RETENTION
    decreases |d.order|
  {
    if d.order == [] || Keep(d.seen, d.order[0], now) {
      k' := k;
    } else {
      PopTracks(d, h, k);
      k' := PruneTracks(PopSeen(d), h, k + 1, now);
    }
  }

  lemma {:induction false} BoundTracks(d: Inner, h: seq<Stamp>, k: nat) returns (k': nat)
    requires Tracks(d, h, k)
    ensures k <= k' && Tracks(EnforceBound(d), h, k') && |h| - k' <= DEFAULT_MAX_SEEN_COMMANDS
    ensures k' == k || k' <= |h| - DEFAULT_MAX_SEEN_COMMANDS
    decreases |d.order|
  {
    SeenSize(d.order, d.seen.Keys);
    if |d.seen| <= DEFAULT_MAX_SEEN_COMMANDS || d.order == [] {
      k' := k;
    } else {
      PopTracks(d, h, k);
      k' := BoundTracks(PopSeen(d), h, k + 1);
    }
  }

  lemma PruneKeepsSeenPart(d: Inner, h: seq<Stamp>, k: nat, now: Time)
    requires Tracks(d, h, k)
    ensures Tracks(PruneWindow(d, now), h, k)
  {
  }

  lemma AppendTracks(p: Inner, h: seq<Stamp>, k: nat, id: string, now: Time)
    requires Tracks(p, h, k) && id !in p.seen
    ensures Tracks(p.(seen := p.seen[id := now], order := p.order + [id]), h + [Stamp(id, now)], k)
  {
    var q := p.(seen := p.seen[id := now], order := p.order + [id]);
    assert q.order[|p.order|] == id;
    assert forall x :: x in q.order <==> x == id || x in p.order;
  }

  /** Throughout, on any log and any clock: the deque holds the ids of the most recent
      accepted commands without repeats, its elements are exactly the map's keys, and
      there are at most 2048. With a monotone clock nothing is dropped too early. */
  lemma SeenInvariant(log: seq<Op>, maxRecords: nat) returns (k: nat)
    ensures Tracks(After(log, maxRecords), History(log, maxRecords), k)
    ensures |After(log, maxRecords).seen| == |After(log, maxRecords).order| <= DEFAULT_MAX_SEEN_COMMANDS
    ensures Monotone(log) ==> SortedStamps(History(log, maxRecords), LastTime(log))
                              && DroppedRightly(History(log, maxRecords), k, LastTime(log))
  {
    k := SeenAlways(log, maxRecords);
    SeenSize(After(log, maxRecords).order, After(log, maxRecords).seen.Keys);
  }

  ghost predicate SeenOk(d: Inner, h: seq<Stamp>, k: nat) {
    Tracks(d, h, k) && |h| - k <= DEFAULT_MAX_SEEN_COMMANDS
  }

  ghost predicate TimesOk(h: seq<Stamp>, k: nat, last: Time) {
    SortedStamps(h, last) && k <= |h| && DroppedRightly(h, k, last)
  }

  lemma {:induction false} SeenAlways(log: seq<Op>, maxRecords: nat) returns (k: nat)
    ensures SeenOk(After(log, maxRecords), History(log, maxRecords), k)
    ensures Monotone(log) ==> TimesOk(History(log, maxRecords), k, LastTime(log))
  {
    if log == [] {
      k := 0;
    } else {
      var front, op := log[..|log| - 1], log[|log| - 1];
      var h, d, now := History(front, maxRecords), After(front, maxRecords), OpTime(op);
      var j := SeenAlways(front, maxRecords);
      k := PruneStep(d, h, j, now);
      if Monotone(log) {
        LastTimeGrows(log);
        PruneDropsRightly(h, j, k, LastTime(front), now);
      }
      match op
      case Apply(c, _) =>
        if IsNew(d, c.id, now) {
          k := AcceptTracks(d, c, h, k, now);
        }
      case Record(e) => RecordTracks(d, e, maxRecords, h, k);
      case Look(_) =>
    }
  }

  lemma PruneStep(d: Inner, h: seq<Stamp>, j: nat, now: Time) returns (k: nat)
    requires SeenOk(d, h, j)
    ensures j <= k && SeenOk(Prune(d, now), h, k)
    ensures forall i :: j <= i < k ==> now - h[i].at > SEEN_COMMAND_RETENTION
    ensures k < |h| ==> now - h[k].at <= SEEN_COMMAND_RETENTION
  {
    PruneKeepsSeenPart(d, h, j, now);
    k := PruneTracks(PruneWindow(d, now), h, j, now);
  }

  lemma PruneDropsRightly(h: seq<Stamp>, j: nat, k: nat, last: Time, now: Time)
    requires j <= k <= |h| && last <= now && TimesOk(h, j, last)
    requires forall i :: j <= i < k ==> now - h[i].at > SEEN_COMMAND_RETENTION
    ensures TimesOk(h, k, now)
  {
  }

  lemma AcceptTracks(d: Inner, c: Command, h: seq<Stamp>, k: nat, now: Time) returns (k': nat)
    requires Tracks(Prune(d, now), h, k) && IsNew(d, c.id, now)
    ensures SeenOk(Applied(d, c, now), h + [Stamp(c.id, now)], k')
    ensures TimesOk(h, k, now) ==> TimesOk(h + [Stamp(c.id, now)], k', now)
  {
    var p := Prune(d, now);
    var h' := h + [Stamp(c.id, now)];
    var q := p.(seen := p.seen[c.id := now], order := p.order + [c.id]);
    AppendTracks(p, h, k, c.id, now);
    k' := BoundTracks(q, h', k);
    WindowIrrelevant(EnforceBound(q), WindowEnd(c.action, now), h', k');
    if TimesOk(h, k, now) {
      AppendTimes(h, k, k', c.id, now);
    }
  }

  lemma WindowIrrelevant(d: Inner, until: Option<Time>, h: seq<Stamp>, k: nat)
    requires SeenOk(d, h, k)
    ensures SeenOk(d.(records := [], enabledUntil := until), h, k)
  {
  }

  lemma AppendTimes(h: seq<Stamp>, k: nat, k': nat, id: string, now: Time)
    requires TimesOk(h, k, now) && k' <= |h| + 1 && (k' == k || k' <= |h| + 1 - DEFAULT_MAX_SEEN_COMMANDS)
    ensures TimesOk(h + [Stamp(id, now)], k', now)
  {
  }

  lemma RecordTracks(d: Inner, e: Entry, maxRecords: nat, h: seq<Stamp>, k: nat)
    requires SeenOk(Prune(d, e.observedAt), h, k)
    ensures SeenOk(Recorded(d, e, maxRecords), h, k)
  {
  }

  /** `apply_once_at` applies a command exactly when its id is not among the last 2048
      accepted commands that are at most 24 h old. */
  lemma AppliedOnceExactly(log: seq<Op>, maxRecords: nat, id: string, now: Time)
    requires Monotone(log) && now >= LastTime(log)
    ensures IsNew(After(log, maxRecords), id, now) <==> !InWindow(History(log, maxRecords), id, now)
  {
    var h, d := History(log, maxRecords), After(log, maxRecords);
    var j := SeenInvariant(log, maxRecords);
    var k := PruneStep(d, h, j, now);
    var p := Prune(d, now);
    if id in p.seen {
      var i :| 0 <= i < |p.order| && p.order[i] == id;
      assert h[i + k].id == id;
      assert InWindow(h, id, now);
    }
    if InWindow(h, id, now) {
      var i :| 0 <= i < |h| && |h| - DEFAULT_MAX_SEEN_COMMANDS <= i
               && h[i].id == id && now - h[i].at <= SEEN_COMMAND_RETENTION;
      assert k <= i;
    }
  }

  /** So one id is accepted twice only with 2048 other commands, or 24 h, in between. */
  lemma {:induction false} RepeatsAreFarApart(log: seq<Op>, maxRecords: nat, i: nat, j: nat)
    requires Monotone(log)
    requires var h := History(log, maxRecords); i < j < |h| && h[i].id == h[j].id
    ensures var h := History(log, maxRecords);
            j - i > DEFAULT_MAX_SEEN_COMMANDS || h[j].at - h[i].at > SEEN_COMMAND_RETENTION
  {
    var front, op := log[..|log| - 1], log[|log| - 1];
    var h, h' := History(front, maxRecords), History(log, maxRecords);
    if j < |h| {
      RepeatsAreFarApart(front, maxRecords, i, j);
    } else {
      AppliedOnceExactly(front, maxRecords, op.command.id, op.now);
      assert !InWindow(h, op.command.id, op.now);
      assert h[i] == h'[i];
    }
  }

  /** The window does forget: a command that comes back after more than 24 h is applied
      again, although the id was accepted before. */
  lemma ForgottenIsReapplied(maxRecords: nat) returns (log: seq<Op>)
    ensures Monotone(log)
    ensures var h := History(log, maxRecords); |h| == 2 && h[0].id == h[1].id
  {
    var c := Command("a", Disable);
    var first := [Apply(c, 0)];
    log := first + [Apply(c, SEEN_COMMAND_RETENTION + 1)];
    assert first[..0] == [] && log[..1] == first;
    assert History([], maxRecords) == [] && After([], maxRecords) == FRESH_INNER;
    assert History(first, maxRecords) == [Stamp("a", 0)];
    AppliedOnceExactly(first, maxRecords, "a", SEEN_COMMAND_RETENTION + 1);
  }

  // ── The session ────────────────────────────────────────────────────────────

  /** The end of the window opened by the last accepted command, if it opened one. */
  ghost function Until(log: seq<Op>, maxRecords: nat): Option<Time> {
    if log == [] then None
    else if Accepts(log, maxRecords) then WindowEnd(log[|log| - 1].command.action, log[|log| - 1].now)
    else Until(log[..|log| - 1], maxRecords)
  }

  ghost predicate Recording(log: seq<Op>, maxRecords: nat, now: Time) {
    Until(log, maxRecords).Some? && now < Until(log, maxRecords).value
  }

  /** The records made since the last accepted command while its window was open. */
  ghost function Session(log: seq<Op>, maxRecords: nat): seq<Entry> {
    if log == [] || Accepts(log, maxRecords) then []
    else
      var front, op := log[..|log| - 1], log[|log| - 1];
      if op.Record? && Recording(front, maxRecords, op.entry.observedAt)
      then Session(front, maxRecords) + [op.entry]
      else Session(front, maxRecords)
  }

  /** The stored window end is the session's, unless it has passed and was pruned. */
  ghost predicate WindowTracks(d: Inner, until: Option<Time>, last: Time) {
    d.enabledUntil == until || (d.enabledUntil == None && until.Some? && until.value <= last)
  }

  lemma {:induction false} PruneSeenKeepsWindow(d: Inner, now: Time)
    ensures PruneSeen(d, now).enabledUntil == d.enabledUntil && PruneSeen(d, now).records == d.records
    decreases |d.order|
  {
    if !(d.order == [] || Keep(d.seen, d.order[0], now)) {
      PruneSeenKeepsWindow(PopSeen(d), now);
    }
  }

  /** The buffer is exactly the last `maxRecords` records of the session while its window
      is open, and empty otherwise. */
  lemma {:induction false} BufferIsSession(log: seq<Op>, maxRecords: nat)
    requires Monotone(log)
    ensures WindowTracks(After(log, maxRecords), Until(log, maxRecords), LastTime(log))
    ensures After(log, maxRecords).records ==
            if Recording(log, maxRecords, LastTime(log)) then LastN(Session(log, maxRecords), maxRecords) else []
  {
    if log != [] {
      var front, op := log[..|log| - 1], log[|log| - 1];
      BufferIsSession(front, maxRecords);
      var d := After(front, maxRecords);
      PruneSeenKeepsWindow(PruneWindow(d, OpTime(op)), OpTime(op));
      LastTimeGrows(log);
      if op.Record? {
        LastNExtends(Session(front, maxRecords), op.entry, maxRecords);
      }
    }
  }

  lemma LastTimeGrows(log: seq<Op>)
    requires log != [] && Monotone(log)
    ensures Monotone(log[..|log| - 1]) && LastTime(log[..|log| - 1]) <= LastTime(log)
  {
  }

  lemma LastNExtends<T>(s: seq<T>, x: T, n: nat)
    ensures LastN(LastN(s, n) + [x], n) == LastN(s + [x], n)
  {
  }

  /** A record is stored exactly while the session's window is open. */
  lemma StoredExactly(log: seq<Op>, maxRecords: nat, now: Time)
    requires Monotone(log) && now >= LastTime(log)
    ensures IsEnabled(After(log, maxRecords), now) <==> Recording(log, maxRecords, now)
  {
    BufferIsSession(log, maxRecords);
    PruneSeenKeepsWindow(PruneWindow(After(log, maxRecords), now), now);
  }

  /** After pruning at `now` the buffer is empty unless the window is still open, and then
      it is unchanged: what `recent` shows is the session's newest records. */
  lemma PrunedBuffer(log: seq<Op>, maxRecords: nat, now: Time)
    requires Monotone(log) && now >= LastTime(log)
    ensures Prune(After(log, maxRecords), now).records ==
            if Recording(log, maxRecords, now) then LastN(Session(log, maxRecords), maxRecords) else []
  {
    BufferIsSession(log, maxRecords);
    PruneSeenKeepsWindow(PruneWindow(After(log, maxRecords), now), now);
  }

  /** Every record of the session was observed before the window's end. */
  lemma {:induction false} SessionInsideWindow(log: seq<Op>, maxRecords: nat, e: Entry)
    requires e in Session(log, maxRecords)
    ensures Until(log, maxRecords).Some? && e.observedAt < Until(log, maxRecords).value
  {
    var front := log[..|log| - 1];
    if e in Session(front, maxRecords) {
      SessionInsideWindow(front, maxRecords, e);
    }
  }

  // ── Status ─────────────────────────────────────────────────────────────────

  /** `status` reports enabled exactly when records are stored and at least a whole second
      of the window is left. */
  lemma StatusExactly(log: seq<Op>, maxRecords: nat, now: Time)
    requires Monotone(log) && now >= LastTime(log)
    ensures StatusOf(After(log, maxRecords), now).enabled <==>
            Recording(log, maxRecords, now) && Until(log, maxRecords).value - now >= SECOND
    ensures Recording(log, maxRecords, now) ==>
            StatusOf(After(log, maxRecords), now).remainingSeconds == (Until(log, maxRecords).value - now) / SECOND
  {
    BufferIsSession(log, maxRecords);
    PruneSeenKeepsWindow(PruneWindow(After(log, maxRecords), now), now);
  }

  /** In the last second of a window `status` says disabled while records are stored. */
  lemma StatusCanDenyRecording(maxRecords: nat) returns (log: seq<Op>, now: Time)
    ensures Monotone(log) && now >= LastTime(log)
    ensures IsEnabled(After(log, maxRecords), now) && !StatusOf(After(log, maxRecords), now).enabled
  {
    var c := Command("a", Enable(5));
    log := [Apply(c, 0)];
    now := 4 * SECOND + SECOND / 2;
    assert log[..0] == [];
    assert After([], maxRecords) == FRESH_INNER;
    assert Accepts(log, maxRecords);
    assert Until(log, maxRecords) == Some(5 * SECOND);
    StoredExactly(log, maxRecords, now);
    StatusExactly(log, maxRecords, now);
  }

  // ── What the commands mean ─────────────────────────────────────────────────

  datatype Applying = Applying(action: Action, at: Time)

  /** The last accepted command and when it was accepted. */
  ghost function LastAccepted(log: seq<Op>, maxRecords: nat): Option<Applying> {
    if log == [] then None
    else
      var op := log[|log| - 1];
      if Accepts(log, maxRecords) then Some(Applying(op.command.action, op.now))
      else LastAccepted(log[..|log| - 1], maxRecords)
  }

  /** The last accepted command is an enable whose seconds are not over at `now`, and whose
      end is a representable time. */
  ghost predicate Open(log: seq<Op>, maxRecords: nat, now: Time) {
    match LastAccepted(log, maxRecords)
    case None => false
    case Some(Applying(Disable, _)) => false
    case Some(Applying(Enable(seconds), at)) =>
      at + seconds * 1_000_000_000 <= MAX_TIME && now < at + seconds * 1_000_000_000
  }

  /** The records made since the last accepted command. */
  ghost function RecordsSince(log: seq<Op>, maxRecords: nat): seq<Entry> {
    if log == [] || Accepts(log, maxRecords) then []
    else
      var op := log[|log| - 1];
      RecordsSince(log[..|log| - 1], maxRecords) + if op.Record? then [op.entry] else []
  }

  lemma {:induction false} OpenIsRecording(log: seq<Op>, maxRecords: nat, now: Time)
    ensures Open(log, maxRecords, now) <==> Recording(log, maxRecords, now)
  {
    if log != [] && !Accepts(log, maxRecords) {
      OpenIsRecording(log[..|log| - 1], maxRecords, now);
    }
  }

  /** While the window is open nothing made since the command was refused. */
  lemma {:induction false} OpenKeepsAll(log: seq<Op>, maxRecords: nat, now: Time)
    requires Monotone(log) && now >= LastTime(log) && Open(log, maxRecords, now)
    ensures Session(log, maxRecords) == RecordsSince(log, maxRecords)
  {
    if log != [] && !Accepts(log, maxRecords) {
      var front := log[..|log| - 1];
      LastTimeGrows(log);
      OpenKeepsAll(front, maxRecords, now);
      OpenIsRecording(front, maxRecords, OpTime(log[|log| - 1]));
    }
  }

  /** `newest` is the last `n` of `all`, or all of them. */
  ghost predicate NewestOf<T>(newest: seq<T>, all: seq<T>, n: nat) {
    && |newest| == (if |all| < n then |all| else n)
    && forall i :: 0 <= i < |newest| ==> newest[i] == all[|all| - |newest| + i]
  }

  /** A record is stored exactly if the last accepted command is an enable that has not run
      out: after a disable, before any command, and when the end is not representable,
      nothing is stored. */
  lemma StoredByCommand(log: seq<Op>, maxRecords: nat, now: Time)
    requires Monotone(log) && now >= LastTime(log)
    ensures IsEnabled(After(log, maxRecords), now) <==> Open(log, maxRecords, now)
  {
    StoredExactly(log, maxRecords, now);
    OpenIsRecording(log, maxRecords, now);
  }

  /** What `recent` and `status` find: the newest records since the enable while it lasts,
      nothing otherwise. */
  lemma BufferByCommand(log: seq<Op>, maxRecords: nat, now: Time)
    requires Monotone(log) && now >= LastTime(log)
    ensures var records := Prune(After(log, maxRecords), now).records;
            && StatusOf(After(log, maxRecords), now).recordCount == |records|
            && if Open(log, maxRecords, now) then NewestOf(records, RecordsSince(log, maxRecords), maxRecords)
               else records == []
  {
    PrunedBuffer(log, maxRecords, now);
    OpenIsRecording(log, maxRecords, now);
    if Open(log, maxRecords, now) {
      OpenKeepsAll(log, maxRecords, now);
    }
  }

  /** The reported seconds are the whole ones left of the enable. */
  lemma StatusByCommand(log: seq<Op>, maxRecords: nat, now: Time)
    requires Monotone(log) && now >= LastTime(log)
    ensures var status := StatusOf(After(log, maxRecords), now);
            && status.enabled == (status.remainingSeconds > 0)
            && if !Open(log, maxRecords, now) then status.remainingSeconds == 0
               else
                 var (seconds, at) := (LastAccepted(log, maxRecords).value.action.seconds, LastAccepted(log, maxRecords).value.at);
                 status.remainingSeconds == (at + seconds * 1_000_000_000 - now) / 1_000_000_000
  {
    BufferIsSession(log, maxRecords);
    PruneSeenKeepsWindow(PruneWindow(After(log, maxRecords), now), now);
    OpenIsRecording(log, maxRecords, now);
    UntilByCommand(log, maxRecords);
  }

  lemma {:induction false} UntilByCommand(log: seq<Op>, maxRecords: nat)
    ensures var until, last := Until(log, maxRecords), LastAccepted(log, maxRecords);
            && (last == None ==> until == None)
            && (last.Some? && last.value.action.Disable? ==> until == None)
            && (last.Some? && last.value.action.Enable? ==>
                  var end := last.value.at + last.value.action.seconds * 1_000_000_000;
                  until == if end <= MAX_TIME then Some(end) else None)
  {
    if log != [] && !Accepts(log, maxRecords) {
      UntilByCommand(log[..|log| - 1], maxRecords);
    }
  }
}
