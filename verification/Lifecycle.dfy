/** The life of one PodCrashReport: the agent's two writes, the API server, the controller working from a
    stale stripped cache, and everything that may interleave with them. Requests travel on a wire: a write
    that has been issued may be applied at any later moment, refused, or never arrive, and the issuer may
    stop waiting for its reply at any time. */
module Lifecycle {
  import opened Bytes
  import opened Clock
  import opened MergePatch
  import opened CrashReport
  import Retry

  const GRACE_PERIOD := 2 * 60 * SECOND
  const RETRY_WINDOW := 10 * 60 * SECOND
  const STATUS_STEPS := Retry.STATUS_BACKOFF.steps

  /** What is fixed for a run: the diagnostics captured for this crash and the controller's settings. */
  datatype Config = Config(report: Diagnostics, webhook: bool, stripCache: bool)

  predicate ValidConfig(c: Config) {
    OomContextKey in c.report.figures && WellFormedDiagnostics(c.report)
  }

  datatype Stored = Stored(version: nat, created: Time, status: Status)

  datatype Server = Absent | Present(stored: Stored) | Deleted

  /** The API server's view of the report, with every version it has held, oldest first. */
  datatype Store = Store(server: Server, snapshots: seq<Stored>)

  /** A status patch on the wire. The agent's carries a resourceVersion precondition, the controller's none. */
  datatype Write =
    | AgentWrite(lock: nat, diagnostics: Diagnostics)
    | ControllerWrite(notifiedAt: Option<Time>)

  /** Every status patch ever issued, identified by its index, and what became of it. */
  datatype Wire = Wire(writes: seq<Write>, applied: set<nat>, refused: set<nat>)

  datatype Verdict = Success | CreateError | StatusWriteError | ContextError | Died

  datatype Agent =
    | NotStarted
    | Ready(lock: nat, left: nat)
    | Awaiting(lock: nat, left: nat, id: nat)
    | Finished(verdict: Verdict)

  /** Where the controller is in Reconcile; `seen` is the cached copy it works from. */
  datatype Controller =
    | Idle
    | Fetched(seen: Stored)
    | Cleared(seen: Stored)
    | Sending(seen: Stored)
    | Acknowledged(seen: Stored)
    | Deciding(seen: Stored, notifiedAt: Option<Time>)
    | AwaitingPatch

  /** A webhook request sent, with the status it was built from. */
  datatype Attempt = Attempt(at: Time, payload: Status)

  /** A notification abandoned, by a controller process that had started at startedAt. */
  datatype Drop = Drop(at: Time, startedAt: Time)

  /** What has been sent to the webhook endpoint; deliveries are the requests acknowledged with a 2xx. */
  datatype Log = Log(attempts: seq<Attempt>, deliveries: seq<Time>, drops: seq<Drop>)

  datatype State = State(
    now: Time, startedAt: Time, store: Store, wire: Wire, agent: Agent, controller: Controller, log: Log)

  datatype AgentAction =
    | Create(version: nat, stamp: Time, replyLost: bool)
    | CreateFails
    | AttemptStatus
    | StatusSucceeds
    | StatusRetryable
    | StatusRejected
    | AgentCancelled
    | AgentDies

  datatype ServerAction =
    | ServerApplies(id: nat)
    | ServerRefuses(id: nat)
    | OtherWriter
    | ReportDeleted

  datatype ControllerAction =
    | Fetch(snapshot: nat)
    | Check
    | BeginSend(reread: bool)
    | SendSucceeds
    | StampTime
    | SendFails
    | IssuePatch
    | PatchReturns
    | Restart

  datatype Action =
    | ByAgent(agent: AgentAction)
    | ByServer(server: ServerAction)
    | ByController(controller: ControllerAction)
    | Tick(elapsed: nat)

  predicate Init(s: State) {
    && s.store == Store(Absent, []) && s.wire == Wire([], {}, {})
    && s.agent == NotStarted && s.controller == Idle && s.startedAt <= s.now
    && s.log == Log([], [], [])
  }

  // ---------- The agent: CreateCrashReport

  predicate AgentEnabled(s: State, a: AgentAction) {
    match a
    case Create(_, _, _) => s.agent.NotStarted? && s.store.server.Absent?
    case CreateFails => s.agent.NotStarted?
    case AttemptStatus => s.agent.Ready? && s.agent.left > 0
    case StatusSucceeds => s.agent.Awaiting? && s.agent.id in s.wire.applied
    case StatusRetryable => s.agent.Awaiting?
    case StatusRejected => s.agent.Awaiting? && s.agent.id in s.wire.refused
    case AgentCancelled => s.agent.Ready? && s.agent.left < STATUS_STEPS
    case AgentDies => true
  }

  function AgentStep(c: Config, s: State, a: AgentAction): (s': State)
    requires AgentEnabled(s, a)
  {
    match a
    case Create(version, stamp, replyLost) =>
      s.(store := Put(s.store, Stored(version, stamp, EMPTY_STATUS)),
         agent := if replyLost then Finished(CreateError) else Ready(version, STATUS_STEPS))
    case CreateFails => s.(agent := Finished(CreateError))
    case AttemptStatus =>
      s.(wire := Issue(s.wire, AgentWrite(s.agent.lock, c.report)),
         agent := Awaiting(s.agent.lock, s.agent.left - 1, |s.wire.writes|))
    case StatusSucceeds => s.(agent := Finished(Success))
    case StatusRetryable =>
      s.(agent := if s.agent.left > 0 then Ready(s.agent.lock, s.agent.left) else Finished(StatusWriteError))
    case StatusRejected => s.(agent := Finished(StatusWriteError))
    case AgentCancelled => s.(agent := Finished(ContextError))
    case AgentDies => s.(agent := Finished(Died))
  }

  // ---------- The API server, and other writers

  function Put(store: Store, st: Stored): (r: Store)
  {
    Store(Present(st), store.snapshots + [st])
  }

  function Issue(wire: Wire, w: Write): (r: Wire)
  {
    wire.(writes := wire.writes + [w])
  }

  predicate OnWire(wire: Wire, id: nat) {
    id < |wire.writes| && id !in wire.applied && id !in wire.refused
  }

  /** The stored object after a patch is merged into it; a patch that changes nothing leaves the version alone. */
  function ApplyWrite(st: Stored, w: Write): (r: Stored)
  {
    var next := match w
      case AgentWrite(_, d) => AttachDiagnostics(st.status, d)
      case ControllerWrite(n) => MarkProcessed(st.status, n);
    if next == st.status then st else st.(version := st.version + 1, status := next)
  }

  predicate ServerEnabled(s: State, a: ServerAction) {
    match a
    case ServerApplies(id) =>
      && OnWire(s.wire, id) && s.store.server.Present?
      && (s.wire.writes[id].AgentWrite? ==> s.wire.writes[id].lock == s.store.server.stored.version)
    case ServerRefuses(id) => OnWire(s.wire, id)
    case OtherWriter => s.store.server.Present?
    case ReportDeleted => s.store.server.Present?
  }

  function ServerStep(s: State, a: ServerAction): (s': State)
    requires ServerEnabled(s, a)
  {
    match a
    case ServerApplies(id) =>
      var held := s.store.server.stored;
      var st := ApplyWrite(held, s.wire.writes[id]);
      s.(wire := s.wire.(applied := s.wire.applied + {id}), store := if st == held then s.store else Put(s.store, st))
    case ServerRefuses(id) => s.(wire := s.wire.(refused := s.wire.refused + {id}))
    case OtherWriter => s.(store := Put(s.store, s.store.server.stored.(version := s.store.server.stored.version + 1)))
    case ReportDeleted => s.(store := s.store.(server := Deleted))
  }

  // ---------- The controller: Reconcile

  /** A copy as the informer cache holds it. */
  function Cached(c: Config, st: Stored): (r: Stored)
  {
    if c.stripCache then st.(status := StripStatus(st.status)) else st
  }

  /** webhookDeadline: ten minutes from whichever came last, the report or the controller process. */
  function WebhookDeadline(created: Time, startedAt: Time): (t: Time)
  {
    (if startedAt > created then startedAt else created) + RETRY_WINDOW
  }

  /** From the fetched copy up to the webhook: skip, wait for the agent, notify, or go straight to the patch. */
  function CheckReport(c: Config, now: Time, seen: Stored): (k: Controller)
  {
    if seen.status.phase == Processed then Idle
    else if seen.status.phase == Unset && now - seen.created < GRACE_PERIOD then Idle
    else if c.webhook && seen.status.notifiedAt.None? then Cleared(seen)
    else Deciding(seen, seen.status.notifiedAt)
  }

  predicate ControllerEnabled(s: State, a: ControllerAction) {
    match a
    case Fetch(i) => s.controller.Idle? && i < |s.store.snapshots|
    case Check => s.controller.Fetched?
    case BeginSend(reread) => s.controller.Cleared? && (reread ==> s.store.server.Present?)
    case SendSucceeds => s.controller.Sending?
    case StampTime => s.controller.Acknowledged?
    case SendFails => s.controller.Sending?
    case IssuePatch => s.controller.Deciding?
    case PatchReturns => s.controller.AwaitingPatch?
    case Restart => true
  }

  function ControllerStep(c: Config, s: State, a: ControllerAction): (s': State)
    requires ControllerEnabled(s, a)
  {
    match a
    case Fetch(i) => s.(controller := Fetched(Cached(c, s.store.snapshots[i])))
    case Check => s.(controller := CheckReport(c, s.now, s.controller.seen))
    case BeginSend(reread) =>
      var payload := if reread then s.store.server.stored.status else s.controller.seen.status;
      s.(controller := Sending(s.controller.seen),
         log := s.log.(attempts := s.log.attempts + [Attempt(s.now, payload)]))
    case SendSucceeds =>
      s.(controller := Acknowledged(s.controller.seen), log := s.log.(deliveries := s.log.deliveries + [s.now]))
    case StampTime => s.(controller := Deciding(s.controller.seen, Some(s.now)))
    case SendFails =>
      if s.now < WebhookDeadline(s.controller.seen.created, s.startedAt) then s.(controller := Idle)
      else s.(controller := Deciding(s.controller.seen, None),
              log := s.log.(drops := s.log.drops + [Drop(s.now, s.startedAt)]))
    case IssuePatch =>
      var n := s.controller.notifiedAt;
      s.(controller := AwaitingPatch,
         wire := Issue(s.wire, ControllerWrite(if n == s.controller.seen.status.notifiedAt then None else Stamp(n))))
    case PatchReturns => s.(controller := Idle)
    case Restart => s.(controller := Idle, startedAt := s.now)
  }

  // ---------- Runs

  predicate Enabled(s: State, a: Action) {
    match a
    case ByAgent(x) => AgentEnabled(s, x)
    case ByServer(x) => ServerEnabled(s, x)
    case ByController(x) => ControllerEnabled(s, x)
    case Tick(_) => true
  }

  function Apply(c: Config, s: State, a: Action): (s': State)
    requires Enabled(s, a)
  {
    match a
    case ByAgent(x) => AgentStep(c, s, x)
    case ByServer(x) => ServerStep(s, x)
    case ByController(x) => ControllerStep(c, s, x)
    case Tick(elapsed) => s.(now := s.now + elapsed)
  }

  /** A run: from an initial state, each state follows from the one before by an enabled action. */
  ghost predicate IsRun(c: Config, trace: seq<State>, acts: seq<Action>) {
    && ValidConfig(c)
    && |trace| == |acts| + 1
    && Init(trace[0])
    && forall i :: 0 <= i < |acts| ==> Enabled(trace[i], acts[i]) && trace[i + 1] == Apply(c, trace[i], acts[i])
  }

  // ---------- What every step keeps: the store

  function Rank(p: Phase): (n: nat)
  {
    match p
    case Unset => 0
    case Pending => 1
    case Processed => 2
  }

  /** b may follow a in the life of one report. */
  predicate Grows(a: Status, b: Status) {
    && Rank(a.phase) <= Rank(b.phase)
    && (a.diagnostics != NO_DIAGNOSTICS ==> b.diagnostics == a.diagnostics)
    && (a.notifiedAt.Some? ==> b.notifiedAt.Some?)
  }

  predicate GoodStatus(c: Config, st: Status) {
    && (st.diagnostics == NO_DIAGNOSTICS || st.diagnostics == c.report)
    && (st.phase == Unset ==> st == EMPTY_STATUS)
    && (st.phase == Pending ==> st == Status(c.report, Pending, None))
  }

  /** The version Create returned, which is the agent's optimistic lock. */
  function Base(store: Store): (v: nat)
    requires store.snapshots != []
  {
    store.snapshots[0].version
  }

  predicate InvStore(c: Config, store: Store) {
    && (store.server.Absent? <==> store.snapshots == [])
    && (store.server.Present? ==> Last(store.snapshots) == store.server.stored)
    && (forall i :: 0 <= i < |store.snapshots| ==>
        && store.snapshots[i].created == store.snapshots[0].created
        && GoodStatus(c, store.snapshots[i].status)
        && Base(store) <= store.snapshots[i].version <= Last(store.snapshots).version
        && (store.snapshots[i].version == Base(store) ==> store.snapshots[i].status == EMPTY_STATUS)
        && Grows(store.snapshots[i].status, Last(store.snapshots).status))
  }

  /** Appending a version that may follow the last one keeps the store well-formed. */
  lemma PutKeeps(c: Config, store: Store, st: Stored)
    requires InvStore(c, store) && store.snapshots != []
    requires st.created == Last(store.snapshots).created && st.version > Last(store.snapshots).version
    requires GoodStatus(c, st.status) && Grows(Last(store.snapshots).status, st.status)
    ensures InvStore(c, Put(store, st))
  {
  }

  lemma ApplyWriteGrows(c: Config, st: Stored, w: Write)
    requires ValidConfig(c) && GoodStatus(c, st.status)
    requires w.AgentWrite? ==> w.diagnostics == c.report && st.status == EMPTY_STATUS
    ensures var r := ApplyWrite(st, w);
            && GoodStatus(c, r.status) && Grows(st.status, r.status) && r.created == st.created
            && (r != st ==> r.version > st.version)
            && (w.AgentWrite? ==> r != st && r.status.diagnostics == c.report)
            && (w.ControllerWrite? ==> r.status.diagnostics == st.status.diagnostics)
  {
  }

  lemma ServerKeepsStore(c: Config, s: State, a: ServerAction)
    requires ValidConfig(c) && InvStore(c, s.store) && InvAgent(c, s.store, s.wire, s.agent) && ServerEnabled(s, a)
    ensures InvStore(c, ServerStep(s, a).store)
  {
    match a
    case ServerApplies(id) =>
      ApplyWriteGrows(c, s.store.server.stored, s.wire.writes[id]);
      var st := ApplyWrite(s.store.server.stored, s.wire.writes[id]);
      if st != s.store.server.stored {
        PutKeeps(c, s.store, st);
      }
    case OtherWriter =>
      PutKeeps(c, s.store, s.store.server.stored.(version := s.store.server.stored.version + 1));
    case _ =>
  }

  // ---------- What every step keeps: the agent and its writes

  /** The agent's diagnostics have reached the server. */
  predicate Landed(store: Store) {
    store.snapshots != [] && Last(store.snapshots).status.diagnostics != NO_DIAGNOSTICS
  }

  predicate LandedBy(wire: Wire, id: nat) {
    id < |wire.writes| && id in wire.applied && wire.writes[id].AgentWrite?
  }

  predicate InvWire(c: Config, store: Store, wire: Wire) {
    && (store.snapshots == [] ==> wire.writes == [])
    && (forall i :: 0 <= i < |wire.writes| && wire.writes[i].AgentWrite? ==>
        wire.writes[i] == AgentWrite(Base(store), c.report))
    && (forall i <- wire.applied :: i < |wire.writes|)
    && (forall i <- wire.refused :: i < |wire.writes|)
  }

  /** Diagnostics have landed exactly when one agent write has been applied, and never more than one has. */
  ghost predicate InvLanding(store: Store, wire: Wire) {
    && (Landed(store) <==> exists i :: LandedBy(wire, i))
    && (forall i, j :: LandedBy(wire, i) && LandedBy(wire, j) ==> i == j)
    && (Landed(store) ==> Last(store.snapshots).version > Base(store))
  }

  ghost predicate InvAgent(c: Config, store: Store, wire: Wire, agent: Agent) {
    && InvWire(c, store, wire)
    && InvLanding(store, wire)
    && (agent.NotStarted? ==> store.snapshots == [])
    && (agent.Ready? || agent.Awaiting? ==> store.snapshots != [] && agent.lock == Base(store))
    && (agent.Awaiting? ==> agent.id < |wire.writes| && wire.writes[agent.id].AgentWrite?)
    && (agent == Finished(Success) ==> Landed(store))
  }

  /** Issuing one more write, which nothing has applied yet, lands nothing. */
  lemma IssueKeepsLanding(c: Config, store: Store, wire: Wire, w: Write)
    requires InvWire(c, store, wire) && InvLanding(store, wire)
    ensures InvLanding(store, Issue(wire, w))
  {
    var wire' := Issue(wire, w);
    forall i ensures LandedBy(wire', i) <==> LandedBy(wire, i) {}
    if i :| LandedBy(wire, i) {
      assert LandedBy(wire', i);
    }
  }

  lemma AgentKeepsAgent(c: Config, s: State, a: AgentAction)
    requires ValidConfig(c) && InvStore(c, s.store) && InvAgent(c, s.store, s.wire, s.agent) && AgentEnabled(s, a)
    ensures var s' := AgentStep(c, s, a); InvStore(c, s'.store) && InvAgent(c, s'.store, s'.wire, s'.agent)
  {
    match a
    case AttemptStatus => IssueKeepsLanding(c, s.store, s.wire, AgentWrite(s.agent.lock, c.report));
    case StatusSucceeds => assert LandedBy(s.wire, s.agent.id);
    case Create(_, _, _) => assert forall i :: !LandedBy(s.wire, i);
    case _ =>
  }

  lemma ApplyKeepsLanding(c: Config, s: State, id: nat)
    requires ValidConfig(c) && InvStore(c, s.store) && InvAgent(c, s.store, s.wire, s.agent)
    requires ServerEnabled(s, ServerApplies(id))
    ensures var s' := ServerStep(s, ServerApplies(id)); InvLanding(s'.store, s'.wire)
  {
    var s' := ServerStep(s, ServerApplies(id));
    ApplyWriteGrows(c, s.store.server.stored, s.wire.writes[id]);
    forall i ensures LandedBy(s'.wire, i) <==> LandedBy(s.wire, i) || (i == id && s.wire.writes[id].AgentWrite?) {}
    if s.wire.writes[id].AgentWrite? {
      assert LandedBy(s'.wire, id);
    } else if i :| LandedBy(s.wire, i) {
      assert LandedBy(s'.wire, i);
    }
  }

  lemma ServerKeepsAgent(c: Config, s: State, a: ServerAction)
    requires ValidConfig(c) && InvStore(c, s.store) && InvAgent(c, s.store, s.wire, s.agent) && ServerEnabled(s, a)
    ensures var s' := ServerStep(s, a); InvAgent(c, s'.store, s'.wire, s'.agent)
  {
    var s' := ServerStep(s, a);
    if a.ServerApplies? {
      ApplyKeepsLanding(c, s, a.id);
      ApplyWriteGrows(c, s.store.server.stored, s.wire.writes[a.id]);
    } else {
      forall i ensures LandedBy(s'.wire, i) <==> LandedBy(s.wire, i) {}
      if i :| LandedBy(s.wire, i) {
        assert LandedBy(s'.wire, i);
      }
    }
  }

  // ---------- What every step keeps: the controller, its writes and the notifications

  function Created(store: Store): (t: Time)
    requires store.snapshots != []
  {
    store.snapshots[0].created
  }

  /** The report may be acted on: the diagnostics are in, or the agent has had its two minutes. */
  predicate Ripe(s: State) {
    s.store.snapshots != [] && (Landed(s.store) || s.now - Created(s.store) >= GRACE_PERIOD)
  }

  /** A delivery was acknowledged no later than t. */
  ghost predicate DeliveredBy(log: Log, t: Time) {
    exists i :: 0 <= i < |log.deliveries| && log.deliveries[i] <= t
  }

  /** The same of an instant known only to the second. */
  ghost predicate DeliveredIn(log: Log, t: Time) {
    exists i :: 0 <= i < |log.deliveries| && log.deliveries[i] < t + SECOND
  }

  /** What must have happened before the controller decides on n, which it holds in full precision. */
  ghost predicate Decided(c: Config, log: Log, n: Option<Time>) {
    match n
    case Some(t) => c.webhook && DeliveredBy(log, t)
    case None => c.webhook ==> log.drops != []
  }

  /** What must have happened before notifiedAt = n may be written. */
  ghost predicate Backed(c: Config, log: Log, n: Option<Time>) {
    match n
    case Some(t) => c.webhook && WholeSecond(t) == t && DeliveredIn(log, t)
    case None => c.webhook ==> log.drops != []
  }

  lemma DecidedIsBacked(c: Config, log: Log, n: Option<Time>)
    requires Decided(c, log, n)
    ensures Backed(c, log, Stamp(n))
  {
    if n.Some? {
      var i :| 0 <= i < |log.deliveries| && log.deliveries[i] <= n.value;
      assert log.deliveries[i] < WholeSecond(n.value) + SECOND;
      WholeSecondOnce(n.value);
    }
  }

  ghost predicate FromStore(c: Config, store: Store, seen: Stored) {
    exists i :: 0 <= i < |store.snapshots| && seen == Cached(c, store.snapshots[i])
  }

  predicate ClearedOk(now: Time, seen: Stored) {
    && seen.status.phase != Processed
    && (seen.status.phase == Unset ==> now - seen.created >= GRACE_PERIOD)
  }

  ghost predicate InvController(c: Config, s: State) {
    match s.controller
    case Idle => true
    case AwaitingPatch => true
    case Fetched(seen) => FromStore(c, s.store, seen)
    case Cleared(seen) => FromStore(c, s.store, seen) && ClearedOk(s.now, seen) && c.webhook
    case Sending(seen) => FromStore(c, s.store, seen) && ClearedOk(s.now, seen) && c.webhook
    case Acknowledged(seen) =>
      FromStore(c, s.store, seen) && ClearedOk(s.now, seen) && c.webhook && s.log.deliveries != []
    case Deciding(seen, n) => FromStore(c, s.store, seen) && ClearedOk(s.now, seen) && Decided(c, s.log, n)
  }

  predicate InvLog(c: Config, s: State) {
    && s.startedAt <= s.now
    && (s.store.snapshots == [] ==> s.log == Log([], [], []))
    && (forall t <- s.log.deliveries :: t <= s.now)
    && (forall d <- s.log.drops :: WebhookDeadline(Created(s.store), d.startedAt) <= d.at <= s.now)
    && (forall a <- s.log.attempts ::
        && a.at <= s.now
        && (a.at - Created(s.store) < GRACE_PERIOD ==>
            Landed(s.store) && a.payload.diagnostics.figures == c.report.figures))
  }

  ghost predicate InvPatches(c: Config, s: State) {
    forall i :: 0 <= i < |s.wire.writes| && s.wire.writes[i].ControllerWrite? ==>
      Ripe(s) && Backed(c, s.log, s.wire.writes[i].notifiedAt)
  }

  ghost predicate InvProcessed(c: Config, s: State) {
    s.store.snapshots != [] ==>
      var st := Last(s.store.snapshots).status;
      && (st.phase == Processed ==> Ripe(s) && (c.webhook ==> s.log.deliveries != [] || s.log.drops != []))
      && (st.notifiedAt.Some? ==> Backed(c, s.log, st.notifiedAt))
  }

  ghost predicate Inv(c: Config, s: State) {
    && InvStore(c, s.store)
    && InvAgent(c, s.store, s.wire, s.agent)
    && InvController(c, s)
    && InvLog(c, s)
    && InvPatches(c, s)
    && InvProcessed(c, s)
  }

  /** What holds of a cached copy the controller has decided to act on. */
  lemma SeenIsRipe(c: Config, s: State, seen: Stored)
    requires ValidConfig(c) && InvStore(c, s.store) && FromStore(c, s.store, seen) && ClearedOk(s.now, seen)
    ensures Ripe(s) && seen.created == Created(s.store) && seen.status.notifiedAt.None?
    ensures seen.status.phase == Pending ==> Landed(s.store) && seen.status.diagnostics.figures == c.report.figures
  {
    var i :| 0 <= i < |s.store.snapshots| && seen == Cached(c, s.store.snapshots[i]);
    assert GoodStatus(c, s.store.snapshots[i].status);
    assert Grows(s.store.snapshots[i].status, Last(s.store.snapshots).status);
  }

  /** A longer log backs whatever the shorter one did. */
  lemma BackedGrows(c: Config, log: Log, log': Log, n: Option<Time>)
    requires Backed(c, log, n) && log.deliveries <= log'.deliveries && log.drops <= log'.drops
    ensures Backed(c, log', n)
  {
    if n.Some? {
      var i :| 0 <= i < |log.deliveries| && log.deliveries[i] < n.value + SECOND;
      assert log'.deliveries[i] < n.value + SECOND;
    }
  }

  /** The notification part of the invariant depends on the store only through what it has ever held. */
  lemma LaterState(c: Config, s: State, s': State)
    requires Inv(c, s) && s.store == s'.store && s.wire == s'.wire && s.agent == s'.agent
    requires s.now <= s'.now && s.log.deliveries <= s'.log.deliveries && s.log.drops <= s'.log.drops
    ensures InvPatches(c, s') && InvProcessed(c, s')
  {
    forall n | Backed(c, s.log, n) ensures Backed(c, s'.log, n) {
      BackedGrows(c, s.log, s'.log, n);
    }
  }

  lemma LookKeeps(c: Config, s: State, a: ControllerAction)
    requires ValidConfig(c) && Inv(c, s) && ControllerEnabled(s, a)
    requires a.Fetch? || a.Check? || a.PatchReturns? || a.Restart?
    ensures Inv(c, ControllerStep(c, s, a))
  {
    var s' := ControllerStep(c, s, a);
    LaterState(c, s, s');
    if a.Fetch? {
      assert FromStore(c, s.store, Cached(c, s.store.snapshots[a.snapshot]));
    } else if s'.controller.Deciding? {
      SeenIsRipe(c, s, s.controller.seen);
    }
  }

  lemma SendKeeps(c: Config, s: State, a: ControllerAction)
    requires ValidConfig(c) && Inv(c, s) && ControllerEnabled(s, a)
    requires a.BeginSend? || a.SendSucceeds? || a.StampTime? || a.SendFails?
    ensures Inv(c, ControllerStep(c, s, a))
  {
    var s' := ControllerStep(c, s, a);
    SeenIsRipe(c, s, s.controller.seen);
    LaterState(c, s, s');
    if a.StampTime? {
      assert s.log.deliveries[0] in s.log.deliveries;
    }
  }

  lemma IssueKeeps(c: Config, s: State)
    requires ValidConfig(c) && Inv(c, s) && s.controller.Deciding?
    ensures Inv(c, ControllerStep(c, s, IssuePatch))
  {
    var s' := ControllerStep(c, s, IssuePatch);
    SeenIsRipe(c, s, s.controller.seen);
    IssueKeepsLanding(c, s.store, s.wire, Last(s'.wire.writes));
    DecidedIsBacked(c, s.log, s.controller.notifiedAt);
    assert Last(s'.wire.writes) == ControllerWrite(Stamp(s.controller.notifiedAt));
  }

  /** The store gains a version, or none, and nothing else that notifications depend on changes. */
  lemma GrownStore(c: Config, s: State, s': State)
    requires InvStore(c, s.store) && InvStore(c, s'.store) && InvController(c, s) && InvLog(c, s)
    requires s.store.snapshots <= s'.store.snapshots
    requires s.now == s'.now && s.startedAt == s'.startedAt && s.controller == s'.controller && s.log == s'.log
    ensures InvController(c, s')
    ensures s.store.snapshots != [] ==> InvLog(c, s')
    ensures Ripe(s) ==> Ripe(s')
  {
    forall seen | FromStore(c, s.store, seen) ensures FromStore(c, s'.store, seen) {
      var i :| 0 <= i < |s.store.snapshots| && seen == Cached(c, s.store.snapshots[i]);
      assert s'.store.snapshots[i] == s.store.snapshots[i];
    }
    if Landed(s.store) {
      assert Grows(s'.store.snapshots[|s.store.snapshots| - 1].status, Last(s'.store.snapshots).status);
    }
  }

  lemma ServerKeeps(c: Config, s: State, a: ServerAction)
    requires ValidConfig(c) && Inv(c, s) && ServerEnabled(s, a)
    ensures Inv(c, ServerStep(s, a))
  {
    var s' := ServerStep(s, a);
    ServerKeepsStore(c, s, a);
    ServerKeepsAgent(c, s, a);
    GrownStore(c, s, s');
    if a.ServerApplies? {
      assert s.wire.writes[a.id].ControllerWrite? ==> Ripe(s) && Backed(c, s.log, s.wire.writes[a.id].notifiedAt);
    }
  }

  lemma AgentKeeps(c: Config, s: State, a: AgentAction)
    requires ValidConfig(c) && Inv(c, s) && AgentEnabled(s, a)
    ensures Inv(c, AgentStep(c, s, a))
  {
    var s' := AgentStep(c, s, a);
    AgentKeepsAgent(c, s, a);
    GrownStore(c, s, s');
  }

  lemma StepKeeps(c: Config, s: State, a: Action)
    requires ValidConfig(c) && Inv(c, s) && Enabled(s, a)
    ensures Inv(c, Apply(c, s, a))
  {
    match a
    case ByAgent(x) => AgentKeeps(c, s, x);
    case ByServer(x) => ServerKeeps(c, s, x);
    case ByController(x) =>
      if x.IssuePatch? {
        IssueKeeps(c, s);
      } else if x.BeginSend? || x.SendSucceeds? || x.StampTime? || x.SendFails? {
        SendKeeps(c, s, x);
      } else {
        LookKeeps(c, s, x);
      }
    case Tick(_) => LaterState(c, s, Apply(c, s, a));
  }

  lemma {:induction false} RunKeeps(c: Config, trace: seq<State>, acts: seq<Action>, i: nat)
    requires IsRun(c, trace, acts) && i < |trace|
    ensures Inv(c, trace[i])
  {
    if i == 0 {
      assert forall k :: !LandedBy(trace[0].wire, k);
    } else {
      RunKeeps(c, trace, acts, i - 1);
      StepKeeps(c, trace[i - 1], acts[i - 1]);
    }
  }

  // ---------- Continuing a run

  /** acts leads from s to t. */
  ghost predicate Path(c: Config, s: State, acts: seq<Action>, t: State)
    decreases |acts|
  {
    if acts == [] then s == t
    else Enabled(s, acts[0]) && Path(c, Apply(c, s, acts[0]), acts[1..], t)
  }

  lemma {:induction false} PathSnoc(c: Config, s: State, acts: seq<Action>, t: State, a: Action)
    requires Path(c, s, acts, t) && Enabled(t, a)
    ensures Path(c, s, acts + [a], Apply(c, t, a))
    decreases |acts|
  {
    if acts == [] {
      assert ([] + [a])[1..] == [];
    } else {
      assert (acts + [a])[1..] == acts[1..] + [a];
      PathSnoc(c, Apply(c, s, acts[0]), acts[1..], t, a);
    }
  }

  lemma {:induction false} PathKeeps(c: Config, s: State, acts: seq<Action>, t: State)
    requires ValidConfig(c) && Inv(c, s) && Path(c, s, acts, t)
    ensures Inv(c, t)
    decreases |acts|
  {
    if acts != [] {
      StepKeeps(c, s, acts[0]);
      PathKeeps(c, Apply(c, s, acts[0]), acts[1..], t);
    }
  }
}
