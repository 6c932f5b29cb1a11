/** Safety of the report lifecycle, over every run of the protocol. */
module LifecycleTheorems {
  import opened Bytes
  import opened Clock
  import opened MergePatch
  import opened CrashReport
  import opened Lifecycle

  lemma StepGrows(c: Config, s: State, a: Action)
    requires Inv(c, s) && Enabled(s, a)
    ensures s.store.snapshots <= Apply(c, s, a).store.snapshots
    ensures s.now <= Apply(c, s, a).now
    ensures s.store.server.Deleted? ==> Apply(c, s, a).store.server.Deleted?
  {
  }

  lemma {:induction false} HistoryGrows(c: Config, trace: seq<State>, acts: seq<Action>, i: nat, j: nat)
    requires IsRun(c, trace, acts) && i <= j < |trace|
    ensures trace[i].store.snapshots <= trace[j].store.snapshots
    ensures trace[i].now <= trace[j].now
    ensures trace[i].store.server.Deleted? ==> trace[j].store.server.Deleted?
  {
    if i < j {
      HistoryGrows(c, trace, acts, i, j - 1);
      RunKeeps(c, trace, acts, j - 1);
      StepGrows(c, trace[j - 1], acts[j - 1]);
    }
  }

  /** In every run the phase only moves forward, diagnostics once attached are never altered, and a
      notification time once set is never cleared. */
  lemma StatusNeverRegresses(c: Config, trace: seq<State>, acts: seq<Action>, i: nat, j: nat)
    requires IsRun(c, trace, acts) && i <= j < |trace|
    requires trace[i].store.server.Present? && trace[j].store.server.Present?
    ensures var a, b := trace[i].store.server.stored.status, trace[j].store.server.stored.status;
            && (a.phase == Processed ==> b.phase == Processed)
            && (a.phase == Pending ==> b.phase != Unset)
            && (a.diagnostics != NO_DIAGNOSTICS ==> b.diagnostics == a.diagnostics == c.report)
            && (a.notifiedAt.Some? ==> b.notifiedAt.Some?)
  {
    HistoryGrows(c, trace, acts, i, j);
    RunKeeps(c, trace, acts, i);
    RunKeeps(c, trace, acts, j);
    var k := |trace[i].store.snapshots| - 1;
    assert trace[j].store.snapshots[k] == trace[i].store.server.stored;
    assert Grows(trace[j].store.snapshots[k].status, Last(trace[j].store.snapshots).status);
  }

  /** The step is the server applying one of the controller's patches. */
  predicate MarksProcessed(s: State, a: Action)
    requires Enabled(s, a)
  {
    a.ByServer? && a.server.ServerApplies? && s.wire.writes[a.server.id].ControllerWrite?
  }

  /** The justification a Processed report must have: a delivery, or a drop after the full retry window. */
  ghost predicate Accounted(s: State)
    requires s.store.snapshots != []
  {
    || s.log.deliveries != []
    || exists d <- s.log.drops :: d.at >= Created(s.store) + RETRY_WINDOW && d.at >= d.startedAt + RETRY_WINDOW
  }

  /** With a webhook configured, no run holds a Processed report whose notification was neither delivered
      nor given up on after ten minutes, and the justification precedes the write that marks it. */
  lemma ProcessedIsAccountedFor(c: Config, trace: seq<State>, acts: seq<Action>, i: nat)
    requires IsRun(c, trace, acts) && i < |trace| && c.webhook && trace[i].store.server.Present?
    ensures trace[i].store.snapshots != []
    ensures trace[i].store.server.stored.status.phase == Processed ==> Accounted(trace[i])
    ensures i < |acts| && MarksProcessed(trace[i], acts[i]) ==> Accounted(trace[i])
  {
    RunKeeps(c, trace, acts, i);
    var s := trace[i];
    if s.log.drops != [] {
      assert s.log.drops[0] in s.log.drops;
    }
    if i < |acts| && MarksProcessed(s, acts[i]) {
      assert OnWire(s.wire, acts[i].server.id);
    }
  }

  /** A recorded notification time, in whole seconds, never precedes the second of some delivery the endpoint
      acknowledged: the clock is read after the reply, so it may be later, but not earlier. */
  lemma NotifiedMeansDelivered(c: Config, trace: seq<State>, acts: seq<Action>, i: nat)
    requires IsRun(c, trace, acts) && i < |trace| && trace[i].store.server.Present?
    requires trace[i].store.server.stored.status.notifiedAt.Some?
    ensures c.webhook
    ensures var n := trace[i].store.server.stored.status.notifiedAt.value;
            WholeSecond(n) == n && exists t <- trace[i].log.deliveries :: t < n + SECOND && WholeSecond(t) <= n
    ensures trace[i].store.server.stored.status.phase == Processed
  {
    RunKeeps(c, trace, acts, i);
    var log := trace[i].log;
    var t := trace[i].store.server.stored.status.notifiedAt.value;
    var k :| 0 <= k < |log.deliveries| && log.deliveries[k] < t + SECOND;
    WholeSecondBefore(log.deliveries[k], t);
    assert log.deliveries[k] in log.deliveries;
    assert GoodStatus(c, Last(trace[i].store.snapshots).status);
  }

  /** The step marks the report Processed or sends a notification for it. */
  predicate ActsOnReport(s: State, a: Action)
    requires Enabled(s, a)
  {
    MarksProcessed(s, a) || (a.ByController? && a.controller.BeginSend?)
  }

  /** No run notifies about, or marks Processed, a report younger than two minutes before the agent's
      diagnostics are on the server, however stale the copy the controller acted on; and what a young
      report's notification is built from carries the agent's own figures. */
  lemma YoungReportsWaitForDiagnostics(c: Config, trace: seq<State>, acts: seq<Action>, i: nat)
    requires IsRun(c, trace, acts) && i < |acts| && ActsOnReport(trace[i], acts[i])
    ensures trace[i].store.snapshots != []
    ensures trace[i].now - Created(trace[i].store) < GRACE_PERIOD ==>
              && Landed(trace[i].store)
              && forall a <- trace[i + 1].log.attempts | a.at == trace[i].now ::
                   a.payload.diagnostics.figures == c.report.figures
  {
    RunKeeps(c, trace, acts, i);
    RunKeeps(c, trace, acts, i + 1);
    var s := trace[i];
    if acts[i].ByController? {
      SeenIsRipe(c, s, s.controller.seen);
    } else {
      assert OnWire(s.wire, acts[i].server.id);
    }
    HistoryGrows(c, trace, acts, i, i + 1);
    assert trace[i + 1].store.snapshots[0] == trace[i].store.snapshots[0];
  }

  /** In every run at most one of the agent's writes is ever applied, the diagnostics are on the server
      exactly when one has been, and an agent that reports success is right. */
  lemma DiagnosticsLandOnce(c: Config, trace: seq<State>, acts: seq<Action>, i: nat)
    requires IsRun(c, trace, acts) && i < |trace|
    ensures forall j, k :: LandedBy(trace[i].wire, j) && LandedBy(trace[i].wire, k) ==> j == k
    ensures Landed(trace[i].store) <==> exists k :: LandedBy(trace[i].wire, k)
    ensures trace[i].agent == Finished(Success) ==> Landed(trace[i].store)
  {
    RunKeeps(c, trace, acts, i);
  }

  /** What the cache hands the controller never carries log lines, whatever the server holds. */
  lemma CacheHoldsNoLogLines(c: Config, trace: seq<State>, acts: seq<Action>, i: nat)
    requires IsRun(c, trace, acts) && i < |trace| && c.stripCache
    ensures !trace[i].controller.Idle? && !trace[i].controller.AwaitingPatch? ==>
              trace[i].controller.seen.status.diagnostics.lastLogLines == []
  {
    RunKeeps(c, trace, acts, i);
    var s := trace[i];
    if !s.controller.Idle? && !s.controller.AwaitingPatch? {
      var k :| 0 <= k < |s.store.snapshots| && s.controller.seen == Cached(c, s.store.snapshots[k]);
    }
  }

  lemma Extend(c: Config, trace: seq<State>, acts: seq<Action>, a: Action)
    returns (trace': seq<State>, acts': seq<Action>)
    requires IsRun(c, trace, acts) && Enabled(Last(trace), a)
    ensures IsRun(c, trace', acts') && trace'[0] == trace[0] && Last(trace') == Apply(c, Last(trace), a)
  {
    trace', acts' := trace + [Apply(c, Last(trace), a)], acts + [a];
    forall i | 0 <= i < |acts'| ensures Enabled(trace'[i], acts'[i]) && trace'[i + 1] == Apply(c, trace'[i], acts'[i]) {
      if i < |acts| {
        assert trace'[i] == trace[i] && trace'[i + 1] == trace[i + 1] && acts'[i] == acts[i];
      }
    }
  }

  /** The converse fails: after a lost reply the retry conflicts with the agent's own write, and the agent
      reports a status-write error although every diagnostic is in place. */
  lemma LandedYetReportedFailed(c: Config, s0: State)
    returns (trace: seq<State>, acts: seq<Action>)
    requires ValidConfig(c) && Init(s0)
    ensures IsRun(c, trace, acts) && trace[0] == s0
    ensures Landed(Last(trace).store) && Last(trace).agent == Finished(StatusWriteError)
  {
    var t1, a1 := Extend(c, [s0], [], ByAgent(Create(1, s0.now, false)));
    var t2, a2 := Extend(c, t1, a1, ByAgent(AttemptStatus));
    var t3, a3 := Extend(c, t2, a2, ByServer(ServerApplies(0)));
    var t4, a4 := Extend(c, t3, a3, ByAgent(StatusRetryable));
    var t5, a5 := Extend(c, t4, a4, ByAgent(AttemptStatus));
    var t6, a6 := Extend(c, t5, a5, ByServer(ServerRefuses(1)));
    trace, acts := Extend(c, t6, a6, ByAgent(StatusRejected));
  }

  // ---------- The patches on the wire are the JSON merge patches the clients compute

  /** In every run the controller only ever patches from a copy that was neither Processed nor notified, and
      the write it issues is the one that diffing that copy against the decided status gives, whatever
      metadata the copy carries. */
  lemma PatchesComeFromOpenCopies(c: Config, trace: seq<State>, acts: seq<Action>, i: nat, rest: map<Name, Json>)
    requires IsRun(c, trace, acts) && i < |acts| && acts[i] == ByController(IssuePatch)
    ensures var k := trace[i].controller;
            && k.seen.status.phase != Processed && k.seen.status.notifiedAt.None?
            && trace[i + 1].wire.writes == trace[i].wire.writes + [ControllerWrite(Stamp(k.notifiedAt))]
            && ControllerPatch(Report(rest, k.seen.status), k.notifiedAt)
               == StatusPatch(ProcessedMembers(Last(trace[i + 1].wire.writes).notifiedAt))
  {
    RunKeeps(c, trace, acts, i);
    var k := trace[i].controller;
    SeenIsRipe(c, trace[i], k.seen);
    ControllerPatchShape(Report(rest, k.seen.status), k.notifiedAt);
    StampedMembers(k.notifiedAt);
  }

  /** In every run, what the server stores when it applies a write is what RFC 7396 makes of the patch the
      client diffed: the controller's from a cached copy, the agent's from the object Create returned. The
      copy's metadata, resourceVersion included, need not be the stored object's. */
  lemma AppliedWriteIsMergePatch(c: Config, trace: seq<State>, acts: seq<Action>, i: nat,
                                 rest: map<Name, Json>, copyRest: map<Name, Json>)
    requires IsRun(c, trace, acts) && i < |acts| && acts[i].ByServer? && acts[i].server.ServerApplies?
    ensures
      var st, w := trace[i].store.server.stored, trace[i].wire.writes[acts[i].server.id];
      && (w.AgentWrite? ==>
          Merge(Encode(Report(rest, st.status)), AgentPatch(Report(copyRest, EMPTY_STATUS), w.diagnostics))
          == Encode(Report(rest, ApplyWrite(st, w).status)))
      && (w.ControllerWrite? ==>
          forall seen: Status, n | seen.phase != Processed && seen.notifiedAt.None? && Stamp(n) == w.notifiedAt ::
            Merge(Encode(Report(rest, st.status)), ControllerPatch(Report(copyRest, StripStatus(seen)), n))
            == Encode(Report(rest, ApplyWrite(st, w).status)))
  {
    RunKeeps(c, trace, acts, i);
    var s := trace[i];
    var st, w := s.store.server.stored, s.wire.writes[acts[i].server.id];
    if w.AgentWrite? {
      AgentPatchEffect(Report(copyRest, EMPTY_STATUS), c.report, Report(rest, st.status));
    } else {
      forall seen: Status, n | seen.phase != Processed && seen.notifiedAt.None? && Stamp(n) == w.notifiedAt
        ensures Merge(Encode(Report(rest, st.status)), ControllerPatch(Report(copyRest, StripStatus(seen)), n))
             == Encode(Report(rest, ApplyWrite(st, w).status))
      {
        ControllerPatchEffect(Report(copyRest, seen), n, Report(rest, st.status));
      }
    }
  }

  // ---------- The stripped cache is invisible to the server

  predicate SameStored(a: Stored, b: Stored) {
    a == b.(status := StripStatus(b.status))
  }

  /** The controllers are at the same point, one holding a stripped copy of what the other holds. */
  predicate SameController(k: Controller, l: Controller) {
    match k
    case Idle => l.Idle?
    case AwaitingPatch => l.AwaitingPatch?
    case Fetched(seen) => l.Fetched? && SameStored(seen, l.seen)
    case Cleared(seen) => l.Cleared? && SameStored(seen, l.seen)
    case Sending(seen) => l.Sending? && SameStored(seen, l.seen)
    case Acknowledged(seen) => l.Acknowledged? && SameStored(seen, l.seen)
    case Deciding(seen, n) => l.Deciding? && SameStored(seen, l.seen) && n == l.notifiedAt
  }

  predicate SameButLogLines(s: State, t: State) {
    && s.now == t.now && s.startedAt == t.startedAt && s.store == t.store && s.wire == t.wire && s.agent == t.agent
    && SameController(s.controller, t.controller)
    && s.log.deliveries == t.log.deliveries && s.log.drops == t.log.drops
  }

  lemma StepIgnoresLogLines(c: Config, s: State, t: State, a: Action)
    requires SameButLogLines(s, t) && (Enabled(s, a) || Enabled(t, a))
    ensures Enabled(s, a) && Enabled(t, a)
    ensures SameButLogLines(Apply(c.(stripCache := true), s, a), Apply(c.(stripCache := false), t, a))
  {
  }

  lemma {:induction false} StrippedRunIsMatched(c: Config, trace: seq<State>, acts: seq<Action>)
    returns (full: seq<State>)
    requires IsRun(c.(stripCache := true), trace, acts)
    ensures IsRun(c.(stripCache := false), full, acts)
    ensures forall i :: 0 <= i < |trace| ==> SameButLogLines(trace[i], full[i])
  {
    if acts == [] {
      full := trace;
    } else {
      var init := StrippedRunIsMatched(c, DropLast(trace), DropLast(acts));
      var n := |acts| - 1;
      StepIgnoresLogLines(c, trace[n], init[n], acts[n]);
      full := init + [Apply(c.(stripCache := false), init[n], acts[n])];
    }
  }

  lemma {:induction false} FullRunIsMatched(c: Config, full: seq<State>, acts: seq<Action>)
    returns (trace: seq<State>)
    requires IsRun(c.(stripCache := false), full, acts)
    ensures IsRun(c.(stripCache := true), trace, acts)
    ensures forall i :: 0 <= i < |full| ==> SameButLogLines(trace[i], full[i])
  {
    if acts == [] {
      trace := full;
    } else {
      var init := FullRunIsMatched(c, DropLast(full), DropLast(acts));
      var n := |acts| - 1;
      StepIgnoresLogLines(c, init[n], full[n], acts[n]);
      trace := init + [Apply(c.(stripCache := true), init[n], acts[n])];
    }
  }

  /** The merge patch a controller about to send one would compute from the copy it holds. */
  function PatchFrom(s: State, rest: map<Name, Json>): (p: Json)
    requires s.controller.Deciding?
  {
    ControllerPatch(Report(rest, s.controller.seen.status), s.controller.notifiedAt)
  }

  /** Wherever two runs with the same actions both patch, the JSON they send, each diffed from its own copy, is
      the same. */
  ghost predicate SamePatches(acts: seq<Action>, trace: seq<State>, full: seq<State>, rest: map<Name, Json>) {
    forall i :: 0 <= i < |acts| && i < |trace| && i < |full| && acts[i] == ByController(IssuePatch) ==>
      && trace[i].controller.Deciding? && full[i].controller.Deciding?
      && PatchFrom(trace[i], rest) == PatchFrom(full[i], rest)
  }

  lemma PatchesAgree(c: Config, trace: seq<State>, full: seq<State>, acts: seq<Action>, rest: map<Name, Json>)
    requires IsRun(c.(stripCache := true), trace, acts) && IsRun(c.(stripCache := false), full, acts)
    requires forall i :: 0 <= i < |trace| ==> SameButLogLines(trace[i], full[i])
    ensures SamePatches(acts, trace, full, rest)
  {
    forall i | 0 <= i < |acts| && acts[i] == ByController(IssuePatch)
      ensures trace[i].controller.Deciding? && full[i].controller.Deciding?
      ensures PatchFrom(trace[i], rest) == PatchFrom(full[i], rest)
    {
      PatchesComeFromOpenCopies(c.(stripCache := true), trace, acts, i, rest);
      PatchesComeFromOpenCopies(c.(stripCache := false), full, acts, i, rest);
      assert SameButLogLines(trace[i + 1], full[i + 1]);
    }
  }

  /** Every run of a controller on the stripped cache is matched, action for action, by one that works from
      full copies: at every point the server, the wire and the notification record are the same, and so is
      every merge patch the two compute. */
  lemma StrippedCacheIsInvisible(c: Config, trace: seq<State>, acts: seq<Action>, rest: map<Name, Json>)
    returns (full: seq<State>)
    requires IsRun(c.(stripCache := true), trace, acts)
    ensures IsRun(c.(stripCache := false), full, acts)
    ensures forall i :: 0 <= i < |trace| ==> SameButLogLines(trace[i], full[i])
    ensures SamePatches(acts, trace, full, rest)
  {
    full := StrippedRunIsMatched(c, trace, acts);
    PatchesAgree(c, trace, full, acts, rest);
  }

  /** And the other way about: stripping the cache takes no run away. */
  lemma StrippedCacheLosesNothing(c: Config, full: seq<State>, acts: seq<Action>, rest: map<Name, Json>)
    returns (trace: seq<State>)
    requires IsRun(c.(stripCache := false), full, acts)
    ensures IsRun(c.(stripCache := true), trace, acts)
    ensures forall i :: 0 <= i < |full| ==> SameButLogLines(trace[i], full[i])
    ensures SamePatches(acts, trace, full, rest)
  {
    trace := FullRunIsMatched(c, full, acts);
    PatchesAgree(c, trace, full, acts, rest);
  }
}
