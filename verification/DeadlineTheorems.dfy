/** How long a failing endpoint can hold a report back: exactly while the process is younger than the retry
    window, and so for any length of time when processes keep being replaced. */
module DeadlineTheorems {
  import opened Bytes
  import opened Clock
  import opened CrashReport
  import opened Lifecycle
  import opened LifecycleTheorems

  // ---------- For every run: when a failed delivery is given up

  /** The step gives the notification up: a drop is recorded and the report goes on to be marked. */
  predicate GivesUp(s: State, t: State) {
    t.controller.Deciding? && t.log.drops == s.log.drops + [Drop(s.now, s.startedAt)]
  }

  /** The step holds the report back for another try, with nothing to show for this one. */
  predicate HoldsBack(s: State, t: State) {
    t == s.(controller := Idle)
  }

  /** In every run, a failed delivery is given up exactly when the window has passed since both the report's
      creation and the current process's start, and the report is held back otherwise. So one that is already
      as old as the window is held back exactly by a process that is younger than it and started after the
      report was created. */
  lemma GivesUpIff(c: Config, trace: seq<State>, acts: seq<Action>, i: nat)
    requires IsRun(c, trace, acts) && i < |acts| && acts[i] == ByController(SendFails)
    ensures trace[i].store.snapshots != []
    ensures var s, t, created := trace[i], trace[i + 1], Created(trace[i].store);
            && (GivesUp(s, t) <==> s.now >= created + RETRY_WINDOW && s.now >= s.startedAt + RETRY_WINDOW)
            && (HoldsBack(s, t) <==> !GivesUp(s, t))
            && (s.now >= created + RETRY_WINDOW ==>
                (HoldsBack(s, t) <==> s.startedAt > created && s.now < s.startedAt + RETRY_WINDOW))
  {
    RunKeeps(c, trace, acts, i);
    SeenIsRipe(c, trace[i], trace[i].controller.seen);
  }

  lemma {:induction false} StartedAtStays(c: Config, trace: seq<State>, acts: seq<Action>, i: nat, j: nat)
    requires IsRun(c, trace, acts) && i <= j < |trace|
    requires forall k :: i <= k < j ==> acts[k] != ByController(Restart)
    ensures trace[j].startedAt == trace[i].startedAt
  {
    if i < j {
      StartedAtStays(c, trace, acts, i, j - 1);
      assert acts[j - 1] != ByController(Restart);
    }
  }

  /** The documented window, then, is kept by a process that has run for as long: once it has gone through a whole
      window without a restart, no failed delivery of a report that old holds it back any longer. */
  lemma SteadyProcessGivesUp(c: Config, trace: seq<State>, acts: seq<Action>, i: nat, j: nat)
    requires IsRun(c, trace, acts) && i <= j < |acts| && acts[j] == ByController(SendFails)
    requires forall k :: i <= k < j ==> acts[k] != ByController(Restart)
    requires trace[j].now >= trace[i].now + RETRY_WINDOW
    ensures trace[j].store.snapshots != []
    ensures trace[j].now >= Created(trace[j].store) + RETRY_WINDOW ==> GivesUp(trace[j], trace[j + 1])
  {
    StartedAtStays(c, trace, acts, i, j);
    RunKeeps(c, trace, acts, i);
    GivesUpIff(c, trace, acts, j);
  }

  // ---------- The witness: a report held back past any bound

  /** The report is stored and Pending, every delivery so far has failed and none has been given up. */
  predicate Pinned(s: State, attempts: nat) {
    && s.controller.Idle? && s.store.server.Present? && s.store.snapshots != []
    && Last(s.store.snapshots) == s.store.server.stored
    && s.store.server.stored.status.phase == Pending && s.store.server.stored.status.notifiedAt.None?
    && s.store.server.stored.created == Created(s.store) <= s.now
    && |s.log.attempts| == attempts && s.log.deliveries == [] && s.log.drops == []
  }

  /** A report pinned by the agent's two writes, before any delivery. */
  lemma FreshlyPending(c: Config, s0: State) returns (trace: seq<State>, acts: seq<Action>)
    requires ValidConfig(c) && Init(s0)
    ensures IsRun(c, trace, acts) && trace[0] == s0 && Pinned(Last(trace), 0)
  {
    var t1, a1 := Extend(c, [s0], [], ByAgent(Create(1, s0.now, false)));
    var t2, a2 := Extend(c, t1, a1, ByAgent(AttemptStatus));
    var t3, a3 := Extend(c, t2, a2, ByServer(ServerApplies(0)));
    trace, acts := Extend(c, t3, a3, ByAgent(StatusSucceeds));
  }

  /** A new process reads the report just short of the window after its start, and checks it. */
  lemma LateLook(c: Config, trace: seq<State>, acts: seq<Action>, n: nat)
    returns (trace': seq<State>, acts': seq<Action>)
    requires IsRun(c, trace, acts) && c.webhook && Pinned(Last(trace), n)
    ensures IsRun(c, trace', acts') && trace'[0] == trace[0]
    ensures var s, t := Last(trace), Last(trace');
            && t.controller == Cleared(Cached(c, s.store.server.stored))
            && t == s.(now := s.now + RETRY_WINDOW - 1, startedAt := s.now, controller := t.controller)
  {
    var t1, a1 := Extend(c, trace, acts, ByController(Restart));
    var t2, a2 := Extend(c, t1, a1, Tick(RETRY_WINDOW - 1));
    var t3, a3 := Extend(c, t2, a2, ByController(Fetch(|Last(trace).store.snapshots| - 1)));
    trace', acts' := Extend(c, t3, a3, ByController(Check));
  }

  /** It tries to deliver, fails, and leaves the report for a retry: pinned as before, almost a window older. */
  lemma PinnedLonger(c: Config, trace: seq<State>, acts: seq<Action>, n: nat)
    returns (trace': seq<State>, acts': seq<Action>)
    requires IsRun(c, trace, acts) && c.webhook && Pinned(Last(trace), n)
    ensures IsRun(c, trace', acts') && trace'[0] == trace[0] && Pinned(Last(trace'), n + 1)
    ensures Last(trace').now == Last(trace).now + RETRY_WINDOW - 1 && Last(trace').store == Last(trace).store
  {
    var t1, a1 := LateLook(c, trace, acts, n);
    var t2, a2 := Extend(c, t1, a1, ByController(BeginSend(false)));
    trace', acts' := Extend(c, t2, a2, ByController(SendFails));
  }

  lemma {:induction false} PinnedFor(c: Config, s0: State, n: nat) returns (trace: seq<State>, acts: seq<Action>)
    requires ValidConfig(c) && Init(s0) && c.webhook
    ensures IsRun(c, trace, acts) && trace[0] == s0 && Pinned(Last(trace), n)
    ensures Last(trace).now - Created(Last(trace).store) >= n
  {
    if n == 0 {
      trace, acts := FreshlyPending(c, s0);
    } else {
      trace, acts := PinnedFor(c, s0, n - 1);
      trace, acts := PinnedLonger(c, trace, acts, n - 1);
    }
  }

  /** A dead endpoint can pin a report: for every bound there is a run, from every initial state, in which a report
      older than that is still Pending, all its deliveries having failed and none having been given up. */
  lemma PinnedPastAnyBound(c: Config, s0: State, bound: nat) returns (trace: seq<State>, acts: seq<Action>)
    requires ValidConfig(c) && Init(s0) && c.webhook
    ensures IsRun(c, trace, acts) && trace[0] == s0
    ensures Pinned(Last(trace), bound + 1) && Last(trace).now - Created(Last(trace).store) > bound
  {
    trace, acts := PinnedFor(c, s0, bound + 1);
  }
}
