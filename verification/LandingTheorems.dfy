/** When diagnostics can still land after the agent has stopped, and so when its error is the last word. */
module LandingTheorems {
  import opened Bytes
  import opened CrashReport
  import opened Lifecycle

  /** Some continuation of the run has the diagnostics on the server. */
  ghost predicate CanLand(c: Config, s: State) {
    exists more, t :: Path(c, s, more, t) && Landed(t.store)
  }

  /** An agent write is still under way, and the report is there with the version it was locked on. */
  predicate Underway(s: State, id: nat) {
    && OnWire(s.wire, id) && s.wire.writes[id].AgentWrite?
    && s.store.server.Present? && s.store.snapshots != [] && s.store.server.stored.version == Base(s.store)
  }

  /** The agent has stopped, nothing has landed and nothing that could land is under way. */
  ghost predicate Settled(s: State) {
    s.agent.Finished? && !Landed(s.store) && forall id :: !Underway(s, id)
  }

  lemma ServerStaysSettled(c: Config, s: State, a: ServerAction)
    requires ValidConfig(c) && Inv(c, s) && ServerEnabled(s, a) && Settled(s)
    ensures Settled(ServerStep(s, a))
  {
    var s' := ServerStep(s, a);
    ServerKeeps(c, s, a);
    if a.ServerApplies? {
      assert !Underway(s, a.id);
      ApplyWriteGrows(c, s.store.server.stored, s.wire.writes[a.id]);
    }
    forall id ensures !Underway(s', id) {
      assert !Underway(s, id);
    }
  }

  /** No step of anyone revives a settled report. */
  lemma StaysSettled(c: Config, s: State, a: Action)
    requires ValidConfig(c) && Inv(c, s) && Enabled(s, a) && Settled(s)
    ensures Settled(Apply(c, s, a))
  {
    if a.ByServer? {
      ServerStaysSettled(c, s, a.server);
    } else {
      var s' := Apply(c, s, a);
      assert s'.store == s.store && s'.agent.Finished?;
      forall id ensures !Underway(s', id) {
        assert !Underway(s, id);
      }
    }
  }

  lemma {:induction false} SettledForGood(c: Config, s: State, more: seq<Action>, t: State)
    requires ValidConfig(c) && Inv(c, s) && Settled(s) && Path(c, s, more, t)
    ensures Settled(t)
    decreases |more|
  {
    if more != [] {
      StaysSettled(c, s, more[0]);
      StepKeeps(c, s, more[0]);
      SettledForGood(c, Apply(c, s, more[0]), more[1..], t);
    }
  }

  lemma UnderwayCanLand(c: Config, s: State, id: nat)
    requires ValidConfig(c) && Inv(c, s) && Underway(s, id)
    ensures CanLand(c, s)
  {
    var a := ByServer(ServerApplies(id));
    assert Enabled(s, a);
    ApplyWriteGrows(c, s.store.server.stored, s.wire.writes[id]);
    var t := Apply(c, s, a);
    assert Landed(t.store);
    assert Path(c, t, [], t) && [a][1..] == [];
    assert Path(c, s, [a], t);
  }

  /** Once the agent has stopped, whatever it reported, its diagnostics are or may yet come to be on the server
      exactly when they are there now or one of its writes is under way to the version it was locked on. */
  lemma CanLandIff(c: Config, trace: seq<State>, acts: seq<Action>)
    requires IsRun(c, trace, acts) && Last(trace).agent.Finished?
    ensures CanLand(c, Last(trace)) <==> Landed(Last(trace).store) || exists id :: Underway(Last(trace), id)
  {
    var s := Last(trace);
    RunKeeps(c, trace, acts, |acts|);
    if Landed(s.store) {
      assert Path(c, s, [], s);
    } else if id :| Underway(s, id) {
      UnderwayCanLand(c, s, id);
    } else if CanLand(c, s) {
      var more, t :| Path(c, s, more, t) && Landed(t.store);
      SettledForGood(c, s, more, t);
    }
  }

  // ---------- What the caller can tell: without a retry, a reported error is final

  /** No write is both applied and refused, and as long as no attempt had to be repeated the agent has at most
      one write, whose fate it knows when it reports. */
  predicate OneTry(s: State) {
    && s.wire.applied !! s.wire.refused
    && (s.agent.NotStarted? || s.agent.Ready? ==> forall w <- s.wire.writes :: !w.AgentWrite?)
    && (s.agent.Ready? ==> s.agent.left == STATUS_STEPS)
    && (s.agent.Awaiting? ==> forall i :: 0 <= i < |s.wire.writes| && s.wire.writes[i].AgentWrite? ==> i == s.agent.id)
    && s.agent != Finished(ContextError)
    && (s.agent == Finished(StatusWriteError) ==>
        forall i :: 0 <= i < |s.wire.writes| && s.wire.writes[i].AgentWrite? ==> i in s.wire.refused)
  }

  lemma AgentKeepsOneTry(c: Config, s: State, a: AgentAction)
    requires Inv(c, s) && AgentEnabled(s, a) && !a.StatusRetryable? && OneTry(s)
    ensures OneTry(AgentStep(c, s, a))
  {
  }

  lemma ControllerKeepsOneTry(c: Config, s: State, a: ControllerAction)
    requires Inv(c, s) && ControllerEnabled(s, a) && OneTry(s)
    ensures OneTry(ControllerStep(c, s, a))
  {
    var s' := ControllerStep(c, s, a);
    assert s'.agent == s.agent && s'.wire.applied == s.wire.applied && s'.wire.refused == s.wire.refused;
    assert s'.wire.writes == s.wire.writes || exists n :: s'.wire.writes == s.wire.writes + [ControllerWrite(n)];
  }

  lemma ServerKeepsOneTry(c: Config, s: State, a: ServerAction)
    requires ServerEnabled(s, a) && OneTry(s)
    ensures OneTry(ServerStep(s, a))
  {
    assert ServerStep(s, a).agent == s.agent && ServerStep(s, a).wire.writes == s.wire.writes;
  }

  lemma {:induction false} RunKeepsOneTry(c: Config, trace: seq<State>, acts: seq<Action>, i: nat)
    requires IsRun(c, trace, acts) && i < |trace|
    requires forall j :: 0 <= j < i ==> acts[j] != ByAgent(StatusRetryable)
    ensures OneTry(trace[i])
  {
    if i > 0 {
      RunKeepsOneTry(c, trace, acts, i - 1);
      RunKeeps(c, trace, acts, i - 1);
      match acts[i - 1]
      case ByAgent(x) => AgentKeepsOneTry(c, trace[i - 1], x);
      case ByController(x) => ControllerKeepsOneTry(c, trace[i - 1], x);
      case ByServer(x) => ServerKeepsOneTry(c, trace[i - 1], x);
      case Tick(_) =>
    }
  }

  /** A status-write error reported on the first attempt is the last word: nothing has landed and, whatever
      happens next, nothing will. */
  lemma FirstTryErrorIsFinal(c: Config, trace: seq<State>, acts: seq<Action>)
    requires IsRun(c, trace, acts) && Last(trace).agent == Finished(StatusWriteError)
    requires ByAgent(StatusRetryable) !in acts
    ensures !CanLand(c, Last(trace))
  {
    var s := Last(trace);
    RunKeeps(c, trace, acts, |acts|);
    RunKeepsOneTry(c, trace, acts, |acts|);
    forall id ensures !LandedBy(s.wire, id) && !Underway(s, id) {}
    CanLandIff(c, trace, acts);
  }
}
