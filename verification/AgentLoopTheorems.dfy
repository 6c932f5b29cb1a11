/** What the agent's event loop guarantees, over every interleaving. */
module AgentLoopTheorems {
  import opened Bytes
  import Cooldown
  import opened AgentLoop

  /** At every moment the handlers running are no more than the slots held, and those no more than the limit. */
  lemma HandlersAreBounded(c: Config, trace: seq<State>, acts: seq<Action>, i: nat)
    requires IsRun(c, trace, acts) && i < |trace|
    ensures Tally(trace[i].books.places, IsRunning) <= trace[i].books.slots <= c.maxConcurrentReports
  {
    RunKeeps(c, trace, acts, i);
    TallyLess(trace[i].books.places, IsRunning, HoldsSlot);
  }

  predicate EndsWith(p: Place, o: Outcome) {
    Finished(p) && p.outcome == o
  }

  /** How many events have finished with this outcome. */
  function Ended(places: seq<Place>, o: Outcome): (n: nat)
  {
    if places == [] then 0
    else Ended(DropLast(places), o) + if EndsWith(Last(places), o) then 1 else 0
  }

  lemma EndedSnoc(places: seq<Place>, p: Place, o: Outcome)
    ensures Ended(places + [p], o) == Ended(places, o) + if EndsWith(p, o) then 1 else 0
  {
    assert DropLast(places + [p]) == places;
  }

  lemma {:induction false} EndedMove(places: seq<Place>, e: nat, p: Place, o: Outcome)
    requires e < |places|
    ensures Ended(places[e := p], o) + (if EndsWith(places[e], o) then 1 else 0)
         == Ended(places, o) + if EndsWith(p, o) then 1 else 0
  {
    if e == |places| - 1 {
      assert DropLast(places[e := p]) == DropLast(places);
    } else {
      EndedMove(DropLast(places), e, p, o);
      assert DropLast(places[e := p]) == DropLast(places)[e := p];
    }
  }

  /** The outcome counters agree with the events, label by label. */
  ghost predicate Labelled(b: Books) {
    forall o :: b.counters.outcomes[o] == Ended(b.places, o)
  }

  /** A step that counts nothing and moves one event between places that are not the end of it. */
  lemma MoveKeepsLabels(b: Books, b': Books, e: nat, p: Place)
    requires Labelled(b) && e < |b.places| && b'.places == b.places[e := p]
    requires b'.counters.outcomes == b.counters.outcomes
    requires forall o :: EndsWith(p, o) <==> EndsWith(b.places[e], o)
    ensures Labelled(b')
  {
    forall o ensures b'.counters.outcomes[o] == Ended(b'.places, o) {
      EndedMove(b.places, e, p, o);
    }
  }

  lemma FinishKeepsLabels(b: Books, b': Books, e: nat, outcome: Outcome)
    requires Labelled(b) && At(b, e, Running) && b'.places == b.places[e := Handled(outcome)]
    requires b'.counters.outcomes == b.counters.outcomes + multiset{outcome}
    ensures Labelled(b')
  {
    forall o ensures b'.counters.outcomes[o] == Ended(b'.places, o) {
      EndedMove(b.places, e, Handled(outcome), o);
    }
  }

  lemma EnterKeepsLabels(b: Books, ok: bool)
    requires Labelled(b)
    ensures Labelled(Enter(b, ok))
  {
    forall o ensures Enter(b, ok).counters.outcomes[o] == Ended(Enter(b, ok).places, o) {
      EndedSnoc(b.places, if ok then Waiting else Suppressed, o);
    }
  }

  lemma ReaderKeepsLabels(c: Config, s: State, a: ReaderAction)
    requires ReaderEnabled(c, s, a) && Labelled(s.books)
    ensures Labelled(ReaderStep(c, s, a).books)
  {
    var b' := ReaderStep(c, s, a).books;
    if a.Receive? {
      EnterKeepsLabels(s.books, Cooldown.Permits(c.window, s.memory.last, Cooldown.Crash(a.key, s.now)));
    } else if s.reader.Holding? {
      MoveKeepsLabels(s.books, b', s.reader.event, b'.places[s.reader.event]);
    }
  }

  lemma WorkerKeepsLabels(s: State, a: WorkerAction)
    requires WorkerEnabled(s, a) && Labelled(s.books)
    ensures Labelled(WorkerStep(s, a).books)
  {
    var b' := WorkerStep(s, a).books;
    if a.Finish? {
      FinishKeepsLabels(s.books, b', a.event, HandleCrashEvent(a.resolution, a.creation));
    } else {
      MoveKeepsLabels(s.books, b', a.event, b'.places[a.event]);
    }
  }

  lemma {:induction false} RunKeepsLabels(c: Config, trace: seq<State>, acts: seq<Action>, i: nat)
    requires IsRun(c, trace, acts) && i < |trace|
    ensures Labelled(trace[i].books)
  {
    if i > 0 {
      RunKeepsLabels(c, trace, acts, i - 1);
      match acts[i - 1]
      case ByReader(x) => ReaderKeepsLabels(c, trace[i - 1], x);
      case ByWorker(x) => WorkerKeepsLabels(trace[i - 1], x);
      case ByRunner(x) => assert RunnerStep(trace[i - 1], x).books == trace[i - 1].books;
    }
  }

  /** Conservation: every event counted as received is in exactly one of suppressed, discarded at shutdown,
      held by the reader (which holds at most one), in a handler, or finished with one outcome, and each outcome
      is counted as often as events finished with it. */
  lemma EventsAreConserved(c: Config, trace: seq<State>, acts: seq<Action>, i: nat)
    requires IsRun(c, trace, acts) && i < |trace|
    ensures var b := trace[i].books;
            b.counters.received == b.counters.suppressed + b.counters.discarded
                                   + (if trace[i].reader.Holding? then 1 else 0)
                                   + Tally(b.places, IsRunning) + |b.counters.outcomes|
    ensures forall o :: trace[i].books.counters.outcomes[o] == Ended(trace[i].books.places, o)
  {
    RunKeeps(c, trace, acts, i);
    RunKeepsLabels(c, trace, acts, i);
    TallyPartition(trace[i].books.places);
    HeldTally(trace[i].reader, trace[i].books.places);
  }

  lemma {:induction false} NoneHeld(places: seq<Place>)
    requires forall e :: 0 <= e < |places| ==> !WithReader(places[e])
    ensures Tally(places, WithReader) == 0
  {
    if places != [] {
      NoneHeld(DropLast(places));
    }
  }

  lemma {:induction false} HeldTally(reader: Reader, places: seq<Place>)
    requires InvReader(reader, places)
    ensures Tally(places, WithReader) == if reader.Holding? then 1 else 0
  {
    if reader.Holding? {
      TallyMove(places, reader.event, Discarded, WithReader);
      NoneHeld(places[reader.event := Discarded]);
    } else {
      NoneHeld(places);
    }
  }

  /** wg.Wait has begun. */
  predicate WaitStarted(s: State) {
    s.runner.AwaitDrain? || s.runner.ReturnedClean?
  }

  /** On the cancellation path without a drain timeout, no wg.Add follows the start of wg.Wait. */
  lemma NoAddAfterWait(c: Config, trace: seq<State>, acts: seq<Action>, i: nat)
    requires IsRun(c, trace, acts) && i < |acts| && acts[i] == ByReader(AddToGroup)
    ensures WaitStarted(trace[i]) ==> trace[i].timedOut
  {
    RunKeeps(c, trace, acts, i);
  }

  // ---------- Exactly when a wg.Add can follow

  /** The run goes on to a wg.Add. */
  ghost predicate GoesOnToAdd(c: Config, trace: seq<State>, acts: seq<Action>, trace': seq<State>, acts': seq<Action>) {
    IsRun(c, trace', acts') && trace <= trace' && acts < acts' && Last(acts') == ByReader(AddToGroup)
  }

  ghost predicate AddCanFollow(c: Config, trace: seq<State>, acts: seq<Action>) {
    exists trace', acts' :: GoesOnToAdd(c, trace, acts, trace', acts')
  }

  lemma Extend(c: Config, trace: seq<State>, acts: seq<Action>, a: Action)
    returns (trace': seq<State>, acts': seq<Action>)
    requires IsRun(c, trace, acts) && Enabled(c, Last(trace), a)
    ensures trace' == trace + [Apply(c, Last(trace), a)] && acts' == acts + [a]
    ensures IsRun(c, trace', acts') && Last(trace') == Apply(c, Last(trace), a) && Last(acts') == a
  {
    trace', acts' := trace + [Apply(c, Last(trace), a)], acts + [a];
    forall i | 0 <= i < |acts'| ensures Enabled(c, trace'[i], acts'[i]) &&
        trace'[i + 1] == Apply(c, trace'[i], acts'[i]) {
      if i < |acts| {
        assert trace'[i] == trace[i] && trace'[i + 1] == trace[i + 1] && acts'[i] == acts[i];
      }
    }
  }

  /** A longer run that goes on to an Add takes the shorter one there. */
  lemma FollowsLater(c: Config, trace: seq<State>, acts: seq<Action>, later: seq<State>, laterActs: seq<Action>)
    requires trace <= later && acts <= laterActs && AddCanFollow(c, later, laterActs)
    ensures AddCanFollow(c, trace, acts)
  {
    var trace', acts' :| GoesOnToAdd(c, later, laterActs, trace', acts');
    assert GoesOnToAdd(c, trace, acts, trace', acts');
  }

  lemma AddFromSlot(c: Config, trace: seq<State>, acts: seq<Action>)
    requires IsRun(c, trace, acts) && Last(trace).reader.Holding? &&
             At(Last(trace).books, Last(trace).reader.event, WithSlot)
    ensures AddCanFollow(c, trace, acts)
  {
    var t, a := Extend(c, trace, acts, ByReader(AddToGroup));
    assert GoesOnToAdd(c, trace, acts, t, a);
  }

  /** With a slot free, the reader takes it and joins the group. */
  lemma AddFromFreeSlot(c: Config, trace: seq<State>, acts: seq<Action>)
    requires IsRun(c, trace, acts) && Last(trace).reader.Holding? &&
             At(Last(trace).books, Last(trace).reader.event, Waiting)
    requires Last(trace).books.slots < c.maxConcurrentReports
    ensures AddCanFollow(c, trace, acts)
  {
    var t, a := Extend(c, trace, acts, ByReader(TakeSlot));
    AddFromSlot(c, t, a);
    FollowsLater(c, trace, acts, t, a);
  }

  /** A worker past its handler can give its slot up. */
  lemma AddAfterRelease(c: Config, trace: seq<State>, acts: seq<Action>, e: nat)
    requires IsRun(c, trace, acts) && Last(trace).reader.Holding? &&
             At(Last(trace).books, Last(trace).reader.event, Waiting)
    requires e < |Last(trace).books.places| && Last(trace).books.places[e].Handled?
    ensures AddCanFollow(c, trace, acts)
  {
    RunKeeps(c, trace, acts, |acts|);
    if Last(trace).books.slots == 0 {
      TallyZero(Last(trace).books.places, HoldsSlot);
    }
    var t, a := Extend(c, trace, acts, ByWorker(ReleaseSlot(e)));
    AddFromFreeSlot(c, t, a);
    FollowsLater(c, trace, acts, t, a);
  }

  /** Holding an event and waiting for a slot: if none is free, some worker can finish and free one. */
  lemma AddFromWaiting(c: Config, trace: seq<State>, acts: seq<Action>)
    requires IsRun(c, trace, acts) && Last(trace).reader.Holding? &&
             At(Last(trace).books, Last(trace).reader.event, Waiting)
    ensures AddCanFollow(c, trace, acts)
  {
    var s := Last(trace);
    RunKeeps(c, trace, acts, |acts|);
    if s.books.slots < c.maxConcurrentReports {
      AddFromFreeSlot(c, trace, acts);
    } else {
      var e := TallyPositive(s.books.places, HoldsSlot);
      assert !WithReader(s.books.places[e]);
      if s.books.places[e].Handled? {
        AddAfterRelease(c, trace, acts, e);
      } else {
        var t, a := Extend(c, trace, acts, ByWorker(Finish(e, NotFound, OtherError)));
        AddAfterRelease(c, t, a, e);
        FollowsLater(c, trace, acts, t, a);
      }
    }
  }

  /** No finite set of keys holds them all: one longer than each of them is missing. */
  lemma {:induction false} LongerThanAll(keys: set<Cooldown.Key>) returns (n: nat)
    ensures forall k <- keys :: |k| < n
    decreases |keys|
  {
    if keys == {} {
      n := 0;
    } else {
      var k :| k in keys;
      var m := LongerThanAll(keys - {k});
      n := if |k| < m then m else |k| + 1;
    }
  }

  /** Between events: a crash of a container not reported lately will do. */
  lemma AddFromReading(c: Config, trace: seq<State>, acts: seq<Action>)
    requires IsRun(c, trace, acts) && Last(trace).reader.Reading?
    ensures AddCanFollow(c, trace, acts)
  {
    var n := LongerThanAll(Last(trace).memory.last.Keys);
    var key: Cooldown.Key := seq(n, _ => 0);
    assert key !in Last(trace).memory.last;
    var t, a := Extend(c, trace, acts, ByReader(Receive(key)));
    AddFromWaiting(c, t, a);
    FollowsLater(c, trace, acts, t, a);
  }

  lemma {:induction false} ExitedForGood(c: Config, trace: seq<State>, acts: seq<Action>, i: nat, j: nat)
    requires IsRun(c, trace, acts) && i <= j < |trace| && trace[i].reader.Exited?
    ensures trace[j].reader.Exited?
  {
    if i < j {
      ExitedForGood(c, trace, acts, i, j - 1);
    }
  }

  /** At any point of any run, in particular where wg.Wait begins, a wg.Add can still follow exactly when the
      reader has not exited: nothing else, a timeout included, makes it impossible or possible. */
  lemma AddCanFollowIff(c: Config, trace: seq<State>, acts: seq<Action>)
    requires IsRun(c, trace, acts)
    ensures AddCanFollow(c, trace, acts) <==> !Last(trace).reader.Exited?
  {
    RunKeeps(c, trace, acts, |acts|);
    match Last(trace).reader
    case Exited =>
      if AddCanFollow(c, trace, acts) {
        var trace', acts' :| GoesOnToAdd(c, trace, acts, trace', acts');
        ExitedForGood(c, trace', acts', |acts|, |acts'| - 1);
      }
    case Reading => AddFromReading(c, trace, acts);
    case Holding(e) =>
      match Last(trace).books.places[e]
      case Waiting => AddFromWaiting(c, trace, acts);
      case WithSlot => AddFromSlot(c, trace, acts);
      case Counted =>
        var t, a := Extend(c, trace, acts, ByReader(Spawn));
        AddFromReading(c, t, a);
        FollowsLater(c, trace, acts, t, a);
  }

  /** The wait begins with this step. */
  predicate BeginsWait(a: Action) {
    a.ByRunner? && (a.runner.ReaderStopped? || a.runner.ReaderTimeout?)
  }

  lemma {:induction false} WaitGoesOn(c: Config, trace: seq<State>, acts: seq<Action>, i: nat, j: nat)
    requires IsRun(c, trace, acts) && i <= j < |trace| && WaitStarted(trace[i])
    ensures WaitStarted(trace[j])
  {
    if i < j {
      WaitGoesOn(c, trace, acts, i, j - 1);
    }
  }

  /** So of all runs in which the wait has just begun, those that can add to the group after all are the ones
      that timed out waiting for a reader that had not exited; and whatever they go on to, the wait is on. */
  lemma AddAfterWaitIff(c: Config, trace: seq<State>, acts: seq<Action>)
    requires IsRun(c, trace, acts) && acts != [] && BeginsWait(Last(acts))
    ensures AddCanFollow(c, trace, acts) <==> Last(acts) == ByRunner(ReaderTimeout) && !Last(trace).reader.Exited?
    ensures forall trace', acts' | GoesOnToAdd(c, trace, acts, trace', acts') :: WaitStarted(trace'[|acts'| - 1])
  {
    AddCanFollowIff(c, trace, acts);
    forall trace', acts' | GoesOnToAdd(c, trace, acts, trace', acts') ensures WaitStarted(trace'[|acts'| - 1]) {
      WaitGoesOn(c, trace', acts', |acts|, |acts'| - 1);
    }
  }

  /** There are such runs: with a timeout a wg.Add can follow wg.Wait. */
  lemma AddAfterWaitNeedsTimeout(c: Config, s0: State) returns (trace: seq<State>, acts: seq<Action>)
    requires ValidConfig(c) && Init(s0)
    ensures IsRun(c, trace, acts) && trace[0] == s0
    ensures acts != [] && Last(acts) == ByReader(AddToGroup) && WaitStarted(trace[|acts| - 1])
  {
    var t1, a1 := Extend(c, [s0], [], ByRunner(Cancel));
    var t2, a2 := Extend(c, t1, a1, ByRunner(SeeCancel));
    var t3, a3 := Extend(c, t2, a2, ByRunner(ReaderTimeout));
    AddAfterWaitIff(c, t3, a3);
    trace, acts :| GoesOnToAdd(c, t3, a3, trace, acts);
  }

  /** Run returns from a drain that did not time out only after every accepted event has finished, its slot and
      its place in the group given back; no event is left with the reader or in a handler. */
  lemma CleanReturnIsComplete(c: Config, trace: seq<State>, acts: seq<Action>, i: nat, e: nat)
    requires IsRun(c, trace, acts) && i < |trace| && trace[i].runner.ReturnedClean? && !trace[i].timedOut
    requires e < |trace[i].books.places|
    ensures var p := trace[i].books.places[e]; p.Suppressed? || p.Discarded? || p.Left?
    ensures trace[i].reader.Exited?
  {
    RunKeeps(c, trace, acts, i);
    TallyZero(trace[i].books.places, InGroup);
    assert !WithReader(trace[i].books.places[e]);
  }

  /** In every run an event is suppressed exactly when its container was reported less than the window before,
      so two accepted crashes of one container are at least the window apart. */
  lemma AcceptedCrashesAreSpaced(c: Config, trace: seq<State>, acts: seq<Action>, i: nat, d: nat, e: nat)
    requires IsRun(c, trace, acts) && i < |trace| && d < e < |trace[i].books.places| && c.window > 0
    ensures |trace[i].memory.crashes| == |trace[i].books.places|
    ensures trace[i].books.places[e].Suppressed? <==> !Cooldown.Allowed(c.window, trace[i].memory.crashes, e)
    ensures var crashes, places := trace[i].memory.crashes, trace[i].books.places;
            crashes[d].key == crashes[e].key && !places[d].Suppressed? && !places[e].Suppressed?
            ==> crashes[e].at - crashes[d].at >= c.window
  {
    RunKeeps(c, trace, acts, i);
    var crashes, places := trace[i].memory.crashes, trace[i].books.places;
    RepeatsSuppressedAt(c.window, crashes, places, d);
    RepeatsSuppressedAt(c.window, crashes, places, e);
    if crashes[d].key == crashes[e].key && !places[d].Suppressed? && !places[e].Suppressed? {
      Cooldown.ReportsAreSpaced(c.window, crashes, d, e);
    }
  }

  // ---------- The shutdown always completes

  /** What is left to do, once no more events arrive. */
  function Remaining(s: State): (n: nat)
  {
    Work(s.books.places)
    + (match s.reader case Reading => 1 case Holding(_) => 1 case Exited => 0)
    + (match s.runner case Watching => 4 case AwaitReader => 3 case AwaitDrain(d) => (if d then 1 else 2) case _ => 0)
    + (if s.cancelled then 0 else 1)
  }

  function Weight(p: Place): (n: nat)
  {
    match p
    case Waiting => 6
    case WithSlot => 5
    case Counted => 4
    case Running => 3
    case Handled(_) => 2
    case Released(_) => 1
    case _ => 0
  }

  function Work(places: seq<Place>): (n: nat)
  {
    if places == [] then 0 else Work(DropLast(places)) + Weight(Last(places))
  }

  lemma {:induction false} WorkMove(places: seq<Place>, e: nat, p: Place)
    requires e < |places|
    ensures Work(places[e := p]) + Weight(places[e]) == Work(places) + Weight(p)
  {
    if e == |places| - 1 {
      assert DropLast(places[e := p]) == DropLast(places);
    } else {
      WorkMove(DropLast(places), e, p);
      assert DropLast(places[e := p]) == DropLast(places)[e := p];
    }
  }

  lemma WorkerDecreases(c: Config, s: State, a: WorkerAction)
    requires WorkerEnabled(s, a)
    ensures Remaining(WorkerStep(s, a)) < Remaining(s)
  {
    WorkMove(s.books.places, a.event, WorkerStep(s, a).books.places[a.event]);
  }

  lemma ReaderDecreases(c: Config, s: State, a: ReaderAction)
    requires ReaderEnabled(c, s, a) && !a.Receive?
    ensures Remaining(ReaderStep(c, s, a)) < Remaining(s)
  {
    if s.reader.Holding? {
      WorkMove(s.books.places, s.reader.event, ReaderStep(c, s, a).books.places[s.reader.event]);
    }
  }

  /** Every step but receiving an event and the passing of time brings the loop closer to its end. */
  lemma StepsDecrease(c: Config, s: State, a: Action)
    requires Enabled(c, s, a)
    requires !(a.ByReader? && a.reader.Receive?) && !(a.ByRunner? && a.runner.Tick?)
    ensures Remaining(Apply(c, s, a)) < Remaining(s)
  {
    match a
    case ByWorker(x) => WorkerDecreases(c, s, x);
    case ByReader(x) => ReaderDecreases(c, s, x);
    case ByRunner(x) => assert RunnerStep(s, x).books == s.books;
  }

  lemma {:induction false} TallyPositive(places: seq<Place>, f: Place -> bool) returns (e: nat)
    requires Tally(places, f) > 0
    ensures e < |places| && f(places[e])
  {
    if f(Last(places)) {
      e := |places| - 1;
    } else {
      e := TallyPositive(DropLast(places), f);
    }
  }

  /** After cancellation, until Run has returned, some step other than a timeout is always possible. */
  lemma DrainNeverStuck(c: Config, trace: seq<State>, acts: seq<Action>, i: nat) returns (a: Action)
    requires IsRun(c, trace, acts) && i < |trace| && trace[i].cancelled
    requires !trace[i].runner.ReturnedClean? && !trace[i].runner.ReturnedError?
    ensures Enabled(c, trace[i], a)
    ensures !(a.ByReader? && a.reader.Receive?)
    ensures a.ByRunner? ==>
              a.runner.SeeCancel? || a.runner.ReaderStopped? || a.runner.GroupEmpty? || a.runner.ReturnDrained?
  {
    RunKeeps(c, trace, acts, i);
    var s := trace[i];
    if s.runner.Watching? {
      a := ByRunner(SeeCancel);
    } else if s.runner.AwaitReader? {
      a := match s.reader
        case Exited => ByRunner(ReaderStopped)
        case Reading => ByReader(ReadCancelled)
        case Holding(e) =>
          (match s.books.places[e]
           case Waiting => ByReader(Discard)
           case WithSlot => ByReader(AddToGroup)
           case _ => ByReader(Spawn));
    } else if s.runner == AwaitDrain(true) {
      a := ByRunner(ReturnDrained);
    } else if s.books.wg == 0 {
      a := ByRunner(GroupEmpty);
    } else {
      var e := TallyPositive(s.books.places, InGroup);
      a := GroupMemberCanMove(c, s, e);
    }
  }

  lemma GroupMemberCanMove(c: Config, s: State, e: nat) returns (a: Action)
    requires Inv(c, s) && e < |s.books.places| && InGroup(s.books.places[e])
    ensures Enabled(c, s, a) && (a.ByWorker? || a == ByReader(Spawn))
  {
    var b := s.books;
    match b.places[e]
    case Counted =>
      assert WithReader(b.places[e]);
      a := ByReader(Spawn);
    case Running => a := ByWorker(Finish(e, NotFound, OtherError));
    case Handled(_) =>
      if b.slots == 0 {
        TallyZero(b.places, HoldsSlot);
      }
      a := ByWorker(ReleaseSlot(e));
    case Released(_) =>
      if b.wg == 0 {
        TallyZero(b.places, InGroup);
      }
      a := ByWorker(LeaveGroup(e));
  }

  /** So from any point of any run after cancellation, unless Run has already failed, the loop drains without a
      timeout in a bounded number of steps. */
  lemma {:induction false} DrainCompletes(c: Config, trace: seq<State>, acts: seq<Action>)
    returns (trace': seq<State>, acts': seq<Action>)
    requires IsRun(c, trace, acts) && Last(trace).cancelled && !Last(trace).runner.ReturnedError?
    ensures IsRun(c, trace', acts') && trace <= trace'
    ensures Last(trace').runner == ReturnedClean && Last(trace').timedOut == Last(trace).timedOut
    ensures |acts'| - |acts| <= Remaining(Last(trace))
    decreases Remaining(Last(trace))
  {
    var s := Last(trace);
    if s.runner.ReturnedClean? {
      trace', acts' := trace, acts;
    } else {
      var a := DrainNeverStuck(c, trace, acts, |acts|);
      StepsDecrease(c, s, a);
      var t := trace + [Apply(c, s, a)];
      assert IsRun(c, t, acts + [a]);
      trace', acts' := DrainCompletes(c, t, acts + [a]);
    }
  }
}
