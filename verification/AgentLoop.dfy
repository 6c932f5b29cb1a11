/** The agent's event loop: one reader, a worker per accepted event under a slot limit, and the shutdown drain.
    Every interleaving of the three is a run. Events are numbered in the order they are received. */
module AgentLoop {
  import opened Bytes
  import Clock
  import Cooldown

  datatype Config = Config(maxConcurrentReports: nat, window: int)

  predicate ValidConfig(c: Config) {
    c.maxConcurrentReports >= 1
  }

  // ---------- handleCrashEvent

  datatype Resolution = Resolved | PodListError | NotFound

  datatype Creation = Created | StatusWriteError | OtherError

  /** The one way an event that reached a worker is counted. */
  datatype Outcome = ListPodsFailed | NoPod | StatusFailed | CreateFailed | Reported

  /** The error counters handleCrashEvent increments, one label per stage; a clean report increments none. */
  function HandleCrashEvent(resolution: Resolution, creation: Creation): (o: Outcome)
  {
    match resolution
    case PodListError => ListPodsFailed
    case NotFound => NoPod
    case Resolved =>
      match creation
      case StatusWriteError => StatusFailed
      case OtherError => CreateFailed
      case Created => Reported
  }

  // ---------- State

  /** Where an event is: filtered out, with the reader, with a worker, or done with. */
  datatype Place =
    | Suppressed
    | Discarded
    | Waiting                      // with the reader, which waits for a slot
    | WithSlot                     // with the reader, which holds a slot
    | Counted                      // with the reader, which has called wg.Add
    | Running                      // in handleCrashEvent
    | Handled(outcome: Outcome)    // past the handler, slot still held
    | Released(outcome: Outcome)   // past the slot, wg.Done still to come
    | Left(outcome: Outcome)

  predicate IsSuppressed(p: Place) {
    p.Suppressed?
  }

  predicate IsDiscarded(p: Place) {
    p.Discarded?
  }

  predicate IsRunning(p: Place) {
    p.Running?
  }

  predicate WithReader(p: Place) {
    p.Waiting? || p.WithSlot? || p.Counted?
  }

  predicate HoldsSlot(p: Place) {
    p.WithSlot? || p.Counted? || p.Running? || p.Handled?
  }

  predicate InGroup(p: Place) {
    p.Counted? || p.Running? || p.Handled? || p.Released?
  }

  predicate Finished(p: Place) {
    p.Handled? || p.Released? || p.Left?
  }

  /** The reader goroutine; the number is the event it holds. */
  datatype Reader = Reading | Holding(event: nat) | Exited

  /** The goroutine Run itself executes in. */
  datatype Runner = Watching | AwaitReader | AwaitDrain(drained: bool) | ReturnedError | ReturnedClean

  /** The metrics: events received, repeats suppressed, and how the handled ones ended; and, not a metric, how
      many events the reader dropped on shutdown. */
  datatype Counters = Counters(received: nat, suppressed: nat, discarded: nat, outcomes: multiset<Outcome>)

  /** The slot channel, the wait group, the metrics, and where each event is. */
  datatype Books = Books(slots: nat, wg: nat, counters: Counters, places: seq<Place>)

  /** The cooldown map, and the crashes it was asked about. */
  datatype Memory = Memory(last: map<Cooldown.Key, Clock.Time>, crashes: seq<Cooldown.Crash>)

  datatype State = State(
    now: int, cancelled: bool, watchError: bool, timedOut: bool,
    reader: Reader, runner: Runner, memory: Memory, books: Books)

  predicate Init(s: State) {
    && !s.cancelled && !s.watchError && !s.timedOut
    && s.reader == Reading && s.runner == Watching
    && s.memory == Memory(map[], []) && s.books == Books(0, 0, Counters(0, 0, 0, multiset{}), [])
  }

  predicate At(b: Books, e: nat, p: Place) {
    e < |b.places| && b.places[e] == p
  }

  function Move(b: Books, e: nat, p: Place): (b': Books)
    requires e < |b.places|
  {
    b.(places := b.places[e := p])
  }

  // ---------- The reader

  datatype ReaderAction =
    | Receive(key: Cooldown.Key) | ReadCancelled | ReadFails | TakeSlot | Discard | AddToGroup | Spawn

  predicate ReaderEnabled(c: Config, s: State, a: ReaderAction) {
    match a
    case Receive(_) => s.reader.Reading?
    case ReadCancelled => s.reader.Reading? && s.cancelled
    case ReadFails => s.reader.Reading?
    case TakeSlot => s.reader.Holding? && At(s.books, s.reader.event, Waiting) && s.books.slots < c.maxConcurrentReports
    case Discard => s.reader.Holding? && At(s.books, s.reader.event, Waiting) && s.cancelled
    case AddToGroup => s.reader.Holding? && At(s.books, s.reader.event, WithSlot)
    case Spawn => s.reader.Holding? && At(s.books, s.reader.event, Counted)
  }

  function ReaderStep(c: Config, s: State, a: ReaderAction): (s': State)
    requires ReaderEnabled(c, s, a)
  {
    match a
    case Receive(key) => ReceiveStep(c, s, Cooldown.Crash(key, s.now))
    case ReadCancelled => s.(reader := Exited)
    case ReadFails => s.(reader := Exited, watchError := true)
    case TakeSlot => s.(books := Move(s.books, s.reader.event, WithSlot).(slots := s.books.slots + 1))
    case Discard =>
      s.(reader := Exited,
         books := Move(s.books, s.reader.event, Discarded)
                  .(counters := s.books.counters.(discarded := s.books.counters.discarded + 1)))
    case AddToGroup => s.(books := Move(s.books, s.reader.event, Counted).(wg := s.books.wg + 1))
    case Spawn => s.(reader := Reading, books := Move(s.books, s.reader.event, Running))
  }

  /** An event is counted, and then either suppressed by the cooldown or held until a slot is free. */
  function ReceiveStep(c: Config, s: State, crash: Cooldown.Crash): (s': State)
  {
    var ok := Cooldown.Permits(c.window, s.memory.last, crash);
    s.(memory := Memory(Cooldown.Recorded(c.window, s.memory.last, crash), s.memory.crashes + [crash]),
       reader := if ok then Holding(|s.books.places|) else Reading,
       books := Enter(s.books, ok))
  }

  function Enter(b: Books, ok: bool): (b': Books)
  {
    b.(places := b.places + [if ok then Waiting else Suppressed],
       counters := b.counters.(received := b.counters.received + 1,
                               suppressed := b.counters.suppressed + if ok then 0 else 1))
  }

  // ---------- The workers

  datatype WorkerAction =
    | Finish(event: nat, resolution: Resolution, creation: Creation)
    | ReleaseSlot(event: nat)
    | LeaveGroup(event: nat)

  predicate WorkerEnabled(s: State, a: WorkerAction) {
    match a
    case Finish(e, _, _) => At(s.books, e, Running)
    case ReleaseSlot(e) => e < |s.books.places| && s.books.places[e].Handled? && s.books.slots > 0
    case LeaveGroup(e) => e < |s.books.places| && s.books.places[e].Released? && s.books.wg > 0
  }

  function WorkerStep(s: State, a: WorkerAction): (s': State)
    requires WorkerEnabled(s, a)
  {
    match a
    case Finish(e, resolution, creation) =>
      var o := HandleCrashEvent(resolution, creation);
      s.(books := Move(s.books, e, Handled(o))
                  .(counters := s.books.counters.(outcomes := s.books.counters.outcomes + multiset{o})))
    case ReleaseSlot(e) =>
      s.(books := Move(s.books, e, Released(s.books.places[e].outcome)).(slots := s.books.slots - 1))
    case LeaveGroup(e) => s.(books := Move(s.books, e, Left(s.books.places[e].outcome)).(wg := s.books.wg - 1))
  }

  // ---------- Run, and the outside world

  datatype RunnerAction =
    | SeeError | SeeCancel | ReaderStopped | ReaderTimeout | GroupEmpty | ReturnDrained | DrainTimeout | Cancel
    | Tick(elapsed: nat)

  predicate RunnerEnabled(s: State, a: RunnerAction) {
    match a
    case SeeError => s.runner.Watching? && s.watchError
    case SeeCancel => s.runner.Watching? && s.cancelled
    case ReaderStopped => s.runner.AwaitReader? && s.reader.Exited?
    case ReaderTimeout => s.runner.AwaitReader?
    case GroupEmpty => s.runner == AwaitDrain(false) && s.books.wg == 0
    case ReturnDrained => s.runner == AwaitDrain(true)
    case DrainTimeout => s.runner.AwaitDrain?
    case Cancel => !s.cancelled
    case Tick(_) => true
  }

  function RunnerStep(s: State, a: RunnerAction): (s': State)
    requires RunnerEnabled(s, a)
  {
    match a
    case SeeError => s.(runner := ReturnedError)
    case SeeCancel => s.(runner := AwaitReader)
    case ReaderStopped => s.(runner := AwaitDrain(false))
    case ReaderTimeout => s.(runner := AwaitDrain(false), timedOut := true)
    case GroupEmpty => s.(runner := AwaitDrain(true))
    case ReturnDrained => s.(runner := ReturnedClean)
    case DrainTimeout => s.(runner := ReturnedClean, timedOut := true)
    case Cancel => s.(cancelled := true)
    case Tick(elapsed) => s.(now := s.now + elapsed)
  }

  // ---------- Runs

  datatype Action = ByReader(reader: ReaderAction) | ByWorker(worker: WorkerAction) | ByRunner(runner: RunnerAction)

  predicate Enabled(c: Config, s: State, a: Action) {
    match a
    case ByReader(x) => ReaderEnabled(c, s, x)
    case ByWorker(x) => WorkerEnabled(s, x)
    case ByRunner(x) => RunnerEnabled(s, x)
  }

  function Apply(c: Config, s: State, a: Action): (s': State)
    requires Enabled(c, s, a)
  {
    match a
    case ByReader(x) => ReaderStep(c, s, x)
    case ByWorker(x) => WorkerStep(s, x)
    case ByRunner(x) => RunnerStep(s, x)
  }

  ghost predicate IsRun(c: Config, trace: seq<State>, acts: seq<Action>) {
    && ValidConfig(c)
    && |trace| == |acts| + 1
    && Init(trace[0])
    && forall i :: 0 <= i < |acts| ==> Enabled(c, trace[i], acts[i]) && trace[i + 1] == Apply(c, trace[i], acts[i])
  }

  // ---------- Counting places

  function Tally(places: seq<Place>, f: Place -> bool): (n: nat)
  {
    if places == [] then 0 else Tally(DropLast(places), f) + if f(Last(places)) then 1 else 0
  }

  lemma TallySnoc(places: seq<Place>, p: Place, f: Place -> bool)
    ensures Tally(places + [p], f) == Tally(places, f) + if f(p) then 1 else 0
  {
    assert DropLast(places + [p]) == places;
  }

  lemma {:induction false} TallyMove(places: seq<Place>, e: nat, p: Place, f: Place -> bool)
    requires e < |places|
    ensures Tally(places[e := p], f) + (if f(places[e]) then 1 else 0) == Tally(places, f) + if f(p) then 1 else 0
  {
    if e == |places| - 1 {
      assert DropLast(places[e := p]) == DropLast(places);
    } else {
      TallyMove(DropLast(places), e, p, f);
      assert DropLast(places[e := p]) == DropLast(places)[e := p];
    }
  }

  lemma {:induction false} TallyZero(places: seq<Place>, f: Place -> bool)
    requires Tally(places, f) == 0
    ensures forall i :: 0 <= i < |places| ==> !f(places[i])
  {
    if places != [] {
      TallyZero(DropLast(places), f);
    }
  }

  lemma {:induction false} TallyLess(places: seq<Place>, f: Place -> bool, g: Place -> bool)
    requires forall p :: f(p) ==> g(p)
    ensures Tally(places, f) <= Tally(places, g)
  {
    if places != [] {
      TallyLess(DropLast(places), f, g);
    }
  }

  /** Every place is of exactly one of five kinds. */
  lemma {:induction false} TallyPartition(places: seq<Place>)
    ensures |places| == Tally(places, IsSuppressed) + Tally(places, IsDiscarded)
                        + Tally(places, WithReader) + Tally(places, IsRunning) + Tally(places, Finished)
  {
    if places != [] {
      TallyPartition(DropLast(places));
    }
  }

  // ---------- What every step keeps

  /** The counters of the code agree with where the events are. */
  ghost predicate InvBooks(c: Config, b: Books) {
    && b.slots == Tally(b.places, HoldsSlot)
    && b.slots <= c.maxConcurrentReports
    && b.wg == Tally(b.places, InGroup)
    && b.counters.received == |b.places|
    && b.counters.suppressed == Tally(b.places, IsSuppressed)
    && b.counters.discarded == Tally(b.places, IsDiscarded)
    && |b.counters.outcomes| == Tally(b.places, Finished)
  }

  /** The reader holds the one event that is with it. */
  predicate InvReader(reader: Reader, places: seq<Place>) {
    && (forall e :: 0 <= e < |places| && WithReader(places[e]) ==> reader == Holding(e))
    && (reader.Holding? ==> reader.event < |places| && WithReader(places[reader.event]))
  }

  /** Without a timeout, whoever waits for the group has seen the reader leave. */
  predicate InvDrain(s: State) {
    && ((s.runner.AwaitDrain? || s.runner.ReturnedClean?) && !s.timedOut ==> s.reader.Exited?)
    && ((s.runner == AwaitDrain(true) || s.runner.ReturnedClean?) && !s.timedOut ==> s.books.wg == 0)
    && (s.runner.AwaitReader? || s.runner.AwaitDrain? || s.runner.ReturnedClean? ==> s.cancelled)
  }

  /** The cooldown map is the one the received crashes leave behind, and exactly the repeats were suppressed. */
  ghost predicate InvMemory(c: Config, now: int, m: Memory, places: seq<Place>) {
    && |m.crashes| == |places|
    && m.last == Cooldown.Retained(c.window, m.crashes)
    && Cooldown.Chronological(m.crashes)
    && (forall i :: 0 <= i < |m.crashes| ==> m.crashes[i].at <= now)
    && RepeatsSuppressed(c.window, m.crashes, places)
  }

  /** Each event was suppressed exactly when the history before it says so. */
  predicate RepeatsSuppressed(window: int, crashes: seq<Cooldown.Crash>, places: seq<Place>)
    requires |crashes| == |places|
    decreases |places|
  {
    places == []
    || (&& RepeatsSuppressed(window, DropLast(crashes), DropLast(places))
        && (Last(places).Suppressed? <==>
            !Cooldown.Permits(window, Cooldown.LastReports(window, DropLast(crashes)), Last(crashes))))
  }

  lemma {:induction false} RepeatsSuppressedAt(window: int, crashes: seq<Cooldown.Crash>, places: seq<Place>, i: nat)
    requires |crashes| == |places| && RepeatsSuppressed(window, crashes, places) && i < |places|
    ensures places[i].Suppressed? <==> !Cooldown.Allowed(window, crashes, i)
    decreases |places|
  {
    var n := |places| - 1;
    if i == n {
      assert crashes[..n] == DropLast(crashes);
    } else {
      RepeatsSuppressedAt(window, DropLast(crashes), DropLast(places), i);
      assert DropLast(crashes)[..i] == crashes[..i];
    }
  }

  lemma {:induction false} MoveKeepsSuppressed(window: int, crashes: seq<Cooldown.Crash>, places: seq<Place>, e: nat,
                                               p: Place)
    requires |crashes| == |places| && RepeatsSuppressed(window, crashes, places)
    requires e < |places| && !places[e].Suppressed? && !p.Suppressed?
    ensures RepeatsSuppressed(window, crashes, places[e := p])
    decreases |places|
  {
    if e == |places| - 1 {
      assert DropLast(places[e := p]) == DropLast(places);
    } else {
      MoveKeepsSuppressed(window, DropLast(crashes), DropLast(places), e, p);
      assert DropLast(places[e := p]) == DropLast(places)[e := p];
    }
  }

  ghost predicate Inv(c: Config, s: State) {
    && InvBooks(c, s.books) && InvReader(s.reader, s.books.places) && InvDrain(s)
    && InvMemory(c, s.now, s.memory, s.books.places)
  }

  /** Moving an event changes each tally by what it leaves and what it joins. */
  lemma MoveTallies(places: seq<Place>, e: nat, p: Place)
    requires e < |places|
    ensures Shifted(places, e, p, HoldsSlot) && Shifted(places, e, p, InGroup) && Shifted(places, e, p, Finished)
    ensures Shifted(places, e, p, IsSuppressed) && Shifted(places, e, p, IsDiscarded)
  {
    TallyMove(places, e, p, HoldsSlot);
    TallyMove(places, e, p, InGroup);
    TallyMove(places, e, p, Finished);
    TallyMove(places, e, p, IsSuppressed);
    TallyMove(places, e, p, IsDiscarded);
  }

  predicate Shifted(places: seq<Place>, e: nat, p: Place, f: Place -> bool)
    requires e < |places|
  {
    Tally(places[e := p], f) + (if f(places[e]) then 1 else 0) == Tally(places, f) + if f(p) then 1 else 0
  }

  /** Suppression is decided once: moving any other event leaves the record of it alone. */
  lemma MoveKeepsMemory(c: Config, now: int, m: Memory, places: seq<Place>, e: nat, p: Place)
    requires InvMemory(c, now, m, places) && e < |places| && !places[e].Suppressed? && !p.Suppressed?
    ensures InvMemory(c, now, m, places[e := p])
  {
    MoveKeepsSuppressed(c.window, m.crashes, places, e, p);
  }

  lemma EnterKeepsBooks(c: Config, b: Books, ok: bool)
    requires InvBooks(c, b)
    ensures InvBooks(c, Enter(b, ok))
  {
    var p := if ok then Waiting else Suppressed;
    TallySnoc(b.places, p, HoldsSlot);
    TallySnoc(b.places, p, InGroup);
    TallySnoc(b.places, p, Finished);
    TallySnoc(b.places, p, IsSuppressed);
    TallySnoc(b.places, p, IsDiscarded);
  }

  lemma ReceiveKeepsMemory(c: Config, now: int, m: Memory, places: seq<Place>, crash: Cooldown.Crash)
    requires InvMemory(c, now, m, places) && crash.at == now
    ensures var ok := Cooldown.Permits(c.window, m.last, crash);
            InvMemory(c, now, Memory(Cooldown.Recorded(c.window, m.last, crash), m.crashes + [crash]),
                      places + [if ok then Waiting else Suppressed])
  {
    var ok := Cooldown.Permits(c.window, m.last, crash);
    Cooldown.NextCrash(c.window, m.crashes, crash);
    SuppressedSnoc(c.window, m.crashes, places, crash, if ok then Waiting else Suppressed);
  }

  lemma SuppressedSnoc(window: int, crashes: seq<Cooldown.Crash>, places: seq<Place>, crash: Cooldown.Crash, p: Place)
    requires |crashes| == |places| && RepeatsSuppressed(window, crashes, places)
    requires p.Suppressed? <==> !Cooldown.Permits(window, Cooldown.LastReports(window, crashes), crash)
    ensures RepeatsSuppressed(window, crashes + [crash], places + [p])
  {
    assert DropLast(crashes + [crash]) == crashes && DropLast(places + [p]) == places;
  }

  lemma ReceiveKeeps(c: Config, s: State, key: Cooldown.Key)
    requires Inv(c, s) && s.reader.Reading?
    ensures Inv(c, ReaderStep(c, s, Receive(key)))
  {
    var crash := Cooldown.Crash(key, s.now);
    EnterKeepsBooks(c, s.books, Cooldown.Permits(c.window, s.memory.last, crash));
    ReceiveKeepsMemory(c, s.now, s.memory, s.books.places, crash);
  }

  lemma HandOnKeeps(c: Config, s: State, a: ReaderAction)
    requires Inv(c, s) && ReaderEnabled(c, s, a) && s.reader.Holding?
    ensures Inv(c, ReaderStep(c, s, a))
  {
    var e := s.reader.event;
    var p := match a case TakeSlot => WithSlot case Discard => Discarded case AddToGroup => Counted case _ => Running;
    MoveTallies(s.books.places, e, p);
    MoveKeepsMemory(c, s.now, s.memory, s.books.places, e, p);
  }

  lemma ReaderKeeps(c: Config, s: State, a: ReaderAction)
    requires Inv(c, s) && ReaderEnabled(c, s, a)
    ensures Inv(c, ReaderStep(c, s, a))
  {
    if a.Receive? {
      ReceiveKeeps(c, s, a.key);
    } else if s.reader.Holding? {
      HandOnKeeps(c, s, a);
    }
  }

  lemma WorkerKeeps(c: Config, s: State, a: WorkerAction)
    requires Inv(c, s) && WorkerEnabled(s, a)
    ensures Inv(c, WorkerStep(s, a))
  {
    var e := a.event;
    var p := match a
      case Finish(_, resolution, creation) => Handled(HandleCrashEvent(resolution, creation))
      case ReleaseSlot(_) => Released(s.books.places[e].outcome)
      case LeaveGroup(_) => Left(s.books.places[e].outcome);
    MoveTallies(s.books.places, e, p);
    MoveKeepsMemory(c, s.now, s.memory, s.books.places, e, p);
  }

  lemma RunnerKeeps(c: Config, s: State, a: RunnerAction)
    requires Inv(c, s) && RunnerEnabled(s, a)
    ensures Inv(c, RunnerStep(s, a))
  {
    assert RunnerStep(s, a).books == s.books && RunnerStep(s, a).memory == s.memory &&
        RunnerStep(s, a).reader == s.reader;
  }

  lemma StepKeeps(c: Config, s: State, a: Action)
    requires Inv(c, s) && Enabled(c, s, a)
    ensures Inv(c, Apply(c, s, a))
  {
    match a
    case ByReader(x) => ReaderKeeps(c, s, x);
    case ByWorker(x) => WorkerKeeps(c, s, x);
    case ByRunner(x) => RunnerKeeps(c, s, x);
  }

  lemma {:induction false} RunKeeps(c: Config, trace: seq<State>, acts: seq<Action>, i: nat)
    requires IsRun(c, trace, acts) && i < |trace|
    ensures Inv(c, trace[i])
  {
    if i > 0 {
      RunKeeps(c, trace, acts, i - 1);
      StepKeeps(c, trace[i - 1], acts[i - 1]);
    }
  }
}
