/** parallel_process and its workers as a transition system: one step per action on the
    shared queue, event, result cell or lock, in every possible interleaving. */
module ParallelProcess {

  import opened Chars

  /** The verdict of `func` on each item, and the number of worker threads. */
  datatype Config = Config(ok: seq<bool>, cpus: nat)

  /** Where a worker is; the number is the item it holds. */
  datatype Worker =
    | NotStarted
    | Checking                // the test of the while loop
    | Taking                  // get_nowait
    | AtEmpty                 // Queue.Empty caught, about to set the event
    | Running(item: nat)      // in func
    | Returned(item: nat)     // func has returned, about to call task_done
    | Judging(item: nat)      // about to test the returned value
    | Acquiring(item: nat)    // waiting for the lock
    | InLock(item: nat)       // about to write the result
    | Written(item: nat)      // about to release the lock
    | Signalling              // about to set the event after a failure
    | Exited

  datatype Main = Putting(k: nat) | Starting(k: nat) | Waiting | Joining(k: nat) | Finished(value: bool)

  /** The shared state; `taken` and `done` record which items left the queue, in order, and
      which calls of `func` have returned. */
  datatype State = State(main: Main, queue: seq<nat>, event: bool, result: bool, lock: Option<nat>,
                         workers: seq<Worker>, taken: seq<nat>, done: set<nat>)

  datatype Thread = MainThread | WorkerThread(w: nat)

  function Init(c: Config): State {
    State(Putting(0), [], false, true, None, seq(c.cpus, _ => NotStarted), [], {})
  }

  /** The next action of the main thread; None while it has to wait.  The polling loop on
      the event changes nothing and counts as waiting. */
  function MainStep(c: Config, s: State): Option<State> {
    match s.main
    case Putting(k) =>
      if k < |c.ok| then Some(s.(queue := s.queue + [k], main := Putting(k + 1)))
      else Some(s.(main := Starting(0)))
    case Starting(k) =>
      if k < c.cpus then
        if k < |s.workers| then Some(s.(workers := s.workers[k := Checking], main := Starting(k + 1))) else None
      else Some(s.(main := Waiting))
    case Waiting => if s.event then Some(s.(main := Joining(0))) else None
    case Joining(k) =>
      if k < c.cpus then
        if k < |s.workers| && s.workers[k] == Exited then Some(s.(main := Joining(k + 1))) else None
      else Some(s.(main := Finished(s.result)))
    case Finished(_) => None
  }

  /** The next action of worker `w`; None when it is not running or waits for the lock. */
  function WorkerStep(c: Config, s: State, w: nat): Option<State>
    requires w < |s.workers|
  {
    match s.workers[w]
    case NotStarted => None
    case Checking => Some(Goto(s, w, if s.event then Exited else Taking))
    case Taking =>
      if s.queue == [] then Some(Goto(s, w, AtEmpty))
      else Some(Goto(s.(queue := s.queue[1..], taken := s.taken + [s.queue[0]]), w, Running(s.queue[0])))
    case AtEmpty => Some(Goto(s.(event := true), w, Exited))
    case Running(i) => Some(Goto(s.(done := s.done + {i}), w, Returned(i)))
    case Returned(i) => Some(Goto(s, w, Judging(i)))
    case Judging(i) => Some(Goto(s, w, if i < |c.ok| && c.ok[i] then Checking else Acquiring(i)))
    case Acquiring(i) => if s.lock == None then Some(Goto(s.(lock := Some(w)), w, InLock(i))) else None
    case InLock(i) => Some(Goto(s.(result := false), w, Written(i)))
    case Written(i) => Some(Goto(s.(lock := None), w, Signalling))
    case Signalling => Some(Goto(s.(event := true), w, Exited))
    case Exited => None
  }

  function Goto(s: State, w: nat, pc: Worker): State
    requires w < |s.workers|
  {
    s.(workers := s.workers[w := pc])
  }

  function Step(c: Config, s: State, t: Thread): Option<State> {
    match t
    case MainThread => MainStep(c, s)
    case WorkerThread(w) => if w < |s.workers| then WorkerStep(c, s, w) else None
  }

  /** The state after the threads of a schedule have each made a step, if they could. */
  function Run(c: Config, s: State, schedule: seq<Thread>): Option<State>
    decreases |schedule|
  {
    if schedule == [] then Some(s)
    else
      match Step(c, s, schedule[0])
      case None => None
      case Some(s') => Run(c, s', schedule[1..])
  }

  // ----- what every step keeps

  function Upto(n: nat): seq<nat> {
    seq(n, i => i)
  }

  /** How many items have been put, and how many workers started. */
  function Put(c: Config, s: State): nat {
    if s.main.Putting? then s.main.k else |c.ok|
  }

  function Started(c: Config, s: State): nat {
    match s.main
    case Putting(_) => 0
    case Starting(k) => k
    case _ => c.cpus
  }

  /** A worker that holds a failed item whose failure is not yet in the result cell. */
  predicate Owes(pc: Worker, i: nat) {
    pc == Returned(i) || pc == Judging(i) || pc == Acquiring(i) || pc == InLock(i)
  }

  predicate Locked(pc: Worker) {
    pc.InLock? || pc.Written?
  }

  /** What holds of a worker at its place in the program. */
  ghost predicate WorkerOk(c: Config, s: State, w: nat)
    requires w < |s.workers|
  {
    && (s.workers[w] == NotStarted <==> w >= Started(c, s))
    && (Locked(s.workers[w]) <==> s.lock == Some(w))
    && match s.workers[w]
       case AtEmpty => s.queue == []
       case Running(i) => i in s.taken
       case Returned(i) => i in s.done
       case Judging(i) => i in s.done
       case Acquiring(i) => i in s.done && i < |c.ok| && !c.ok[i]
       case InLock(i) => i in s.done && i < |c.ok| && !c.ok[i]
       case Written(_) => !s.result
       case Signalling => !s.result
       case Exited => s.event
       case _ => true
  }

  ghost predicate MainOk(c: Config, s: State)
    requires |s.workers| == c.cpus
  {
    match s.main
    case Putting(k) => k <= |c.ok|
    case Starting(k) => k <= c.cpus
    case Waiting => true
    case Joining(k) => s.event && k <= c.cpus && forall w | 0 <= w < k :: s.workers[w] == Exited
    case Finished(v) => s.event && v == s.result && forall w | 0 <= w < c.cpus :: s.workers[w] == Exited
  }

  ghost predicate HeldBy(s: State, i: nat, w: nat) {
    w < |s.workers| && s.workers[w] == Running(i)
  }

  ghost predicate OwedBy(s: State, i: nat, w: nat) {
    w < |s.workers| && Owes(s.workers[w], i)
  }

  /** Every item that was taken is done or in the hands of a worker. */
  ghost predicate TakenOk(s: State) {
    forall i | i in s.taken :: i in s.done || exists w: nat :: HeldBy(s, i, w)
  }

  predicate Failed(c: Config, done: set<nat>, i: nat) {
    i in done && i < |c.ok| && !c.ok[i]
  }

  /** Every failure is in the result cell or on its way there. */
  ghost predicate FailureOk(c: Config, s: State) {
    s.result ==> forall i | Failed(c, s.done, i) :: exists w: nat :: OwedBy(s, i, w)
  }

  ghost predicate SharedOk(c: Config, s: State) {
    && s.taken + s.queue == Upto(Put(c, s))
    && (forall i | i in s.done :: i in s.taken)
    && (!s.result ==> exists i :: Failed(c, s.done, i))
    && (s.event ==> !s.result || (s.queue == [] && !s.main.Putting?))
    && (s.lock.Some? ==> s.lock.value < |s.workers|)
  }

  ghost predicate Inv(c: Config, s: State) {
    && |s.workers| == c.cpus
    && MainOk(c, s)
    && SharedOk(c, s)
    && (forall w: nat | w < |s.workers| :: WorkerOk(c, s, w))
    && TakenOk(s)
    && FailureOk(c, s)
  }

  lemma InitInv(c: Config)
    ensures Inv(c, Init(c))
  {
  }

  // ----- the main thread

  lemma PuttingKeepsInv(c: Config, s: State)
    requires Inv(c, s) && s.main.Putting?
    ensures Inv(c, MainStep(c, s).value)
  {
    var s' := MainStep(c, s).value;
    forall w: nat | w < |s.workers|
      ensures WorkerOk(c, s', w)
    {
      assert WorkerOk(c, s, w);
    }
    if s.main.k < |c.ok| {
      assert s'.taken + s'.queue == (s.taken + s.queue) + [s.main.k];
    }
    MainKeepsHands(c, s, s');
  }

  lemma StartingKeepsInv(c: Config, s: State)
    requires Inv(c, s) && s.main.Starting?
    ensures Inv(c, MainStep(c, s).value)
  {
    var s' := MainStep(c, s).value;
    assert s.main.k < c.cpus ==> WorkerOk(c, s, s.main.k);
    forall w: nat | w < |s.workers|
      ensures WorkerOk(c, s', w)
    {
      assert WorkerOk(c, s, w);
    }
    MainKeepsHands(c, s, s');
  }

  lemma MainKeepsInv(c: Config, s: State)
    requires Inv(c, s) && MainStep(c, s).Some?
    ensures Inv(c, MainStep(c, s).value)
  {
    var s' := MainStep(c, s).value;
    match s.main
    case Putting(_) =>
      PuttingKeepsInv(c, s);
    case Starting(_) =>
      StartingKeepsInv(c, s);
    case Waiting =>
      MainKeepsOthers(c, s, s');
    case Joining(_) =>
      MainKeepsOthers(c, s, s');
    case Finished(_) =>
  }

  /** Waiting and joining leave everything but the main thread alone. */
  lemma MainKeepsOthers(c: Config, s: State, s': State)
    requires Inv(c, s) && s' == s.(main := s'.main)
    requires Put(c, s) == Put(c, s') && Started(c, s) == Started(c, s') && !s'.main.Putting?
    ensures SharedOk(c, s') && TakenOk(s') && FailureOk(c, s')
    ensures forall w: nat | w < |s'.workers| :: WorkerOk(c, s', w)
  {
    forall w: nat | w < |s.workers|
      ensures WorkerOk(c, s', w)
    {
      assert WorkerOk(c, s, w);
    }
    MainKeepsHands(c, s, s');
  }

  /** No item changes hands when the main thread moves. */
  lemma MainKeepsHands(c: Config, s: State, s': State)
    requires |s'.workers| == |s.workers| && s'.taken == s.taken && s'.done == s.done && s'.result == s.result
    requires forall w: nat | w < |s.workers| && s.workers[w] != NotStarted :: s'.workers[w] == s.workers[w]
    requires TakenOk(s) && FailureOk(c, s)
    ensures TakenOk(s') && FailureOk(c, s')
  {
    forall i | i in s'.taken && i !in s'.done
      ensures exists w: nat :: HeldBy(s', i, w)
    {
      var w: nat :| HeldBy(s, i, w);
      assert HeldBy(s', i, w);
    }
    if s'.result {
      forall i | Failed(c, s'.done, i)
        ensures exists w: nat :: OwedBy(s', i, w)
      {
        assert Failed(c, s.done, i);
        var w: nat :| OwedBy(s, i, w);
        assert OwedBy(s', i, w);
      }
    }
  }

  // ----- the workers

  lemma WorkerKeepsInv(c: Config, s: State, w: nat)
    requires Inv(c, s) && w < |s.workers| && WorkerStep(c, s, w).Some?
    ensures Inv(c, WorkerStep(c, s, w).value)
  {
    assert WorkerOk(c, s, w);
    WorkerKeepsShared(c, s, w);
    WorkerKeepsWorkers(c, s, w);
    WorkerKeepsTaken(c, s, w);
    WorkerKeepsFailure(c, s, w);
  }

  lemma WorkerKeepsShared(c: Config, s: State, w: nat)
    requires Inv(c, s) && w < |s.workers| && WorkerStep(c, s, w).Some?
    ensures var s' := WorkerStep(c, s, w).value;
            SharedOk(c, s') && MainOk(c, s') && |s'.workers| == c.cpus && s'.main == s.main
  {
    assert WorkerOk(c, s, w);
    var s' := WorkerStep(c, s, w).value;
    if s.workers[w] == Taking && s.queue != [] {
      assert s'.taken + s'.queue == s.taken + s.queue;
    }
    if !s'.result {
      if s.result {
        assert Failed(c, s'.done, s.workers[w].item);
      } else {
        var i :| Failed(c, s.done, i);
        assert Failed(c, s'.done, i);
      }
    }
  }

  lemma WorkerKeepsWorkers(c: Config, s: State, w: nat)
    requires Inv(c, s) && w < |s.workers| && WorkerStep(c, s, w).Some?
    ensures var s' := WorkerStep(c, s, w).value;
            forall v: nat | v < |s'.workers| :: WorkerOk(c, s', v)
  {
    var s' := WorkerStep(c, s, w).value;
    MoverOk(c, s, w);
    StepGrows(c, s, w);
    forall v: nat | v < |s'.workers|
      ensures WorkerOk(c, s', v)
    {
      assert WorkerOk(c, s, v);
      if v != w {
        BystanderOk(c, s, s', v);
      }
    }
  }

  lemma MoverOk(c: Config, s: State, w: nat)
    requires Inv(c, s) && w < |s.workers| && WorkerStep(c, s, w).Some?
    ensures WorkerOk(c, WorkerStep(c, s, w).value, w)
  {
    assert WorkerOk(c, s, w);
    ItemsInRange(c, s);
  }

  /** What no step undoes. */
  ghost predicate Grows(s: State, s': State) {
    && s'.main == s.main
    && (forall i | i in s.taken :: i in s'.taken)
    && s.done <= s'.done
    && (s.queue == [] ==> s'.queue == [])
    && (s.event ==> s'.event)
    && (!s.result ==> !s'.result)
  }

  lemma StepGrows(c: Config, s: State, w: nat)
    requires Inv(c, s) && w < |s.workers| && WorkerStep(c, s, w).Some?
    ensures var s' := WorkerStep(c, s, w).value;
            && Grows(s, s')
            && (forall v: nat | v < |s.workers| && v != w :: s'.workers[v] == s.workers[v])
            && (forall v: nat | v != w :: s'.lock == Some(v) <==> s.lock == Some(v))
  {
    assert WorkerOk(c, s, w);
  }

  lemma BystanderOk(c: Config, s: State, s': State, v: nat)
    requires v < |s.workers| && WorkerOk(c, s, v) && Grows(s, s')
    requires |s'.workers| == |s.workers| && s'.workers[v] == s.workers[v]
    requires s'.lock == Some(v) <==> s.lock == Some(v)
    ensures WorkerOk(c, s', v)
  {
  }

  lemma ItemsInRange(c: Config, s: State)
    requires SharedOk(c, s) && MainStepOk(c, s)
    ensures forall i | i in s.taken :: i < |c.ok|
  {
    forall i | i in s.taken
      ensures i < |c.ok|
    {
      var k :| 0 <= k < |s.taken| && s.taken[k] == i;
      assert (s.taken + s.queue)[k] == i;
    }
  }

  ghost predicate MainStepOk(c: Config, s: State) {
    s.main.Putting? ==> s.main.k <= |c.ok|
  }

  lemma WorkerKeepsTaken(c: Config, s: State, w: nat)
    requires Inv(c, s) && w < |s.workers| && WorkerStep(c, s, w).Some?
    ensures TakenOk(WorkerStep(c, s, w).value)
  {
    var s' := WorkerStep(c, s, w).value;
    forall i | i in s'.taken && i !in s'.done
      ensures exists v: nat :: HeldBy(s', i, v)
    {
      if i in s.taken {
        var v: nat :| HeldBy(s, i, v);
        assert HeldBy(s', i, v);
      } else {
        assert HeldBy(s', i, w);
      }
    }
  }

  lemma WorkerKeepsFailure(c: Config, s: State, w: nat)
    requires Inv(c, s) && w < |s.workers| && WorkerStep(c, s, w).Some?
    ensures FailureOk(c, WorkerStep(c, s, w).value)
  {
    var s' := WorkerStep(c, s, w).value;
    if s'.result {
      forall i | Failed(c, s'.done, i)
        ensures exists v: nat :: OwedBy(s', i, v)
      {
        if Failed(c, s.done, i) {
          var v: nat :| OwedBy(s, i, v);
          assert OwedBy(s', i, v);
        } else {
          assert OwedBy(s', i, w);
        }
      }
    }
  }

  // ----- whole runs

  /** Every state of every interleaving satisfies the invariant. */
  lemma {:induction false} RunKeepsInv(c: Config, s: State, schedule: seq<Thread>)
    requires Inv(c, s) && Run(c, s, schedule).Some?
    ensures Inv(c, Run(c, s, schedule).value)
    decreases |schedule|
  {
    if schedule != [] {
      match schedule[0] {
        case MainThread => MainKeepsInv(c, s);
        case WorkerThread(w) => WorkerKeepsInv(c, s, w);
      }
      RunKeepsInv(c, Step(c, s, schedule[0]).value, schedule[1..]);
    }
  }

  ghost predicate AllOk(c: Config) {
    forall i | 0 <= i < |c.ok| :: c.ok[i]
  }

  ghost predicate NoRepeats(s: seq<nat>) {
    forall i, j | 0 <= i < j < |s| :: s[i] != s[j]
  }

  /** Safety over every interleaving and every number of workers: no item is taken twice,
      and a returned value is the conjunction of `func` over all items; it is true only if
      `func` has returned for every item. */
  lemma ReturnsConjunction(c: Config, schedule: seq<Thread>)
    requires Run(c, Init(c), schedule).Some?
    ensures var s := Run(c, Init(c), schedule).value;
            && NoRepeats(s.taken)
            && (s.main.Finished? ==> (s.main.value <==> AllOk(c)))
            && (s.main == Finished(true) ==> forall i | 0 <= i < |c.ok| :: i in s.done)
  {
    InitInv(c);
    RunKeepsInv(c, Init(c), schedule);
    var s := Run(c, Init(c), schedule).value;
    TakenOnce(c, s);
    if s.main.Finished? {
      FinishedMeans(c, s);
    }
  }

  lemma TakenOnce(c: Config, s: State)
    requires SharedOk(c, s)
    ensures NoRepeats(s.taken)
  {
    forall k | 0 <= k < |s.taken|
      ensures s.taken[k] == k
    {
      assert (s.taken + s.queue)[k] == s.taken[k];
    }
  }

  lemma FinishedMeans(c: Config, s: State)
    requires Inv(c, s) && s.main.Finished?
    ensures s.main.value <==> AllOk(c)
    ensures s.main.value ==> forall i | 0 <= i < |c.ok| :: i in s.done
  {
    if s.result {
      forall i | 0 <= i < |c.ok|
        ensures i in s.done && c.ok[i]
      {
        assert s.taken + [] == s.taken;
        assert i == Upto(|c.ok|)[i] == s.taken[i];
        assert forall w: nat :: !HeldBy(s, i, w) && !OwedBy(s, i, w);
        assert !Failed(c, s.done, i);
      }
    }
  }

  // ----- progress

  /** Steps a worker may still make before it comes back to the test of its loop or exits. */
  function Rank(pc: Worker): nat {
    match pc
    case Exited => 0
    case AtEmpty => 1
    case Signalling => 1
    case Taking => 2
    case Written(_) => 2
    case Checking => 3
    case InLock(_) => 3
    case NotStarted => 4
    case Acquiring(_) => 4
    case Judging(_) => 5
    case Returned(_) => 6
    case Running(_) => 7
  }

  function Ranks(ws: seq<Worker>): nat {
    if ws == [] then 0 else Rank(ws[0]) + Ranks(ws[1..])
  }

  /** Steps the main thread may still make, each item still to be put counting for the
      work it will cause. */
  function MainRank(c: Config, m: Main): int {
    match m
    case Putting(k) => 7 * (|c.ok| - k) + 2 * c.cpus + 4
    case Starting(k) => 2 * c.cpus + 3 - k
    case Waiting => c.cpus + 2
    case Joining(k) => c.cpus + 1 - k
    case Finished(_) => 0
  }

  function Measure(c: Config, s: State): int {
    MainRank(c, s.main) + 6 * |s.queue| + Ranks(s.workers)
  }

  lemma {:induction false} RanksUpdate(ws: seq<Worker>, w: nat, pc: Worker)
    requires w < |ws|
    ensures Ranks(ws[w := pc]) == Ranks(ws) - Rank(ws[w]) + Rank(pc)
    decreases |ws|
  {
    if w == 0 {
      assert ws[0 := pc][1..] == ws[1..];
    } else {
      assert ws[w := pc][1..] == ws[1..][w - 1 := pc];
      RanksUpdate(ws[1..], w - 1, pc);
    }
  }

  lemma MainDecreases(c: Config, s: State)
    requires Inv(c, s) && MainStep(c, s).Some?
    ensures Measure(c, MainStep(c, s).value) < Measure(c, s)
  {
    if s.main.Starting? && s.main.k < c.cpus {
      assert WorkerOk(c, s, s.main.k);
      RanksUpdate(s.workers, s.main.k, Checking);
    }
  }

  /** A worker moves on, or takes an item from the queue to work on. */
  ghost predicate Moves(s: State, s': State, w: nat)
    requires w < |s.workers|
  {
    && s'.main == s.main
    && |s'.workers| == |s.workers|
    && s'.workers == s.workers[w := s'.workers[w]]
    && 6 * |s'.queue| + Rank(s'.workers[w]) < 6 * |s.queue| + Rank(s.workers[w])
  }

  lemma WorkerMoves(c: Config, s: State, w: nat)
    requires w < |s.workers| && WorkerStep(c, s, w).Some?
    ensures Moves(s, WorkerStep(c, s, w).value, w)
  {
  }

  lemma MovesDecreases(c: Config, s: State, s': State, w: nat)
    requires w < |s.workers| && Moves(s, s', w)
    ensures Measure(c, s') < Measure(c, s)
  {
    RanksUpdate(s.workers, w, s'.workers[w]);
  }

  lemma WorkerDecreases(c: Config, s: State, w: nat)
    requires w < |s.workers| && WorkerStep(c, s, w).Some?
    ensures Measure(c, WorkerStep(c, s, w).value) < Measure(c, s)
  {
    hide WorkerStep, Measure, Moves;
    WorkerMoves(c, s, w);
    MovesDecreases(c, s, WorkerStep(c, s, w).value, w);
  }

  /** Every step makes the measure smaller. */
  lemma StepDecreases(c: Config, s: State, t: Thread)
    requires Inv(c, s) && Step(c, s, t).Some?
    ensures Measure(c, Step(c, s, t).value) < Measure(c, s)
  {
    match t
    case MainThread => MainDecreases(c, s);
    case WorkerThread(w) => WorkerDecreases(c, s, w);
  }

  lemma MeasureNonnegative(c: Config, s: State)
    requires Inv(c, s)
    ensures Measure(c, s) >= 0
  {
  }

  /** No interleaving goes on forever: its length is bounded by the measure of the start. */
  lemma {:induction false} RunsAreBounded(c: Config, s: State, schedule: seq<Thread>)
    requires Inv(c, s) && Run(c, s, schedule).Some?
    ensures |schedule| <= Measure(c, s)
    decreases |schedule|
  {
    MeasureNonnegative(c, s);
    if schedule != [] {
      StepDecreases(c, s, schedule[0]);
      RunKeepsInv(c, s, [schedule[0]]);
      RunsAreBounded(c, Step(c, s, schedule[0]).value, schedule[1..]);
    }
  }

  /** Some thread can make a step as long as the call has not returned. */
  lemma NeverStuck(c: Config, s: State) returns (t: Thread)
    requires Inv(c, s) && c.cpus >= 1 && !s.main.Finished?
    ensures Step(c, s, t).Some?
  {
    if MainStep(c, s).Some? {
      return MainThread;
    }
    var w := if s.main.Joining? then s.main.k else 0;
    assert WorkerOk(c, s, w);
    if WorkerStep(c, s, w).Some? {
      return WorkerThread(w);
    }
    var holder := s.lock.value;
    assert WorkerOk(c, s, holder);
    return WorkerThread(holder);
  }

  /** With at least one worker, every interleaving can be carried on until the call returns,
      and can be carried on only finitely often: at most 7 steps for each item, 6 for each
      worker and 4 more. */
  lemma Terminates(c: Config, schedule: seq<Thread>)
    requires c.cpus >= 1 && Run(c, Init(c), schedule).Some?
    ensures |schedule| <= 7 * |c.ok| + 6 * c.cpus + 4
    ensures Run(c, Init(c), schedule).value.main.Finished? ||
            exists t :: Step(c, Run(c, Init(c), schedule).value, t).Some?
  {
    InitInv(c);
    RunKeepsInv(c, Init(c), schedule);
    RunsAreBounded(c, Init(c), schedule);
    RanksOfNotStarted(c.cpus);
    var s := Run(c, Init(c), schedule).value;
    if !s.main.Finished? {
      var t := NeverStuck(c, s);
    }
  }

  lemma {:induction false} RanksOfNotStarted(n: nat)
    ensures Ranks(seq(n, _ => NotStarted)) == 4 * n
    decreases n
  {
    if n > 0 {
      assert seq(n, _ => NotStarted)[1..] == seq(n - 1, _ => NotStarted);
      RanksOfNotStarted(n - 1);
    }
  }

  // ----- early return

  /** The workers that have passed the test of the event and are about to take an item. */
  function AboutToTake(ws: seq<Worker>): nat {
    if ws == [] then 0 else (if ws[0] == Taking then 1 else 0) + AboutToTake(ws[1..])
  }

  lemma {:induction false} AboutUpdate(ws: seq<Worker>, w: nat, pc: Worker)
    requires w < |ws|
    ensures AboutToTake(ws[w := pc]) ==
            AboutToTake(ws) - (if ws[w] == Taking then 1 else 0) + (if pc == Taking then 1 else 0)
    decreases |ws|
  {
    if w == 0 {
      assert ws[0 := pc][1..] == ws[1..];
    } else {
      assert ws[w := pc][1..] == ws[1..][w - 1 := pc];
      AboutUpdate(ws[1..], w - 1, pc);
    }
  }

  lemma {:induction false} AboutAtMost(ws: seq<Worker>)
    ensures AboutToTake(ws) <= |ws|
  {
    if ws != [] {
      AboutAtMost(ws[1..]);
    }
  }

  ghost predicate Winds(s: State, s': State) {
    s'.event && |s'.workers| == |s.workers| && |s'.taken| + AboutToTake(s'.workers) <= |s.taken| + AboutToTake(s.workers)
  }

  lemma WorkerWinds(c: Config, s: State, w: nat)
    requires s.event && w < |s.workers| && WorkerStep(c, s, w).Some?
    ensures Winds(s, WorkerStep(c, s, w).value)
  {
    AboutUpdate(s.workers, w, WorkerStep(c, s, w).value.workers[w]);
  }

  lemma MainWinds(c: Config, s: State)
    requires s.event && MainStep(c, s).Some?
    ensures Winds(s, MainStep(c, s).value)
  {
    if s.main.Starting? && s.main.k < |s.workers| {
      AboutUpdate(s.workers, s.main.k, Checking);
    }
  }

  /** Once the event is set it stays set, and from then on each worker takes at most one more
      item, and only if it was about to: after a failure the work stops. */
  lemma {:induction false} EventStops(c: Config, s: State, schedule: seq<Thread>)
    requires s.event && Run(c, s, schedule).Some?
    ensures var s' := Run(c, s, schedule).value;
            s'.event && |s'.taken| <= |s.taken| + AboutToTake(s.workers) <= |s.taken| + |s.workers|
    decreases |schedule|
  {
    hide MainStep, WorkerStep;
    AboutAtMost(s.workers);
    if schedule != [] {
      match schedule[0] {
        case MainThread => MainWinds(c, s);
        case WorkerThread(w) => WorkerWinds(c, s, w);
      }
      EventStops(c, Step(c, s, schedule[0]).value, schedule[1..]);
    }
  }
}
