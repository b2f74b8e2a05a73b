// The bounded worker pool: an atomic ticket, a shared completion queue, a condition variable and a
// coordinating caller (detail::run_bounded_workers in src/research/context_trajectory.cpp).
// Every statement under the mutex is one step; every atomic access and every notification is one step.
module BoundedWorkers {

  /** Where a worker thread is. */
  datatype Worker =
    | Absent              // thread not created
    | AtLoop              // about to read the stop flag
    | AtTicket            // about to fetch a ticket
    | Running(task: nat)  // inside a task
    | Returned(task: nat) // about to append to the queue
    | Pushed              // about to notify
    | Caught              // about to record its exception
    | Recorded            // about to raise the stop flag
    | Raised              // about to notify
    | Leaving             // about to count itself finished
    | Counted             // about to notify
    | Done
  {
    predicate Holds(t: nat) { (Running? || Returned?) && task == t }

    predicate IsFinished() { Counted? || Done? }
  }

  datatype Coordinator =
    | Spawning(started: nat)
    | SpawnFailed
    | Checking                               // holds the lock, about to evaluate the wait predicate
    | Blocked                                // asleep on the condition variable
    | Delivering(ready: seq<nat>, all: bool) // `all`: every worker had finished at the swap
    | Rechecking
    | Joining
    | Over

  /** `delivered` are the completions handed to the handler, `dropped` those given up, `returned` the
      tasks whose call returned. */
  datatype State = State(
    tasks: nat, next: nat, stop: bool, workers: seq<Worker>, queue: seq<nat>, finished: nat,
    workerFailed: bool, callerFailed: bool, spawnFailed: bool, caller: Coordinator,
    delivered: seq<nat>, dropped: multiset<nat>, returned: set<nat>)

  /** `fails` says whether a task, the handler or the thread creation throws at this step; Wake is a
      spurious wake-up of the sleeping caller. */
  datatype Step = Work(w: nat, fails: bool) | Call(fails: bool) | Wake

  datatype Start = NoWorkers | NothingToDo | Started(state: State)

  function Begin(taskCount: nat, workerCount: nat): Start {
    if workerCount == 0 then NoWorkers
    else if taskCount == 0 then NothingToDo
    else
      var active := if workerCount < taskCount then workerCount else taskCount;
      Started(State(taskCount, 0, false, seq(active, i => Absent), [], 0, false, false, false, Spawning(0), [],
        multiset{}, {}))
  }

  // ----- steps -----

  predicate AllDone(workers: seq<Worker>) { forall w :: 0 <= w < |workers| ==> workers[w].Absent? || workers[w].Done? }

  predicate Enabled(s: State, step: Step) {
    match step
    case Wake => s.caller.Blocked?
    case Work(w, fails) => w < |s.workers| && !s.workers[w].Absent? && !s.workers[w].Done?
      && (fails ==> s.workers[w].Running?)
    case Call(fails) =>
      match s.caller
      case Spawning(started) => fails ==> started < |s.workers|
      case SpawnFailed => !fails && AllDone(s.workers)
      case Checking => !fails
      case Blocked => false
      case Delivering(ready, _) => fails ==> ready != [] && !s.callerFailed
      case Rechecking => !fails
      case Joining => !fails && AllDone(s.workers)
      case Over => false
  }

  /** The next place of a worker that reads this stop flag or takes this ticket. */
  function Moved(p: Worker, stop: bool, ticket: nat, tasks: nat, fails: bool): Worker {
    match p
    case Absent => Absent
    case AtLoop => if stop then Leaving else AtTicket
    case AtTicket => if ticket >= tasks then Leaving else Running(ticket)
    case Running(task) => if fails then Caught else Returned(task)
    case Returned(_) => Pushed
    case Pushed => AtLoop
    case Caught => Recorded
    case Recorded => Raised
    case Raised => Leaving
    case Leaving => Counted
    case Counted => Done
    case Done => Done
  }

  function Worked(s: State, w: nat, fails: bool): State
    requires w < |s.workers|
  {
    var p := s.workers[w];
    s.(workers := s.workers[w := Moved(p, s.stop, s.next, s.tasks, fails)],
       next := if p.AtTicket? then s.next + 1 else s.next,
       stop := s.stop || p.Recorded?,
       queue := if p.Returned? then s.queue + [p.task] else s.queue,
       finished := if p.Leaving? then s.finished + 1 else s.finished,
       workerFailed := s.workerFailed || p.Caught?,
       dropped := if p.Running? && fails then s.dropped + multiset{p.task} else s.dropped,
       returned := if p.Running? && !fails then s.returned + {p.task} else s.returned,
       caller := if (p.Pushed? || p.Raised? || p.Counted?) && s.caller.Blocked? then Checking else s.caller)
  }

  predicate WakeCondition(s: State) { s.queue != [] || s.finished == |s.workers| }

  /** One completion given to the handler, or all given up once it has thrown. */
  function Handed(s: State, ready: seq<nat>, all: bool, fails: bool): State {
    if ready == [] then s.(caller := if all then Rechecking else Checking)
    else if s.callerFailed then s.(dropped := s.dropped + multiset(ready), caller := Delivering([], all))
    else if fails then
      s.(delivered := s.delivered + [ready[0]], dropped := s.dropped + multiset(ready[1..]),
         callerFailed := true, stop := true, caller := Delivering([], all))
    else s.(delivered := s.delivered + [ready[0]], caller := Delivering(ready[1..], all))
  }

  function Called(s: State, fails: bool): State {
    match s.caller
    case Spawning(started) =>
      if fails then s.(stop := true, spawnFailed := true, caller := SpawnFailed)
      else if started < |s.workers| then s.(workers := s.workers[started := AtLoop], caller := Spawning(started + 1))
      else s.(caller := Checking)
    case SpawnFailed => s.(caller := Over)
    case Checking =>
      if WakeCondition(s) then s.(queue := [], caller := Delivering(s.queue, s.finished == |s.workers|))
      else s.(caller := Blocked)
    case Blocked => s
    case Delivering(ready, all) => Handed(s, ready, all, fails)
    case Rechecking => s.(caller := if s.queue == [] then Joining else Checking)
    case Joining => s.(caller := Over)
    case Over => s
  }

  function After(s: State, step: Step): State
    requires Enabled(s, step)
  {
    match step
    case Work(w, fails) => Worked(s, w, fails)
    case Call(fails) => Called(s, fails)
    case Wake => s.(caller := Checking)
  }

  predicate Runs(s: State, steps: seq<Step>)
    decreases |steps|
  {
    steps == [] || (Enabled(s, steps[0]) && Runs(After(s, steps[0]), steps[1..]))
  }

  function Final(s: State, steps: seq<Step>): State
    requires Runs(s, steps)
    decreases |steps|
  {
    if steps == [] then s else Final(After(s, steps[0]), steps[1..])
  }

  // ----- accounting -----

  function HeldCount(workers: seq<Worker>, t: nat): nat {
    if workers == [] then 0
    else HeldCount(workers[..|workers| - 1], t) + if workers[|workers| - 1].Holds(t) then 1 else 0
  }

  function InDelivery(c: Coordinator): seq<nat> {
    if c.Delivering? then c.ready else []
  }

  function Times(s: seq<nat>, t: nat): nat { multiset(s)[t] }

  /** How often task t appears in all the places a claimed task can be. */
  function Everywhere(s: State, t: nat): nat {
    HeldCount(s.workers, t) + Times(s.queue, t) + Times(InDelivery(s.caller), t) + Times(s.delivered, t) + s.dropped[t]
  }

  function CountFinished(workers: seq<Worker>): nat {
    if workers == [] then 0
    else CountFinished(workers[..|workers| - 1]) + if workers[|workers| - 1].IsFinished() then 1 else 0
  }

  lemma {:induction false} HeldUpdate(workers: seq<Worker>, w: nat, x: Worker, t: nat)
    requires w < |workers|
    ensures HeldCount(workers[w := x], t) + (if workers[w].Holds(t) then 1 else 0)
         == HeldCount(workers, t) + (if x.Holds(t) then 1 else 0)
  {
    var n := |workers| - 1;
    if w < n {
      HeldUpdate(workers[..n], w, x, t);
      assert workers[w := x][..n] == workers[..n][w := x];
    } else {
      assert workers[w := x][..n] == workers[..n];
    }
  }

  lemma TimesSnoc(s: seq<nat>, x: nat, t: nat)
    ensures Times(s + [x], t) == Times(s, t) + if x == t then 1 else 0
  {
    assert multiset(s + [x]) == multiset(s) + multiset{x};
  }

  lemma TimesHead(s: seq<nat>, t: nat)
    requires s != []
    ensures Times(s, t) == Times(s[1..], t) + if s[0] == t then 1 else 0
  {
    assert s == [s[0]] + s[1..];
    assert multiset(s) == multiset{s[0]} + multiset(s[1..]);
  }

  lemma {:induction false} FinishedUpdate(workers: seq<Worker>, w: nat, x: Worker)
    requires w < |workers|
    ensures CountFinished(workers[w := x]) + (if workers[w].IsFinished() then 1 else 0)
         == CountFinished(workers) + (if x.IsFinished() then 1 else 0)
  {
    var n := |workers| - 1;
    if w < n {
      FinishedUpdate(workers[..n], w, x);
      assert workers[w := x][..n] == workers[..n][w := x];
    } else {
      assert workers[w := x][..n] == workers[..n];
    }
  }

  lemma {:induction false} FinishedBound(workers: seq<Worker>)
    ensures CountFinished(workers) <= |workers|
    ensures CountFinished(workers) == |workers| <==> forall w :: 0 <= w < |workers| ==> workers[w].IsFinished()
  {
    if workers != [] {
      var n := |workers| - 1;
      FinishedBound(workers[..n]);
      assert forall w :: 0 <= w < n ==> workers[..n][w] == workers[w];
    }
  }

  lemma {:induction false} NothingHeld(workers: seq<Worker>, t: nat)
    requires forall w :: 0 <= w < |workers| ==> !workers[w].Holds(t)
    ensures HeldCount(workers, t) == 0
  {
    if workers != [] { NothingHeld(workers[..|workers| - 1], t); }
  }

  /** The tasks claimed so far, each exactly once. */
  ghost predicate Conserved(s: State) {
    forall t: nat :: Everywhere(s, t) == if t < s.next && t < s.tasks then 1 else 0
  }

  // ----- the invariant -----

  predicate AboutToWake(w: Worker) { w.Pushed? || w.Counted? }

  ghost predicate SomeoneWakes(workers: seq<Worker>) {
    exists w :: 0 <= w < |workers| && AboutToWake(workers[w])
  }

  predicate LeftNormally(w: Worker) { w.Leaving? || w.Counted? || w.Done? }

  ghost predicate StartedOk(workers: seq<Worker>, started: nat) {
    started <= |workers| && forall w :: 0 <= w < |workers| ==> (workers[w].Absent? <==> w >= started)
  }

  ghost predicate AllStarted(workers: seq<Worker>) { forall w :: 0 <= w < |workers| ==> !workers[w].Absent? }

  ghost predicate ThreadsOk(s: State) {
    && |s.workers| > 0 && s.finished == CountFinished(s.workers)
    && (s.caller.Spawning? ==> !s.spawnFailed && StartedOk(s.workers, s.caller.started))
    && (s.caller.SpawnFailed? ==> s.spawnFailed)
    && (s.spawnFailed ==> s.caller.SpawnFailed? || s.caller.Over?)
    && (!s.spawnFailed && !s.caller.Spawning? ==> AllStarted(s.workers))
  }

  /** The caller sleeps only while its predicate is false or a notification is still to come. */
  ghost predicate NoLostWakeup(s: State) {
    s.caller.Blocked? && WakeCondition(s) ==> SomeoneWakes(s.workers)
  }

  ghost predicate EndgameOk(s: State) {
    (s.caller.Delivering? && s.caller.all) || s.caller.Rechecking? || s.caller.Joining?
      || (s.caller.Over? && !s.spawnFailed)
    ==> s.finished == |s.workers| && s.queue == []
  }

  /** A worker has recorded its exception and is about to raise the stop flag. */
  ghost predicate SomeoneRecorded(workers: seq<Worker>) {
    exists w :: 0 <= w < |workers| && workers[w].Recorded?
  }

  ghost predicate FailuresOk(s: State) {
    && (s.stop ==> s.spawnFailed || s.callerFailed || s.workerFailed)
    && (s.spawnFailed || s.callerFailed ==> s.stop)
    && (s.workerFailed && !s.stop ==> SomeoneRecorded(s.workers))
    && (!s.stop ==> forall w :: 0 <= w < |s.workers| && LeftNormally(s.workers[w]) && !s.workerFailed ==>
      s.next >= s.tasks)
    && (forall w :: 0 <= w < |s.workers| && (s.workers[w].Recorded? || s.workers[w].Raised?) ==> s.workerFailed)
    && (s.dropped != multiset{} ==>
      s.callerFailed || s.workerFailed || exists w :: 0 <= w < |s.workers| && s.workers[w].Caught?)
  }

  ghost predicate DeliveryOk(s: State) {
    && (forall t :: t in s.delivered ==> t in s.returned)
    && (forall t :: t in s.queue ==> t in s.returned)
    && (forall t :: t in InDelivery(s.caller) ==> t in s.returned)
    && (forall w :: 0 <= w < |s.workers| && s.workers[w].Returned? ==> s.workers[w].task in s.returned)
  }

  ghost predicate Inv(s: State) {
    Conserved(s) && ThreadsOk(s) && NoLostWakeup(s) && EndgameOk(s) && FailuresOk(s) && DeliveryOk(s)
  }

  lemma BeginInv(taskCount: nat, workerCount: nat)
    requires Begin(taskCount, workerCount).Started?
    ensures Inv(Begin(taskCount, workerCount).state)
  {
    var s := Begin(taskCount, workerCount).state;
    forall t: nat ensures HeldCount(s.workers, t) == 0 { NothingHeld(s.workers, t); }
    FinishedNone(s.workers);
  }

  lemma {:induction false} FinishedNone(workers: seq<Worker>)
    requires forall w :: 0 <= w < |workers| ==> !workers[w].IsFinished()
    ensures CountFinished(workers) == 0
  {
    if workers != [] { FinishedNone(workers[..|workers| - 1]); }
  }

  // ----- preservation -----

  lemma WorkEverywhere(s: State, w: nat, fails: bool, t: nat)
    requires Enabled(s, Work(w, fails))
    ensures Everywhere(Worked(s, w, fails), t)
         == Everywhere(s, t) + if s.workers[w].AtTicket? && s.next < s.tasks && s.next == t then 1 else 0
  {
    hide HeldCount, Times;
    var u := Worked(s, w, fails);
    HeldUpdate(s.workers, w, u.workers[w], t);
    assert u.workers == s.workers[w := u.workers[w]];
    if s.workers[w].Returned? { TimesSnoc(s.queue, s.workers[w].task, t); }
  }

  lemma WorkConserves(s: State, w: nat, fails: bool)
    requires Conserved(s) && Enabled(s, Work(w, fails))
    ensures Conserved(Worked(s, w, fails))
  {
    hide Everywhere;
    forall t: nat
      ensures Everywhere(Worked(s, w, fails), t) == if t < Worked(s, w, fails).next && t < s.tasks then 1 else 0
    {
      WorkEverywhere(s, w, fails, t);
    }
  }

  lemma CallEverywhere(s: State, fails: bool, t: nat)
    requires ThreadsOk(s) && Enabled(s, Call(fails))
    ensures Everywhere(Called(s, fails), t) == Everywhere(s, t)
  {
    hide HeldCount, Times, CountFinished;
    TimesNone(t);
    match s.caller
    case Spawning(started) => if !fails && started < |s.workers| { HeldUpdate(s.workers, started, AtLoop, t); }
    case Delivering(ready, all) =>
      TimesIs(ready, t);
      if ready != [] {
        TimesHead(ready, t);
        TimesIs(ready[1..], t);
        TimesSnoc(s.delivered, ready[0], t);
      }
    case _ =>
  }

  lemma TimesNone(t: nat)
    ensures Times([], t) == 0
  {}

  lemma TimesIs(s: seq<nat>, t: nat)
    ensures multiset(s)[t] == Times(s, t)
  {}

  lemma CallConserves(s: State, fails: bool)
    requires Conserved(s) && ThreadsOk(s) && Enabled(s, Call(fails))
    ensures Conserved(Called(s, fails))
  {
    hide Everywhere, ThreadsOk;
    forall t: nat ensures Everywhere(Called(s, fails), t) == Everywhere(s, t) { CallEverywhere(s, fails, t); }
  }

  lemma WorkThreads(s: State, w: nat, fails: bool)
    requires ThreadsOk(s) && Enabled(s, Work(w, fails))
    ensures ThreadsOk(Worked(s, w, fails))
  {
    hide CountFinished;
    var t := Worked(s, w, fails);
    FinishedUpdate(s.workers, w, t.workers[w]);
  }

  lemma WorkEndgame(s: State, w: nat, fails: bool)
    requires s.finished == CountFinished(s.workers) && EndgameOk(s) && Enabled(s, Work(w, fails))
    ensures EndgameOk(Worked(s, w, fails))
  {
    hide CountFinished;
    FinishedBound(s.workers);
  }

  lemma WorkWakeup(s: State, w: nat, fails: bool)
    requires NoLostWakeup(s) && Enabled(s, Work(w, fails))
    ensures NoLostWakeup(Worked(s, w, fails))
  {
    var t := Worked(s, w, fails);
    if t.caller.Blocked? && WakeCondition(t) {
      if AboutToWake(t.workers[w]) {
        assert SomeoneWakes(t.workers);
      } else {
        assert WakeCondition(s);
        var x :| 0 <= x < |s.workers| && AboutToWake(s.workers[x]);
        assert AboutToWake(t.workers[x]);
      }
    }
  }

  lemma CallThreads(s: State, fails: bool)
    requires ThreadsOk(s) && EndgameOk(s) && NoLostWakeup(s) && Enabled(s, Call(fails))
    ensures ThreadsOk(Called(s, fails)) && EndgameOk(Called(s, fails)) && NoLostWakeup(Called(s, fails))
  {
    hide CountFinished, Handed;
    match s.caller
    case Delivering(ready, all) => HandedThreads(s, ready, all, fails);
    case Spawning(started) => SpawnThreads(s, started, fails);
    case _ =>
  }

  lemma HandedThreads(s: State, ready: seq<nat>, all: bool, fails: bool)
    requires ThreadsOk(s) && EndgameOk(s) && s.caller == Delivering(ready, all)
    ensures var t := Handed(s, ready, all, fails); ThreadsOk(t) && EndgameOk(t) && NoLostWakeup(t)
  {
    hide CountFinished, AllStarted, StartedOk, SomeoneWakes;
  }

  lemma SpawnThreads(s: State, started: nat, fails: bool)
    requires ThreadsOk(s) && s.caller == Spawning(started) && Enabled(s, Call(fails))
    ensures var t := Called(s, fails); ThreadsOk(t) && EndgameOk(t) && NoLostWakeup(t)
  {
    hide CountFinished;
    if !fails && started < |s.workers| { FinishedUpdate(s.workers, started, AtLoop); }
  }

  lemma WorkFailures(s: State, w: nat, fails: bool)
    requires FailuresOk(s) && Enabled(s, Work(w, fails))
    ensures FailuresOk(Worked(s, w, fails))
  {
    var t := Worked(s, w, fails);
    if t.workerFailed && !t.stop {
      if s.workers[w].Caught? {
        assert t.workers[w].Recorded?;
      } else {
        var x :| 0 <= x < |s.workers| && s.workers[x].Recorded?;
        assert t.workers[x].Recorded?;
      }
    }
    if t.dropped != multiset{} && !t.callerFailed && !t.workerFailed {
      if s.workers[w].Running? && fails {
        assert t.workers[w].Caught?;
      } else {
        var x :| 0 <= x < |s.workers| && s.workers[x].Caught?;
        assert t.workers[x].Caught?;
      }
    }
  }

  lemma CallFailures(s: State, fails: bool)
    requires FailuresOk(s) && ThreadsOk(s) && Enabled(s, Call(fails))
    ensures FailuresOk(Called(s, fails))
  {
    hide CountFinished, Handed;
    match s.caller
    case Delivering(ready, all) => HandedFailures(s, ready, all, fails);
    case Spawning(started) => SpawnFailures(s, started, fails);
    case _ =>
  }

  lemma HandedFailures(s: State, ready: seq<nat>, all: bool, fails: bool)
    requires FailuresOk(s) && s.caller == Delivering(ready, all)
    ensures FailuresOk(Handed(s, ready, all, fails))
  {}

  lemma SpawnFailures(s: State, started: nat, fails: bool)
    requires FailuresOk(s) && s.caller == Spawning(started) && StartedOk(s.workers, started)
    ensures FailuresOk(Called(s, fails))
  {
    var t := Called(s, fails);
    if t.workerFailed && !t.stop {
      var x :| 0 <= x < |s.workers| && s.workers[x].Recorded?;
      assert t.workers[x].Recorded?;
    }
    if t.dropped != multiset{} && !t.callerFailed && !t.workerFailed {
      var x :| 0 <= x < |s.workers| && s.workers[x].Caught?;
      assert t.workers[x].Caught?;
    }
  }

  lemma WorkDelivery(s: State, w: nat, fails: bool)
    requires DeliveryOk(s) && Enabled(s, Work(w, fails))
    ensures DeliveryOk(Worked(s, w, fails))
  {
    var t := Worked(s, w, fails);
    assert s.returned <= t.returned;
    if s.workers[w].Returned? {
      forall x | x in t.queue ensures x in t.returned { assert x in s.queue || x == s.workers[w].task; }
    }
  }

  lemma CallDelivery(s: State, fails: bool)
    requires DeliveryOk(s) && Enabled(s, Call(fails))
    ensures DeliveryOk(Called(s, fails))
  {
    hide Handed;
    match s.caller
    case Delivering(ready, all) => HandedDelivery(s, ready, all, fails);
    case Checking => CheckedDelivery(s);
    case Spawning(started) => SpawnedDelivery(s, fails);
    case _ =>
  }

  lemma CheckedDelivery(s: State)
    requires DeliveryOk(s) && s.caller.Checking?
    ensures DeliveryOk(Called(s, false))
  {}

  lemma SpawnedDelivery(s: State, fails: bool)
    requires DeliveryOk(s) && s.caller.Spawning?
    ensures DeliveryOk(Called(s, fails))
  {}

  lemma HandedDelivery(s: State, ready: seq<nat>, all: bool, fails: bool)
    requires DeliveryOk(s) && s.caller == Delivering(ready, all)
    ensures DeliveryOk(Handed(s, ready, all, fails))
  {
    if ready != [] { assert ready[0] in ready && forall t :: t in ready[1..] ==> t in ready; }
  }

  lemma StepKeepsInv(s: State, step: Step)
    requires Inv(s) && Enabled(s, step)
    ensures Inv(After(s, step))
  {
    hide Conserved, NoLostWakeup, EndgameOk, FailuresOk, DeliveryOk, Worked, Called;
    match step
    case Work(w, fails) =>
      WorkConserves(s, w, fails);
      WorkThreads(s, w, fails);
      WorkEndgame(s, w, fails);
      WorkWakeup(s, w, fails);
      WorkFailures(s, w, fails);
      WorkDelivery(s, w, fails);
    case Call(fails) =>
      CallConserves(s, fails);
      CallThreads(s, fails);
      CallFailures(s, fails);
      CallDelivery(s, fails);
    case Wake =>
      WakeKeepsInv(s);
  }

  lemma WakeKeepsInv(s: State)
    requires Inv(s) && s.caller.Blocked?
    ensures Inv(s.(caller := Checking))
  {
    hide HeldCount, Times, CountFinished;
    forall t: nat
      ensures Everywhere(s.(caller := Checking), t) == Everywhere(s, t)
    {}
  }

  lemma {:induction false} RunKeepsInv(s: State, steps: seq<Step>)
    requires Inv(s) && Runs(s, steps)
    ensures Inv(Final(s, steps))
    decreases |steps|
  {
    hide Inv, After, Enabled;
    if steps != [] {
      StepKeepsInv(s, steps[0]);
      RunKeepsInv(After(s, steps[0]), steps[1..]);
    }
  }

  // ----- exclusion -----

  lemma {:induction false} HeldTwice(workers: seq<Worker>, v: nat, w: nat, t: nat)
    requires v < w < |workers| && workers[v].Holds(t) && workers[w].Holds(t)
    ensures HeldCount(workers, t) >= 2
  {
    var n := |workers| - 1;
    if w < n { HeldTwice(workers[..n], v, w, t); } else { HeldOnce(workers[..n], v, t); }
  }

  lemma {:induction false} HeldOnce(workers: seq<Worker>, v: nat, t: nat)
    requires v < |workers| && workers[v].Holds(t)
    ensures HeldCount(workers, t) >= 1
  {
    var n := |workers| - 1;
    if v < n { HeldOnce(workers[..n], v, t); }
  }

  /** In every run no task is in two workers' hands, none is delivered twice, and none is delivered
      before its call has returned or after being given up or while still running. */
  lemma AtMostOnce(taskCount: nat, workerCount: nat, steps: seq<Step>, t: nat)
    requires Begin(taskCount, workerCount).Started?
    requires Runs(Begin(taskCount, workerCount).state, steps)
    ensures var s := Final(Begin(taskCount, workerCount).state, steps);
      && Times(s.delivered, t) <= 1
      && (t in s.delivered ==> t in s.returned && t < taskCount)
      && (forall w :: 0 <= w < |s.workers| && s.workers[w].Holds(t) ==> t !in s.delivered && t < taskCount)
      && (forall v, w :: 0 <= v < w < |s.workers| ==> !(s.workers[v].Holds(t) && s.workers[w].Holds(t)))
  {
    var s0 := Begin(taskCount, workerCount).state;
    BeginInv(taskCount, workerCount);
    RunKeepsInv(s0, steps);
    TasksFixed(s0, steps);
    var s := Final(s0, steps);
    assert Everywhere(s, t) == if t < s.next && t < s.tasks then 1 else 0;
    forall w | 0 <= w < |s.workers| && s.workers[w].Holds(t)
      ensures HeldCount(s.workers, t) >= 1
    {
      HeldOnce(s.workers, w, t);
    }
    forall v, w | 0 <= v < w < |s.workers| && s.workers[v].Holds(t) && s.workers[w].Holds(t)
      ensures false
    {
      HeldTwice(s.workers, v, w, t);
    }
  }

  lemma {:induction false} TasksFixed(s: State, steps: seq<Step>)
    requires Runs(s, steps)
    ensures Final(s, steps).tasks == s.tasks
    decreases |steps|
  {
    if steps != [] { TasksFixed(After(s, steps[0]), steps[1..]); }
  }

  // ----- the stop flag -----

  function TicketsAhead(workers: seq<Worker>): nat {
    if workers == [] then 0
    else TicketsAhead(workers[..|workers| - 1]) + if workers[|workers| - 1].AtTicket? then 1 else 0
  }

  lemma {:induction false} TicketsUpdate(workers: seq<Worker>, w: nat, x: Worker)
    requires w < |workers|
    ensures TicketsAhead(workers[w := x]) + (if workers[w].AtTicket? then 1 else 0)
         == TicketsAhead(workers) + (if x.AtTicket? then 1 else 0)
  {
    var n := |workers| - 1;
    if w < n {
      TicketsUpdate(workers[..n], w, x);
      assert workers[w := x][..n] == workers[..n][w := x];
    } else {
      assert workers[w := x][..n] == workers[..n];
    }
  }

  lemma {:induction false} TicketsBound(workers: seq<Worker>)
    ensures TicketsAhead(workers) <= |workers|
  {
    if workers != [] { TicketsBound(workers[..|workers| - 1]); }
  }

  /** With the stop flag up, every ticket taken uses up a worker that had already looked at the flag. */
  lemma StepAfterStop(s: State, step: Step)
    requires s.stop && Enabled(s, step)
    ensures var t := After(s, step);
      && t.stop && |t.workers| == |s.workers|
      && t.next + TicketsAhead(t.workers) <= s.next + TicketsAhead(s.workers)
      && s.next <= t.next
      && forall w :: 0 <= w < |s.workers| && !s.workers[w].AtTicket? ==>
           !t.workers[w].AtTicket? && (t.workers[w].Running? ==> t.workers[w] == s.workers[w])
  {
    hide TicketsAhead;
    var t := After(s, step);
    match step
    case Work(w, fails) => TicketsUpdate(s.workers, w, t.workers[w]);
    case Call(fails) =>
      if s.caller.Spawning? && !fails && s.caller.started < |s.workers| {
        TicketsUpdate(s.workers, s.caller.started, AtLoop);
      }
    case Wake =>
  }

  lemma {:induction false} RunAfterStop(s: State, steps: seq<Step>)
    requires s.stop && Runs(s, steps)
    ensures var t := Final(s, steps);
      && |t.workers| == |s.workers| && s.next <= t.next
      && t.next + TicketsAhead(t.workers) <= s.next + TicketsAhead(s.workers)
      && forall w :: 0 <= w < |s.workers| && !s.workers[w].AtTicket? ==>
           !t.workers[w].AtTicket? && (t.workers[w].Running? ==> t.workers[w] == s.workers[w])
    decreases |steps|
  {
    hide After, Enabled, TicketsAhead;
    if steps != [] {
      StepAfterStop(s, steps[0]);
      RunAfterStop(After(s, steps[0]), steps[1..]);
    }
  }

  /** Once the stop flag is up, no more tickets are taken than workers stand before theirs, and whoever
      does not stand there claims and starts no further task. */
  lemma StopStops(taskCount: nat, workerCount: nat, first: seq<Step>, more: seq<Step>)
    requires Begin(taskCount, workerCount).Started?
    requires Runs(Begin(taskCount, workerCount).state, first)
    requires Final(Begin(taskCount, workerCount).state, first).stop
    requires Runs(Final(Begin(taskCount, workerCount).state, first), more)
    ensures var s := Final(Begin(taskCount, workerCount).state, first);
      var t := Final(s, more);
      && t.next - s.next <= TicketsAhead(s.workers) <= |s.workers| <= workerCount && |t.workers| == |s.workers|
      && forall w :: 0 <= w < |s.workers| && !s.workers[w].AtTicket? ==>
           !t.workers[w].AtTicket? && (t.workers[w].Running? ==> t.workers[w] == s.workers[w])
  {
    var s := Final(Begin(taskCount, workerCount).state, first);
    RunAfterStop(s, more);
    TicketsBound(s.workers);
    WorkersFixed(Begin(taskCount, workerCount).state, first);
  }

  lemma {:induction false} WorkersFixed(s: State, steps: seq<Step>)
    requires Runs(s, steps)
    ensures |Final(s, steps).workers| == |s.workers|
    decreases |steps|
  {
    if steps != [] { WorkersFixed(After(s, steps[0]), steps[1..]); }
  }

  /** Nothing is started without workers or tasks; otherwise there are never more threads than workers asked for or
      than tasks, and as many as both allow. */
  lemma PoolSize(taskCount: nat, workerCount: nat, steps: seq<Step>)
    ensures Begin(taskCount, workerCount).Started? <==> taskCount > 0 && workerCount > 0
    ensures Begin(taskCount, workerCount).Started? && Runs(Begin(taskCount, workerCount).state, steps) ==>
      var n := |Final(Begin(taskCount, workerCount).state, steps).workers|;
      n <= taskCount && n <= workerCount && (n == taskCount || n == workerCount)
  {
    if Begin(taskCount, workerCount).Started? && Runs(Begin(taskCount, workerCount).state, steps) {
      WorkersFixed(Begin(taskCount, workerCount).state, steps);
    }
  }

  /** In every run an exception of the handler or of the thread creation has raised the stop flag, and one
      of a task has, or the worker that recorded it is about to. */
  lemma FailureStops(taskCount: nat, workerCount: nat, steps: seq<Step>)
    requires Begin(taskCount, workerCount).Started?
    requires Runs(Begin(taskCount, workerCount).state, steps)
    ensures var s := Final(Begin(taskCount, workerCount).state, steps);
      && (s.spawnFailed || s.callerFailed ==> s.stop)
      && (s.workerFailed && !s.stop ==> SomeoneRecorded(s.workers))
  {
    hide Conserved, ThreadsOk, NoLostWakeup, EndgameOk, DeliveryOk, SomeoneRecorded;
    BeginInv(taskCount, workerCount);
    RunKeepsInv(Begin(taskCount, workerCount).state, steps);
  }

  // ----- the order of delivery -----

  /** What has been completed, in the order of delivery: delivered, in delivery, and queued. */
  function Pipeline(s: State): seq<nat> { s.delivered + InDelivery(s.caller) + s.queue }

  function Completes(s: State, step: Step): seq<nat> {
    if step.Work? && step.w < |s.workers| && s.workers[step.w].Returned? then [s.workers[step.w].task] else []
  }

  /** The tasks that a run puts into the queue, in order. */
  function Completions(s: State, steps: seq<Step>): seq<nat>
    requires Runs(s, steps)
    decreases |steps|
  {
    if steps == [] then [] else Completes(s, steps[0]) + Completions(After(s, steps[0]), steps[1..])
  }

  /** As long as the handler has not thrown, nothing overtakes and nothing gets lost. */
  lemma StepInOrder(s: State, step: Step)
    requires Enabled(s, step) && !After(s, step).callerFailed
    ensures Pipeline(After(s, step)) == Pipeline(s) + Completes(s, step) && !s.callerFailed
  {
    hide Handed, Pipeline;
    match step
    case Work(w, fails) => WorkInOrder(s, w, fails);
    case Call(fails) =>
      match s.caller {
        case Delivering(ready, all) => HandedInOrder(s, ready, all, fails);
        case _ => CallInOrder(s, fails);
      }
    case Wake => WakeInOrder(s);
  }

  lemma WorkInOrder(s: State, w: nat, fails: bool)
    requires Enabled(s, Work(w, fails))
    ensures Pipeline(Worked(s, w, fails)) == Pipeline(s) + Completes(s, Work(w, fails))
  {}

  lemma CallInOrder(s: State, fails: bool)
    requires Enabled(s, Call(fails)) && !s.caller.Delivering?
    ensures Pipeline(Called(s, fails)) == Pipeline(s)
  {}

  lemma WakeInOrder(s: State)
    requires s.caller.Blocked?
    ensures Pipeline(s.(caller := Checking)) == Pipeline(s)
  {}

  lemma HandedInOrder(s: State, ready: seq<nat>, all: bool, fails: bool)
    requires s.caller == Delivering(ready, all) && !Handed(s, ready, all, fails).callerFailed
    ensures Pipeline(Handed(s, ready, all, fails)) == Pipeline(s) && !s.callerFailed
  {
    if ready != [] { assert ready == [ready[0]] + ready[1..]; }
  }

  lemma {:induction false} RunInOrder(s: State, steps: seq<Step>)
    requires Runs(s, steps) && !Final(s, steps).callerFailed
    ensures Pipeline(Final(s, steps)) == Pipeline(s) + Completions(s, steps) && !s.callerFailed
    decreases |steps|
  {
    hide After, Enabled, Pipeline, Completes;
    if steps != [] {
      RunInOrder(After(s, steps[0]), steps[1..]);
      StepInOrder(s, steps[0]);
    }
  }

  lemma {:induction false} DeliveredInOrder(s: State, steps: seq<Step>)
    requires Runs(s, steps) && !s.callerFailed
    ensures Final(s, steps).delivered <= Pipeline(s) + Completions(s, steps)
    decreases |steps|
  {
    hide After, Enabled, Pipeline, Completes;
    if steps == [] {
      DeliveredFirst(s);
    } else if After(s, steps[0]).callerFailed {
      ThrowInOrder(s, steps[0]);
      NothingAfterThrow(After(s, steps[0]), steps[1..]);
      assert Pipeline(s) + Completions(s, steps) == Pipeline(s)
        + (Completes(s, steps[0]) + Completions(After(s, steps[0]), steps[1..]));
    } else {
      StepInOrder(s, steps[0]);
      DeliveredInOrder(After(s, steps[0]), steps[1..]);
      assert Pipeline(s) + Completions(s, steps)
        == (Pipeline(s) + Completes(s, steps[0])) + Completions(After(s, steps[0]), steps[1..]);
    }
  }

  lemma DeliveredFirst(s: State)
    ensures s.delivered <= Pipeline(s)
  {}

  lemma ThrowInOrder(s: State, step: Step)
    requires Enabled(s, step) && !s.callerFailed && After(s, step).callerFailed
    ensures After(s, step).delivered <= Pipeline(s)
  {
    assert s.caller.ready == [s.caller.ready[0]] + s.caller.ready[1..];
  }

  /** In every run the handler has received the completions in the order they were queued, and none after
      the first one it threw at. */
  lemma PoolDeliversInOrder(taskCount: nat, workerCount: nat, steps: seq<Step>)
    requires Begin(taskCount, workerCount).Started?
    requires Runs(Begin(taskCount, workerCount).state, steps)
    ensures var s0 := Begin(taskCount, workerCount).state;
      Final(s0, steps).delivered <= Completions(s0, steps)
  {
    var s0 := Begin(taskCount, workerCount).state;
    DeliveredInOrder(s0, steps);
    assert Pipeline(s0) == [];
    assert [] + Completions(s0, steps) == Completions(s0, steps);
  }

  /** After the handler has thrown it is never called again. */
  lemma {:induction false} NothingAfterThrow(s: State, steps: seq<Step>)
    requires Runs(s, steps) && s.callerFailed
    ensures Final(s, steps).callerFailed && Final(s, steps).delivered == s.delivered
    decreases |steps|
  {
    if steps != [] { NothingAfterThrow(After(s, steps[0]), steps[1..]); }
  }

  /** A caller asleep while completions are queued is about to be woken. */
  lemma SleeperIsWoken(taskCount: nat, workerCount: nat, steps: seq<Step>)
    requires Begin(taskCount, workerCount).Started?
    requires Runs(Begin(taskCount, workerCount).state, steps)
    ensures var s := Final(Begin(taskCount, workerCount).state, steps);
      s.caller.Blocked? && s.queue != [] ==> SomeoneWakes(s.workers)
  {
    hide Conserved, ThreadsOk, EndgameOk, DeliveryOk, FailuresOk, SomeoneWakes;
    BeginInv(taskCount, workerCount);
    RunKeepsInv(Begin(taskCount, workerCount).state, steps);
  }

  // ----- progress -----

  /** No reachable state is stuck: until the call is over some thread can move without failing and
      without a spurious wake-up. */
  lemma NeverStuck(s: State) returns (step: Step)
    requires Inv(s) && !s.caller.Over?
    ensures Enabled(s, step) && !step.Wake? && !step.fails
  {
    FinishedBound(s.workers);
    if w :| 0 <= w < |s.workers| && !s.workers[w].Absent? && !s.workers[w].Done? {
      step := Work(w, false);
    } else {
      assert AllDone(s.workers);
      assert !SomeoneWakes(s.workers);
      assert !s.caller.Blocked?;
      step := Call(false);
    }
  }

  function WorkerRank(p: Worker): nat {
    match p
    case Done => 0
    case Counted => 2
    case Leaving => 3
    case Raised => 5
    case Recorded => 6
    case Caught => 7
    case AtTicket => 8
    case AtLoop => 9
    case Pushed => 11
    case Returned(_) => 18
    case Running(_) => 19
    case Absent => 20
  }

  function WorkersRank(workers: seq<Worker>): nat {
    if workers == [] then 0 else WorkersRank(workers[..|workers| - 1]) + WorkerRank(workers[|workers| - 1])
  }

  function CallerRank(c: Coordinator, workers: nat): nat {
    match c
    case Spawning(started) => 5 + if started < workers then workers - started else 0
    case Delivering(ready, all) => |ready| + if all then 3 else 5
    case Checking => 4
    case Blocked => 3
    case Rechecking => 2
    case Joining => 1
    case SpawnFailed => 1
    case Over => 0
  }

  /** A bound on the number of steps still to come; a spurious wake-up raises it by one. */
  function Rank(s: State): nat {
    12 * (if s.next < s.tasks then s.tasks - s.next else 0) + WorkersRank(s.workers) + 6 * |s.queue|
      + CallerRank(s.caller, |s.workers|)
  }

  lemma {:induction false} RankUpdate(workers: seq<Worker>, w: nat, x: Worker)
    requires w < |workers|
    ensures WorkersRank(workers[w := x]) + WorkerRank(workers[w]) == WorkersRank(workers) + WorkerRank(x)
  {
    var n := |workers| - 1;
    if w < n {
      RankUpdate(workers[..n], w, x);
      assert workers[w := x][..n] == workers[..n][w := x];
    } else {
      assert workers[w := x][..n] == workers[..n];
    }
  }

  lemma WorkLowersRank(s: State, w: nat, fails: bool)
    requires Enabled(s, Work(w, fails))
    ensures Rank(Worked(s, w, fails)) < Rank(s)
  {
    hide WorkersRank;
    RankUpdate(s.workers, w, Moved(s.workers[w], s.stop, s.next, s.tasks, fails));
  }

  lemma CallLowersRank(s: State, fails: bool)
    requires ThreadsOk(s) && EndgameOk(s) && Enabled(s, Call(fails))
    ensures Rank(Called(s, fails)) < Rank(s)
  {
    hide WorkersRank, CountFinished, Handed, AllStarted, StartedOk;
    match s.caller
    case Delivering(ready, all) => HandedLowersRank(s, ready, all, fails);
    case Spawning(started) => SpawnLowersRank(s, started, fails);
    case _ =>
  }

  lemma HandedLowersRank(s: State, ready: seq<nat>, all: bool, fails: bool)
    requires s.caller == Delivering(ready, all)
    ensures Rank(Handed(s, ready, all, fails)) < Rank(s)
  {
    hide WorkersRank;
  }

  lemma SpawnLowersRank(s: State, started: nat, fails: bool)
    requires s.caller == Spawning(started) && StartedOk(s.workers, started)
    ensures Rank(Called(s, fails)) < Rank(s)
  {
    hide WorkersRank;
    if !fails && started < |s.workers| { RankUpdate(s.workers, started, AtLoop); }
  }

  lemma StepLowersRank(s: State, step: Step)
    requires Inv(s) && Enabled(s, step)
    ensures if step.Wake? then Rank(After(s, step)) == Rank(s) + 1 else Rank(After(s, step)) < Rank(s)
  {
    hide Conserved, FailuresOk, DeliveryOk, CountFinished, NoLostWakeup, Rank, Worked, Called;
    match step
    case Work(w, fails) => WorkLowersRank(s, w, fails);
    case Call(fails) => CallLowersRank(s, fails);
    case Wake => WakeRaisesRank(s);
  }

  lemma WakeRaisesRank(s: State)
    requires s.caller.Blocked?
    ensures Rank(s.(caller := Checking)) == Rank(s) + 1
  {
    hide WorkersRank;
  }

  /** The spurious wake-ups among the steps. */
  function Wakes(steps: seq<Step>): nat {
    if steps == [] then 0 else (if steps[0].Wake? then 1 else 0) + Wakes(steps[1..])
  }

  /** No run is longer than its initial rank and two steps for every spurious wake-up. */
  lemma {:induction false} RunsAreBounded(s: State, steps: seq<Step>)
    requires Inv(s) && Runs(s, steps)
    ensures |steps| <= Rank(s) + 2 * Wakes(steps)
    decreases |steps|
  {
    hide Inv, After, Enabled, Rank;
    if steps != [] {
      StepKeepsInv(s, steps[0]);
      StepLowersRank(s, steps[0]);
      RunsAreBounded(After(s, steps[0]), steps[1..]);
    }
  }

  /** In every run of the pool some thread can move, until the call is over. */
  lemma PoolNeverStuck(taskCount: nat, workerCount: nat, steps: seq<Step>) returns (step: Step)
    requires Begin(taskCount, workerCount).Started?
    requires Runs(Begin(taskCount, workerCount).state, steps)
    requires !Final(Begin(taskCount, workerCount).state, steps).caller.Over?
    ensures Enabled(Final(Begin(taskCount, workerCount).state, steps), step) && !step.Wake? && !step.fails
  {
    BeginInv(taskCount, workerCount);
    RunKeepsInv(Begin(taskCount, workerCount).state, steps);
    step := NeverStuck(Final(Begin(taskCount, workerCount).state, steps));
  }

  lemma {:induction false} AbsentRank(workers: seq<Worker>)
    requires forall w :: 0 <= w < |workers| ==> workers[w].Absent?
    ensures WorkersRank(workers) == 20 * |workers|
  {
    if workers != [] { AbsentRank(workers[..|workers| - 1]); }
  }

  /** At most 12 steps a task, 21 a worker, 5 more and two for every spurious wake-up: with finitely many
      of those every run of the pool ends. */
  lemma PoolTerminates(taskCount: nat, workerCount: nat, steps: seq<Step>)
    requires Begin(taskCount, workerCount).Started?
    requires Runs(Begin(taskCount, workerCount).state, steps)
    ensures |steps| <= 12 * taskCount + 21 * workerCount + 5 + 2 * Wakes(steps)
  {
    var s := Begin(taskCount, workerCount).state;
    BeginInv(taskCount, workerCount);
    AbsentRank(s.workers);
    RunsAreBounded(s, steps);
  }

  // ----- what the caller sees -----

  datatype Outcome = ThreadError | HandlerError | TaskError | Completed

  /** Which exception the call rethrows. */
  function OutcomeOf(s: State): Outcome
  {
    if s.spawnFailed then ThreadError else if s.callerFailed then HandlerError else if s.workerFailed then TaskError
      else Completed
  }

  datatype Thrower = InThread | InHandler | InTask

  /** The step throws in that place. */
  predicate Throws(s: State, step: Step, place: Thrower) {
    match step
    case Work(_, fails) => fails && place == InTask
    case Call(fails) => fails && place == (if s.caller.Spawning? then InThread else InHandler)
    case Wake => false
  }

  predicate HasThrown(s: State, steps: seq<Step>, place: Thrower)
    requires Runs(s, steps)
    decreases |steps|
  {
    steps != [] && (Throws(s, steps[0], place) || HasThrown(After(s, steps[0]), steps[1..], place))
  }

  ghost predicate SomeoneCaught(workers: seq<Worker>) {
    exists w :: 0 <= w < |workers| && workers[w].Caught?
  }

  ghost predicate Noted(s: State, place: Thrower) {
    match place
    case InThread => s.spawnFailed
    case InHandler => s.callerFailed
    case InTask => s.workerFailed || SomeoneCaught(s.workers)
  }

  lemma StepNotes(s: State, step: Step, place: Thrower)
    requires Inv(s) && Enabled(s, step)
    ensures Noted(After(s, step), place) <==> Noted(s, place) || Throws(s, step, place)
  {
    hide Conserved, NoLostWakeup, EndgameOk, FailuresOk, DeliveryOk, CountFinished, Handed, Worked, AllStarted;
    match step
    case Work(w, fails) => WorkNotes(s, w, fails, place);
    case Call(fails) =>
      match s.caller {
        case Delivering(ready, all) => HandedNotes(s, ready, all, fails, place);
        case Spawning(started) => SpawnNotes(s, started, fails, place);
        case _ =>
      }
    case Wake =>
  }

  lemma WorkNotes(s: State, w: nat, fails: bool, place: Thrower)
    requires Enabled(s, Work(w, fails))
    ensures Noted(Worked(s, w, fails), place) <==> Noted(s, place) || (fails && place == InTask)
  {
    var t := Worked(s, w, fails);
    if fails { assert t.workers[w].Caught?; }
    if SomeoneCaught(s.workers) {
      var x :| 0 <= x < |s.workers| && s.workers[x].Caught?;
      assert if x == w then t.workerFailed else t.workers[x].Caught?;
    }
    if SomeoneCaught(t.workers) && !fails {
      var x :| 0 <= x < |t.workers| && t.workers[x].Caught?;
      assert s.workers[x].Caught?;
    }
  }

  lemma HandedNotes(s: State, ready: seq<nat>, all: bool, fails: bool, place: Thrower)
    requires s.caller == Delivering(ready, all) && Enabled(s, Call(fails))
    ensures Noted(Handed(s, ready, all, fails), place) <==> Noted(s, place) || (fails && place == InHandler)
  {
    hide SomeoneCaught;
  }

  lemma SpawnNotes(s: State, started: nat, fails: bool, place: Thrower)
    requires s.caller == Spawning(started) && StartedOk(s.workers, started) && Enabled(s, Call(fails))
    ensures Noted(Called(s, fails), place) <==> Noted(s, place) || (fails && place == InThread)
  {
    var t := Called(s, fails);
    if SomeoneCaught(s.workers) {
      var x :| 0 <= x < |s.workers| && s.workers[x].Caught?;
      assert t.workers[x].Caught?;
    }
    if SomeoneCaught(t.workers) {
      var x :| 0 <= x < |t.workers| && t.workers[x].Caught?;
      assert s.workers[x].Caught?;
    }
  }

  lemma {:induction false} RunNotes(s: State, steps: seq<Step>, place: Thrower)
    requires Inv(s) && Runs(s, steps)
    ensures Noted(Final(s, steps), place) <==> Noted(s, place) || HasThrown(s, steps, place)
    decreases |steps|
  {
    hide Inv, After, Enabled, Noted, Throws;
    if steps != [] {
      StepKeepsInv(s, steps[0]);
      StepNotes(s, steps[0], place);
      RunNotes(After(s, steps[0]), steps[1..], place);
    }
  }

  /** What the call rethrows: a failed thread creation before everything, then what the handler threw, then
      what a task threw; it returns normally exactly when nothing was thrown anywhere. */
  lemma OutcomeIs(taskCount: nat, workerCount: nat, steps: seq<Step>)
    requires Begin(taskCount, workerCount).Started?
    requires Runs(Begin(taskCount, workerCount).state, steps)
    requires Final(Begin(taskCount, workerCount).state, steps).caller.Over?
    ensures var s0 := Begin(taskCount, workerCount).state;
      var outcome := OutcomeOf(Final(s0, steps));
      && (outcome == ThreadError <==> HasThrown(s0, steps, InThread))
      && (outcome == HandlerError <==> HasThrown(s0, steps, InHandler) && !HasThrown(s0, steps, InThread))
      && (outcome == TaskError <==>
            HasThrown(s0, steps, InTask) && !HasThrown(s0, steps, InThread) && !HasThrown(s0, steps, InHandler))
      && (outcome == Completed <==> forall place :: !HasThrown(s0, steps, place))
  {
    hide HasThrown, Runs, Final, Conserved, NoLostWakeup, DeliveryOk, FailuresOk;
    var s0 := Begin(taskCount, workerCount).state;
    BeginInv(taskCount, workerCount);
    RunKeepsInv(s0, steps);
    RunNotes(s0, steps, InThread);
    RunNotes(s0, steps, InHandler);
    RunNotes(s0, steps, InTask);
    var s := Final(s0, steps);
    FinishedBound(s.workers);
    if OutcomeOf(s) == Completed {
      forall place ensures !HasThrown(s0, steps,
        place) { match place case InThread => case InHandler => case InTask => }
    }
  }

  /** A call that returns normally has run every task exactly once and delivered every completion
      exactly once. */
  lemma NormalReturnDeliversAll(taskCount: nat, workerCount: nat, steps: seq<Step>)
    requires Begin(taskCount, workerCount).Started?
    requires Runs(Begin(taskCount, workerCount).state, steps)
    requires Final(Begin(taskCount, workerCount).state, steps).caller.Over?
    requires OutcomeOf(Final(Begin(taskCount, workerCount).state, steps)) == Completed
    ensures var s := Final(Begin(taskCount, workerCount).state, steps);
      && (forall t: nat :: Times(s.delivered, t) == if t < taskCount then 1 else 0)
      && (forall t: nat :: t < taskCount ==> t in s.returned)
  {
    var s0 := Begin(taskCount, workerCount).state;
    BeginInv(taskCount, workerCount);
    RunKeepsInv(s0, steps);
    TasksFixed(s0, steps);
    CompletedDeliversAll(Final(s0, steps));
  }

  lemma CompletedDeliversAll(s: State)
    requires Inv(s) && s.caller.Over? && OutcomeOf(s) == Completed
    ensures forall t: nat :: Times(s.delivered, t) == if t < s.tasks then 1 else 0
    ensures forall t: nat :: t < s.tasks ==> t in s.returned
  {
    FinishedBound(s.workers);
    assert s.workers[0].IsFinished() && LeftNormally(s.workers[0]);
    assert s.next >= s.tasks;
    assert s.dropped == multiset{};
    forall t: nat ensures Times(s.delivered, t) == if t < s.tasks then 1 else 0 {
      NothingHeld(s.workers, t);
      TimesNone(t);
      assert Everywhere(s, t) == if t < s.next && t < s.tasks then 1 else 0;
    }
    forall t: nat | t < s.tasks ensures t in s.returned {
      assert Times(s.delivered, t) == 1;
      assert t in multiset(s.delivered);
    }
  }
}
