// Work that is marked stale, and work that is taken up again (src/mining/work_allocator.cpp:96-218, 302-376):
// nobody is served from stale units, and resuming keeps exactly the open units of the job.
module MiningStale {
  import opened Arith
  import opened WorkUnits
  import opened WorkAllocation
  import opened MiningRuns
  import opened MiningSafety

  // ----- after a stale mark -----

  /** The calls of the workers. */
  datatype Call =
    | Acquires(kind: Kind)
    | Updates(id: string, next: nat, delta: nat, best: string, bestNonce: Option<nat>)
    | Releases(id: string)
    | Completes(id: string)

  function Called(a: Alloc, compact: bool, call: Call): Alloc {
    match call
    case Acquires(kind) => Acquire(a, kind).0
    case Updates(id, next, delta, best, bestNonce) => UpdateProgress(a, id, next, delta, best, bestNonce).0
    case Releases(id) => Release(a, id)
    case Completes(id) => CompleteUnit(a, compact, id).0
  }

  function AfterCalls(a: Alloc, compact: bool, calls: seq<Call>): Alloc
    decreases |calls|
  {
    if calls == [] then a else AfterCalls(Called(a, compact, calls[0]), compact, calls[1..])
  }

  predicate NothingOpen(a: Alloc) { forall i :: 0 <= i < |a.units| ==> !a.units[i].Open() }

  /** A completion that appends a group: one that names a unit, in live mode. */
  predicate MayAppend(a: Alloc, compact: bool, call: Call) {
    compact && a.meta.extranonce2Size > 0 && call.Completes? && exists u :: u in a.units && u.id == call.id
  }

  /** No call of the run appends a group. */
  predicate NoneAppends(a: Alloc, compact: bool, calls: seq<Call>)
    decreases |calls|
  {
    calls == [] || (!MayAppend(a, compact, calls[0]) && NoneAppends(Called(a, compact, calls[0]), compact, calls[1..]))
  }

  /** What a unit has achieved. */
  predicate SameWork(u: WorkUnit, v: WorkUnit) {
    v.id == u.id && v.hashesTested == u.hashesTested && v.bestHash == u.bestHash && v.bestNonce == u.bestNonce
    && v.nonceStart == u.nonceStart && v.nonceEnd == u.nonceEnd && v.extranonce2 == u.extranonce2
  }

  ghost predicate AllSameWork(a: Alloc, b: Alloc) {
    |b.units| == |a.units| && forall i :: 0 <= i < |a.units| ==> SameWork(a.units[i], b.units[i])
  }

  /** The mark closes every unit and forgets nothing any unit has achieved. */
  lemma MarkCloses(a: Alloc)
    ensures NothingOpen(MarkAllStale(a)) && AllSameWork(a, MarkAllStale(a))
    ensures forall i :: 0 <= i < |a.units| ==>
      var v := MarkAllStale(a).units[i];
      v.nonceNext == a.units[i].nonceNext && (v.status == Complete <==> a.units[i].status == Complete)
  {}

  lemma NobodyIsServed(a: Alloc, kind: Kind)
    requires NothingOpen(a)
    ensures Acquire(a, kind) == (a, None)
  {}

  lemma CallKeepsClosed(a: Alloc, compact: bool, call: Call)
    requires NothingOpen(a) && !MayAppend(a, compact, call)
    ensures var b := Called(a, compact, call);
      NothingOpen(b) && AllSameWork(a, b) && b.meta == a.meta
  {
    hide HasOpenInGeneration, AppendGroup;
    match call
    case Acquires(kind) => NobodyIsServed(a, kind);
    case Updates(id, next, delta, best, bestNonce) =>
      var k := Find(a.units, WithId(id));
      if k.Some? { assert a.units[k.value := a.units[k.value]] == a.units; }
    case Releases(id) =>
    case Completes(id) =>
      var k := Find(a.units, WithId(id));
      if k.Some? { assert a.units[k.value] in a.units; }
  }

  lemma {:induction false} CallsKeepClosed(a: Alloc, compact: bool, calls: seq<Call>)
    requires NothingOpen(a) && NoneAppends(a, compact, calls)
    ensures var b := AfterCalls(a, compact, calls);
      NothingOpen(b) && AllSameWork(a, b) && b.meta == a.meta
    decreases |calls|
  {
    hide NothingOpen, AllSameWork, Called, MayAppend;
    if calls == [] {
      SameIsSame(a);
    } else {
      var c := Called(a, compact, calls[0]);
      CallKeepsClosed(a, compact, calls[0]);
      CallsKeepClosed(c, compact, calls[1..]);
      SameWorkChains(a, c, AfterCalls(c, compact, calls[1..]));
    }
  }

  lemma SameIsSame(a: Alloc)
    ensures AllSameWork(a, a)
  {}

  lemma SameWorkChains(a: Alloc, b: Alloc, c: Alloc)
    requires AllSameWork(a, b) && AllSameWork(b, c)
    ensures AllSameWork(a, c)
  {}

  /** However the workers' calls go on after a stale mark, nobody is given a unit and no result changes,
      as long as no completion appends a group. */
  lemma StaleForGood(a: Alloc, compact: bool, calls: seq<Call>, kind: Kind)
    requires NoneAppends(MarkAllStale(a), compact, calls)
    ensures var b := AfterCalls(MarkAllStale(a), compact, calls);
      Acquire(b, kind).1 == None && AllSameWork(a, b) && b.meta == a.meta
  {
    hide NothingOpen, AllSameWork;
    MarkCloses(a);
    CallsKeepClosed(MarkAllStale(a), compact, calls);
    SameWorkChains(a, MarkAllStale(a), AfterCalls(MarkAllStale(a), compact, calls));
    NobodyIsServed(AfterCalls(MarkAllStale(a), compact, calls), kind);
  }

  /** A completion does: unlike a report of progress it is not refused for a stale unit, so with a counter that
      can be encoded it hands out new work of the job that was given up. */
  lemma LateCompletionAppends(a: Alloc, id: string)
    requires MayAppend(MarkAllStale(a), true, Completes(id))
    requires EncodeExtranonce2(a.meta.nextCounter, a.meta.extranonce2Size).Text?
    ensures exists u :: (u in a.units && u.id == id
      && HasOpen(Called(MarkAllStale(a), true, Completes(id)).units, u.jobId, u.worker))
  {
    hide EncodeExtranonce2, UnitId, Hex, CompleteUnit, HasOpen;
    MarkCloses(a);
    var b := MarkAllStale(a);
    var u :| u in b.units && u.id == id;
    var i :| 0 <= i < |b.units| && b.units[i] == u;
    assert WithId(id).Holds(b.units[i]);
    var k := Find(b.units, WithId(id)).value;
    assert a.units[k] in a.units && a.units[k].id == id;
    CompletionGoesOn(b, id, k);
  }

  lemma FirstOfGroup(job: string, prevhash: string, size: nat, cpuWorkers: nat, generation: nat, kind: Kind,
                     counter: nat)
    ensures var g := GroupUnits(job, prevhash, size, cpuWorkers, generation, kind, counter);
      |g| > 0 && forall i :: 0 <= i < |g| ==>
        g[i].jobId == job && g[i].prevhash == prevhash && g[i].worker == kind && g[i].status == Pending
        && g[i].generation == generation && New(g[i])
  {}

  /** Nothing has been done on the unit. */
  predicate New(u: WorkUnit) {
    u.nonceNext == u.nonceStart && u.hashesTested == 0 && u.bestHash == "" && u.bestNonce == None
  }

  lemma {:induction false} InFilter(s: seq<WorkUnit>, sieve: Sieve, u: WorkUnit)
    ensures u in Filter(s, sieve) <==> u in s && sieve.Keeps(u)
  {
    if s != [] {
      InFilter(s[1..], sieve, u);
      assert s == [s[0]] + s[1..];
    }
  }

  // ----- starting afresh -----

  /** After a stale mark the next announcement resumes exactly when it is of the same work and a completed unit of
      the job is in the list. */
  lemma ResumesAfterMark(a: Alloc, compact: bool, job: Job, cpuWorkers: nat, gpu: bool, generation: nat)
    ensures Compatible(MarkAllStale(a), job) <==>
      ForJob(job, a.meta) && exists u :: u in a.units && u.jobId == job.id && u.status == Complete
  {
    var b := MarkAllStale(a);
    if u :| u in a.units && u.jobId == job.id && u.status == Complete {
      var i :| 0 <= i < |a.units| && a.units[i] == u;
      assert b.units[i] == u && u in b.units;
    }
    if v :| v in b.units && v.jobId == job.id && v.status != Stale {
      var i :| 0 <= i < |b.units| && b.units[i] == v;
      assert a.units[i] in a.units && a.units[i] == v;
    }
  }

  /** The state in which the run of an announcement begins. */
  function FirstState(job: Job, a: Alloc, stored: Alloc): Sys {
    Sys(job, true, a, map[], None, stored, {}, {}, false)
  }

  /** In a live run a clean announcement, of the same job or of another, always starts afresh, whatever state the
      run is in and whether or not units are dead: the result is what a first prepare of the job leaves. */
  lemma CleanStartsAfresh(s: Sys, job: Job, cpuWorkers: nat, gpu: bool, generation: nat)
    requires Live(s) && 1 <= job.extranonce2Size <= 8 && IsUnsigned(cpuWorkers)
    ensures var p := Prepare(MarkAllStale(s.alloc), true, job, cpuWorkers, gpu, generation);
      && p.1 == Started
      && forall stored: Alloc :: !Compatible(stored, job) ==>
           Initial(FirstState(job, p.0, stored))
  {
    hide UnitId, Hex, Accounted, FilesOk, NothingLost, HandsOk, InitialUnits, Refill, Good, Compatible;
    LiveIsGood(s);
    GoodIsPlain(s.alloc);
    forall u | u in s.alloc.units ensures u.status != Complete {
      var i :| 0 <= i < |s.alloc.units| && s.alloc.units[i] == u;
      assert Plain(s.alloc.meta, s.alloc.units[i]);
    }
    ResumesAfterMark(s.alloc, true, job, cpuWorkers, gpu, generation);
    var p := Prepare(MarkAllStale(s.alloc), true, job, cpuWorkers, gpu, generation);
    forall stored: Alloc | !Compatible(stored, job)
      ensures Initial(FirstState(job, p.0, stored))
    {
      var t := FirstState(job, p.0, stored);
      assert StartedFrom(t, MarkAllStale(s.alloc), cpuWorkers, gpu, generation);
    }
  }

  // ----- resuming -----

  predicate OpenFor(u: WorkUnit, job: Job) { u.Open() && u.jobId == job.id && u.prevhash == job.prevhash }

  /** The unit waits for a worker of the generation. */
  function Waiting(u: WorkUnit, generation: nat): WorkUnit { u.(status := Pending, generation := generation) }

  ghost predicate TakenUp(a: Alloc, job: Job, generation: nat, u: WorkUnit) {
    exists v :: v in a.units && OpenFor(v, job) && u == Waiting(v, generation)
  }

  /** All units wait for the generation and are of the job, taken up or new, and none that is open is missing. */
  ghost predicate TakesUp(a: Alloc, units: seq<WorkUnit>, job: Job, generation: nat) {
    && (forall v :: v in a.units && OpenFor(v, job) ==> Waiting(v, generation) in units)
    && forall u :: u in units ==>
      u.status == Pending && u.generation == generation && u.jobId == job.id && u.prevhash == job.prevhash
      && (TakenUp(a, job, generation, u) || New(u))
  }

  /** Resuming a live job from any stored list keeps exactly the open units of the job, waiting again with all they
      have achieved; the rest of the list is new, and every kind of worker has a unit that counts as open. */
  lemma ResumeTakesUpOpenUnits(a: Alloc, job: Job, cpuWorkers: nat, gpu: bool, generation: nat)
    requires Prepare(a, true, job, cpuWorkers, gpu, generation).1 == Resumed && job.extranonce2Size > 0
    ensures var units := Prepare(a, true, job, cpuWorkers, gpu, generation).0.units;
      TakesUp(a, units, job, generation) && HasOpen(units, job.id, Cpu) && (gpu ==> HasOpen(units, job.id, Gpu))
  {
    hide UnitId, Hex, EncodeExtranonce2, TakesUp, HasOpen, GroupUnits, Kept, Restart, Compatible;
    var armed := Apply(Kept(a, true, job), RearmFor(generation));
    assert Compatible(a, job) by { RestartNeverResumes(a, job, cpuWorkers, gpu, generation); }
    ArmedIsTakenUp(a, job, generation);
    var counter := a.meta.nextCounter;
    var size := job.extranonce2Size;
    if !HasOpen(armed, job.id, Cpu) {
      GroupIsTakenUp(a, armed, job, cpuWorkers, generation, Cpu, counter);
    }
    var withCpu := if HasOpen(armed, job.id, Cpu) then armed
      else armed + GroupUnits(job.id, job.prevhash, size, cpuWorkers, generation, Cpu, counter);
    if gpu && !HasOpen(withCpu, job.id, Gpu) {
      GroupIsTakenUp(a, withCpu, job, cpuWorkers, generation, Gpu,
        if HasOpen(armed, job.id, Cpu) then counter else Next(counter));
    }
  }

  lemma RestartNeverResumes(a: Alloc, job: Job, cpuWorkers: nat, gpu: bool, generation: nat)
    ensures Restart(a, true, job, cpuWorkers, gpu, generation).1 != Resumed
  {
    hide InitialUnits;
  }

  lemma ArmedIsTakenUp(a: Alloc, job: Job, generation: nat)
    requires job.extranonce2Size > 0
    ensures TakesUp(a, Apply(Kept(a, true, job), RearmFor(generation)), job, generation)
  {
    hide Filter;
    var kept := Kept(a, true, job);
    var armed := Apply(kept, RearmFor(generation));
    forall v | v in a.units && OpenFor(v, job) ensures Waiting(v, generation) in armed {
      InFilter(a.units, OnResume(job), v);
      var i :| 0 <= i < |kept| && kept[i] == v;
      assert armed[i] == Waiting(v, generation);
    }
    forall u | u in armed
      ensures u.status == Pending && u.generation == generation && u.jobId == job.id && u.prevhash == job.prevhash
      ensures TakenUp(a, job, generation, u)
    {
      var i :| 0 <= i < |armed| && armed[i] == u;
      InFilter(a.units, OnResume(job), kept[i]);
      assert OpenFor(kept[i], job) && u == Waiting(kept[i], generation);
    }
  }

  lemma GroupIsTakenUp(a: Alloc, units: seq<WorkUnit>, job: Job, cpuWorkers: nat, generation: nat, kind: Kind,
                       counter: nat)
    requires TakesUp(a, units, job, generation)
    ensures var all := units + GroupUnits(job.id, job.prevhash, job.extranonce2Size, cpuWorkers, generation, kind,
        counter);
      && TakesUp(a, all, job, generation) && HasOpen(all, job.id, kind)
      && (HasOpen(units, job.id, Cpu) ==> HasOpen(all, job.id, Cpu))
  {
    hide GroupUnits, TakenUp;
    FirstOfGroup(job.id, job.prevhash, job.extranonce2Size, cpuWorkers, generation, kind, counter);
    var g := GroupUnits(job.id, job.prevhash, job.extranonce2Size, cpuWorkers, generation, kind, counter);
    assert g[0] in units + g;
  }

  // ----- any list of units -----

  function Gap(x: nat, y: nat): nat { if x < y then y - x else x - y }

  /** A report of progress touches the first unit of the name, and only while it is open. The cursor it leaves is the
      point of the unit's range nearest to the reported one. */
  lemma ReportIsClamped(a: Alloc, id: string, next: nat, delta: nat, best: string, bestNonce: Option<nat>, i: nat)
    requires i < |a.units| && a.units[i].nonceStart <= a.units[i].nonceEnd
    ensures var (b, found) := UpdateProgress(a, id, next, delta, best, bestNonce);
      var u := a.units[i];
      && |b.units| == |a.units| && b.meta == a.meta
      && (found <==> exists j :: 0 <= j < |a.units| && a.units[j].id == id)
      && var v := b.units[i];
      if u.id == id && u.Open() && (forall j :: 0 <= j < i ==> a.units[j].id != id) then
        && u.nonceStart <= v.nonceNext <= u.nonceEnd && v.hashesTested == u.hashesTested + delta
        && forall m :: u.nonceStart <= m <= u.nonceEnd ==> Gap(v.nonceNext, next) <= Gap(m, next)
      else v == u
  {
    var k := Find(a.units, WithId(id));
    if k.Some? { assert WithId(id).Holds(a.units[k.value]); }
    assert WithId(id).Holds(a.units[i]) <==> a.units[i].id == id;
  }

  /** Nobody else works on the job with the kind and the generation of unit k. */
  predicate Alone(units: seq<WorkUnit>, k: nat)
    requires k < |units|
  {
    forall j :: 0 <= j < |units| && j != k && units[j].Open() ==>
      units[j].jobId != units[k].jobId || units[j].worker != units[k].worker
      || units[j].generation != units[k].generation
  }

  /** Completing unit k of any live list takes the next counter exactly when nobody else works on the job with its kind
      and generation. Afterwards the kind has an open unit of the job, no completed unit is left, and every other unit
      that was not complete is still there. */
  lemma CompletionGoesOn(a: Alloc, id: string, k: nat)
    requires a.meta.extranonce2Size > 0 && Find(a.units, WithId(id)) == Some(k)
    requires EncodeExtranonce2(a.meta.nextCounter, a.meta.extranonce2Size).Text?
    ensures var (b, outcome) := CompleteUnit(a, true, id);
      var u := a.units[k];
      && outcome == Completed
      && (b.meta.nextCounter != a.meta.nextCounter <==> Alone(a.units, k))
      && HasOpen(b.units, u.jobId, u.worker)
      && (forall v :: v in b.units ==> v.status != Complete)
      && forall j :: 0 <= j < |a.units| && j != k && a.units[j].status != Complete ==> a.units[j] in b.units
  {
    hide EncodeExtranonce2, UnitId, Hex, GroupUnits, Filter, HasOpenInGeneration;
    var u, m := a.units[k], a.meta;
    var closed := a.units[k := Finished(u)];
    AloneIsLast(a.units, k);
    FirstOfGroup(u.jobId, u.prevhash, m.extranonce2Size, m.cpuWorkers, u.generation, u.worker, m.nextCounter);
    var group := GroupUnits(u.jobId, u.prevhash, m.extranonce2Size, m.cpuWorkers, u.generation, u.worker,
      m.nextCounter);
    var all := if Alone(a.units, k) then closed + group else closed;
    var b := CompleteUnit(a, true, id).0;
    assert b.units == Filter(all, NotComplete);
    forall v | v in b.units ensures v.status != Complete { InFilter(all, NotComplete, v); }
    forall j | 0 <= j < |a.units| && j != k && a.units[j].status != Complete
      ensures a.units[j] in b.units
    {
      assert all[j] == a.units[j];
      InFilter(all, NotComplete, a.units[j]);
    }
    if Alone(a.units, k) {
      assert all[|closed|] == group[0];
      InFilter(all, NotComplete, group[0]);
    } else {
      var j :| 0 <= j < |a.units| && j != k && a.units[j].Open() && a.units[j].jobId == u.jobId
        && a.units[j].worker == u.worker && a.units[j].generation == u.generation;
      assert a.units[j] in b.units;
    }
  }

  lemma AloneIsLast(units: seq<WorkUnit>, k: nat)
    requires k < |units|
    ensures var u := units[k];
      HasOpenInGeneration(units[k := Finished(u)], u.jobId, u.worker, u.generation) <==> !Alone(units, k)
  {
    var u := units[k];
    var closed := units[k := Finished(u)];
    if !Alone(units, k) {
      var j :| 0 <= j < |units| && j != k && units[j].Open() && units[j].jobId == u.jobId
        && units[j].worker == u.worker && units[j].generation == u.generation;
      assert closed[j] in closed;
    }
    if v :| v in closed && v.jobId == u.jobId && v.generation == u.generation && v.worker == u.worker && v.Open() {
      var j :| 0 <= j < |closed| && closed[j] == v;
      assert j != k && units[j] == v;
    }
  }

  /** Outside live mode a prepare forgets nothing, whatever its outcome: every unit keeps its place, its cursor and all
      it has achieved, and a completed unit stays complete. */
  lemma HistoryIsKept(a: Alloc, job: Job, cpuWorkers: nat, gpu: bool, generation: nat, i: nat)
    requires i < |a.units|
    ensures var b := Prepare(a, false, job, cpuWorkers, gpu, generation).0;
      && |a.units| <= |b.units| && SameWork(a.units[i], b.units[i]) && b.units[i].nonceNext == a.units[i].nonceNext
      && (b.units[i].status == Complete <==> a.units[i].status == Complete)
  {
    hide EncodeExtranonce2, UnitId, Hex, GroupUnits, InitialUnits, Compatible, HasOpen;
  }
}
