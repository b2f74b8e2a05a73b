// Progress of a live run. Safety holds in every run (MiningSafety); progress does not. A crash
// between the last publication of a unit and its completion leaves a pending unit with no nonce left,
// which acquire never offers and which still counts as open, so no group of its kind is appended
// again (src/mining/work_allocator.cpp:161-182, 302-311, 340-349; src/mining/cpu_miner.cpp:95-103).
// One such unit of a kind is exactly what stops the kind.
module MiningProgress {
  import opened Arith
  import opened WorkUnits
  import opened WorkAllocation
  import opened MiningRuns
  import opened MiningSafety

  /** Waiting with nothing left to search. */
  predicate Dead(u: WorkUnit) { u.status == Pending && u.nonceNext == u.nonceEnd }

  predicate IsDead(units: seq<WorkUnit>, kind: Kind, k: nat) {
    k < |units| && units[k].worker == kind && Dead(units[k])
  }

  /** Some unit of the kind is dead. */
  ghost predicate Stuck(units: seq<WorkUnit>, kind: Kind) { exists k: nat :: IsDead(units, kind, k) }

  ghost predicate AllDead(units: seq<WorkUnit>, kind: Kind) {
    forall k: nat :: k < |units| && units[k].worker == kind ==> IsDead(units, kind, k)
  }

  /** The kind has units, and none of them has anything left. */
  ghost predicate Starved(units: seq<WorkUnit>, kind: Kind) { Stuck(units, kind) && AllDead(units, kind) }

  predicate IsOf(units: seq<WorkUnit>, kind: Kind, k: nat) { k < |units| && units[k].worker == kind }

  ghost predicate Staffed(units: seq<WorkUnit>, kind: Kind) { exists k: nat :: IsOf(units, kind, k) }

  /** The identifiers of the units of a kind. */
  ghost function Ids(units: seq<WorkUnit>, kind: Kind): set<string> {
    set k: nat | k < |units| && units[k].worker == kind :: units[k].id
  }

  /** Somebody of the kind is at work, or whoever asks gets a unit. */
  ghost predicate Served(a: Alloc, kind: Kind) {
    (exists k: nat :: IsOf(a.units, kind, k) && a.units[k].status == InProgress) || Acquire(a, kind).1.Some?
  }

  /** A kind gets nothing, and nobody of it is at work, exactly when all its units are dead. */
  lemma TurnedAwayIffStarved(s: Sys, kind: Kind)
    requires Live(s)
    ensures !Served(s.alloc, kind) <==> AllDead(s.alloc.units, kind)
  {
    hide UnitId, Hex, HandsOk, Accounted, FilesOk, NothingLost;
    var units := s.alloc.units;
    forall k: nat | k < |units|
      ensures units[k].Open() && units[k].nonceNext <= units[k].nonceEnd
      ensures units[k].worker == kind ==>
        (IsDead(units, kind, k) <==> units[k].status != InProgress && !Acquirable(kind).Holds(units[k]))
    {
      assert UnitOk(s.alloc.meta, units[k]);
    }
    if AllDead(units, kind) {
      forall k: nat | IsOf(units, kind, k)
        ensures units[k].status != InProgress
      {
        assert IsDead(units, kind, k);
      }
    } else {
      var k: nat :| k < |units| && units[k].worker == kind && !IsDead(units, kind, k);
      assert IsOf(units, kind, k);
    }
  }

  // ----- what the steps of a run do to the list -----

  predicate OneGeneration(units: seq<WorkUnit>) {
    forall j, k :: 0 <= j < |units| && 0 <= k < |units| ==> units[j].generation == units[k].generation
  }

  predicate HeldBy(held: map<nat, Held>, w: nat, id: string) { w in held && held[w].id == id }

  /** Every unit in progress is in the hands of a worker. */
  ghost predicate AllHeld(units: seq<WorkUnit>, held: map<nat, Held>) {
    forall k: nat :: k < |units| && units[k].status == InProgress ==> exists w: nat :: HeldBy(held, w, units[k].id)
  }

  ghost predicate WidthOk(job: Job, a: Alloc) { Compatible(a, job) ==> IsUnsigned(a.meta.cpuWorkers) }

  /** What every reachable state also satisfies: units in progress are held, one generation is open
      once the job is prepared, and an enabled GPU has units. */
  ghost predicate Tidy(s: Sys) {
    && WidthOk(s.job, s.alloc) && WidthOk(s.job, s.stored) && (s.saving.Some? ==> WidthOk(s.job, s.saving.value))
    && (Compatible(s.alloc, s.job) ==> AllHeld(s.alloc.units, s.held))
    && (s.ready ==> OneGeneration(s.alloc.units))
    && (s.ready && s.alloc.meta.gpuEnabled ==> Staffed(s.alloc.units, Gpu))
  }

  /** What matters about a change of the list: no unit of the kind dies or comes back, a stuck kind
      gets no new unit, and a kind with units keeps some. */
  ghost predicate Steady(before: seq<WorkUnit>, after: seq<WorkUnit>, kind: Kind) {
    && (Stuck(before, kind) <==> Stuck(after, kind))
    && (Stuck(before, kind) ==> Ids(after, kind) <= Ids(before, kind))
    && (Starved(before, kind) ==> AllDead(after, kind))
    && (Staffed(before, kind) ==> Staffed(after, kind))
  }

  lemma SameIsSteady(units: seq<WorkUnit>, kind: Kind)
    ensures Steady(units, units, kind)
  {}

  lemma ReplaceIsSteady(units: seq<WorkUnit>, k: nat, v: WorkUnit, kind: Kind)
    requires k < |units| && v.id == units[k].id && v.worker == units[k].worker && !Dead(units[k]) && !Dead(v)
    ensures Steady(units, units[k := v], kind)
  {
    var after := units[k := v];
    forall j: nat | j < |units|
      ensures IsDead(after, kind, j) <==> IsDead(units, kind, j)
      ensures IsOf(after, kind, j) <==> IsOf(units, kind, j)
      ensures after[j].id == units[j].id
    {}
    forall id | id in Ids(after, kind)
      ensures id in Ids(units, kind)
    {
      var j: nat :| j < |after| && after[j].worker == kind && after[j].id == id;
      assert units[j].worker == kind && units[j].id == id;
    }
  }

  /** Unit j of the list without unit k. */
  function Shifted(k: nat, j: nat): nat { if j < k then j else j + 1 }

  lemma RemoveIsSteady(units: seq<WorkUnit>, k: nat, more: seq<WorkUnit>, kind: Kind)
    requires k < |units| && !Dead(units[k]) && forall i :: 0 <= i < |more| ==> !Dead(more[i])
    requires Stuck(units, kind) ==> forall i :: 0 <= i < |more| ==> more[i].worker != kind
    requires units[k].worker == kind ==> Staffed(Without(units, k) + more, kind)
    ensures Steady(units, Without(units, k) + more, kind)
  {
    hide Dead, AllDead, Stuck, Ids, Staffed;
    RemoveKeepsDead(units, k, more, kind);
    if Stuck(units, kind) {
      RemoveAddsNone(units, k, more, kind);
    }
    if Staffed(units, kind) && units[k].worker != kind {
      RemoveKeepsStaff(units, k, more, kind);
    }
  }

  lemma RestAt(units: seq<WorkUnit>, k: nat, more: seq<WorkUnit>, i: nat)
    requires k < |units| && i < |Without(units, k) + more|
    ensures var after := Without(units, k) + more;
      after[i] == if i < |units| - 1 then units[Shifted(k, i)] else more[i - (|units| - 1)]
  {}

  lemma RemoveKeepsDead(units: seq<WorkUnit>, k: nat, more: seq<WorkUnit>, kind: Kind)
    requires k < |units| && !Dead(units[k]) && forall i :: 0 <= i < |more| ==> !Dead(more[i])
    ensures Stuck(units, kind) <==> Stuck(Without(units, k) + more, kind)
  {
    hide Dead;
    var after := Without(units, k) + more;
    if Stuck(units, kind) {
      var j: nat :| IsDead(units, kind, j);
      assert after[if j < k then j else j - 1] == units[j];
      assert IsDead(after, kind, if j < k then j else j - 1);
    }
    if Stuck(after, kind) {
      var i: nat :| IsDead(after, kind, i);
      RestAt(units, k, more, i);
      assert IsDead(units, kind, Shifted(k, i));
    }
  }

  lemma RemoveAddsNone(units: seq<WorkUnit>, k: nat, more: seq<WorkUnit>, kind: Kind)
    requires k < |units| && forall i :: 0 <= i < |more| ==> more[i].worker != kind
    ensures Ids(Without(units, k) + more, kind) <= Ids(units, kind)
    ensures AllDead(units, kind) ==> AllDead(Without(units, k) + more, kind)
  {
    hide Dead;
    var after := Without(units, k) + more;
    forall i: nat | i < |after| && after[i].worker == kind
      ensures units[Shifted(k, i)] == after[i] && units[Shifted(k, i)].id in Ids(units, kind)
      ensures AllDead(units, kind) ==> IsDead(after, kind, i)
    {
      RestAt(units, k, more, i);
      assert AllDead(units, kind) ==> IsDead(units, kind, Shifted(k, i));
    }
  }

  lemma RemoveKeepsStaff(units: seq<WorkUnit>, k: nat, more: seq<WorkUnit>, kind: Kind)
    requires k < |units| && units[k].worker != kind && Staffed(units, kind)
    ensures Staffed(Without(units, k) + more, kind)
  {
    var after := Without(units, k) + more;
    var j: nat :| IsOf(units, kind, j);
    assert after[if j < k then j else j - 1] == units[j];
    assert IsOf(after, kind, if j < k then j else j - 1);
  }

  lemma RearmIsSteady(units: seq<WorkUnit>, generation: nat, more: seq<WorkUnit>, kind: Kind)
    requires forall k :: 0 <= k < |units| ==> units[k].status == Pending
    requires forall i :: 0 <= i < |more| ==> !Dead(more[i])
    requires Stuck(units, kind) ==> forall i :: 0 <= i < |more| ==> more[i].worker != kind
    ensures Steady(units, Apply(units, RearmFor(generation)) + more, kind)
  {
    var after := Apply(units, RearmFor(generation)) + more;
    forall j: nat | j < |units|
      ensures after[j] == units[j].(generation := generation)
      ensures IsDead(after, kind, j) <==> IsDead(units, kind, j)
      ensures IsOf(after, kind, j) <==> IsOf(units, kind, j)
    {}
    forall j: nat | |units| <= j < |after|
      ensures after[j] == more[j - |units|]
    {}
    if Stuck(units, kind) {
      forall id | id in Ids(after, kind)
        ensures id in Ids(units, kind)
      {
        var i: nat :| i < |after| && after[i].worker == kind && after[i].id == id;
        assert units[i].worker == kind && units[i].id == id;
      }
    }
    if Stuck(after, kind) {
      var i: nat :| IsDead(after, kind, i);
      assert i < |units|;
    }
  }

  // ----- new units have something left -----

  lemma SliceNonempty(i: nat, count: nat)
    requires 0 < count <= NONCE_SPACE
    ensures SliceStart(i, count) < SliceStart(i + 1, count)
  {
    var q := SliceStart(i, count);
    assert q * count <= NONCE_SPACE * i;
    assert (q + 1) * count <= NONCE_SPACE * (i + 1);
    DivAtLeast(NONCE_SPACE * (i + 1), count, q + 1);
  }

  predicate IsFresh(u: WorkUnit, kind: Kind, generation: nat) {
    u.worker == kind && u.status == Pending && u.nonceNext < u.nonceEnd && u.generation == generation
  }

  lemma GroupIsFresh(job: string, prevhash: string, size: nat, cpuWorkers: nat, generation: nat, kind: Kind,
                     counter: nat)
    requires IsUnsigned(cpuWorkers)
    ensures var g := GroupUnits(job, prevhash, size, cpuWorkers, generation, kind, counter);
      |g| > 0 && forall i :: 0 <= i < |g| ==> IsFresh(g[i], kind, generation)
  {
    hide UnitId, Hex, SliceStart;
    var g := GroupUnits(job, prevhash, size, cpuWorkers, generation, kind, counter);
    forall i | 0 <= i < |g|
      ensures IsFresh(g[i], kind, generation)
    {
      if kind.Cpu? { SliceNonempty(i, AtLeastOne(cpuWorkers)); }
    }
  }

  lemma FirstLayoutIsFresh(job: Job, cpuWorkers: nat, gpu: bool, generation: nat)
    requires job.extranonce2Size > 0 && IsUnsigned(cpuWorkers)
    ensures var units := InitialUnits(job, cpuWorkers, gpu, generation);
      && (forall i :: 0 <= i < |units| ==> IsFresh(units[i], units[i].worker, generation))
      && Staffed(units, Cpu) && (gpu ==> Staffed(units, Gpu))
  {
    hide UnitId, Hex, SliceStart, InitialUnits;
    var units, count := InitialUnits(job, cpuWorkers, gpu, generation), AtLeastOne(cpuWorkers);
    InitialCount(job, cpuWorkers, gpu, generation);
    forall i | 0 <= i < |units|
      ensures IsFresh(units[i], units[i].worker, generation) && units[i].worker == if i < count then Cpu else Gpu
    {
      InitialUnitsAt(job, cpuWorkers, gpu, generation, i);
      if i < count { SliceNonempty(i, count); }
    }
    assert IsOf(units, Cpu, 0);
    assert gpu ==> IsOf(units, Gpu, count);
  }

  // ----- every step is steady -----

  lemma TakeIsSteady(s: Sys, w: nat, taken: Kind, kind: Kind)
    requires Acquire(s.alloc, taken).1.Some?
    ensures Steady(s.alloc.units, Taken(s, w, taken).alloc.units, kind)
  {
    var k := Find(s.alloc.units, Acquirable(taken)).value;
    ReplaceIsSteady(s.alloc.units, k, s.alloc.units[k].(status := InProgress), kind);
  }

  lemma PublishIsSteady(s: Sys, w: nat, best: string, bestNonce: Option<nat>, kind: Kind)
    requires Live(s) && MayPublish(s, w)
    ensures Steady(s.alloc.units, PublishedBy(s, w, best, bestNonce).alloc.units, kind)
  {
    hide UnitId, Hex, Steady, Accounted, FilesOk, NothingLost;
    var k := FindHeld(s.alloc, s.held, s.tested, w);
    ReplaceIsSteady(s.alloc.units, k,
      Progressed(s.alloc.units[k], s.held[w].cursor, s.held[w].pending, best, bestNonce), kind);
  }

  lemma GiveBackIsSteady(s: Sys, w: nat, kind: Kind)
    requires Live(s) && MayGiveBack(s, w)
    ensures Steady(s.alloc.units, GivenBack(s, w).alloc.units, kind)
  {
    hide UnitId, Hex, Steady, Accounted, FilesOk, NothingLost;
    var k := FindHeld(s.alloc, s.held, s.tested, w);
    ReplaceIsSteady(s.alloc.units, k, s.alloc.units[k].(status := Pending), kind);
  }

  /** The list after a completion that did not exhaust the counter. */
  lemma FinishList(s: Sys, w: nat) returns (k: nat, more: seq<WorkUnit>)
    requires Live(s) && Tidy(s) && s.ready && MayFinish(s, w) && !FinishedBy(s, w).exhausted
    ensures var units := s.alloc.units;
      && k < |units| && units[k].id == s.held[w].id && units[k].status == InProgress
      && FinishedBy(s, w).alloc.units == Without(units, k) + more
      && (forall i :: 0 <= i < |more| ==> IsFresh(more[i], units[k].worker, units[k].generation))
      && Staffed(Without(units, k) + more, units[k].worker)
    ensures Stuck(s.alloc.units, s.alloc.units[k].worker) ==> more == [] && FinishedBy(s, w).alloc.meta == s.alloc.meta
  {
    hide UnitId, Hex, Accounted, FilesOk, NothingLost, CompleteUnit, GroupUnits, Stuck, GroupOpen, WidthOk;
    GoodIsCompatible(s.job, s.alloc);
    k := FindHeld(s.alloc, s.held, s.tested, w);
    var units, m, u := s.alloc.units, s.alloc.meta, s.alloc.units[k];
    GoodIsPlain(s.alloc);
    CompleteEffect(s.alloc, k);
    if GroupOpen(s.alloc, k) {
      more := [];
      assert Without(units, k) + [] == Without(units, k);
      StillStaffed(s.alloc, k);
    } else {
      if Stuck(units, u.worker) { DeadKeepsOpen(s.alloc, k); }
      assert IsUnsigned(m.cpuWorkers) by { assert WidthOk(s.job, s.alloc); WidthOf(s.job, s.alloc); }
      more := GroupUnits(m.lastJobId, m.lastPrevhash, m.extranonce2Size, m.cpuWorkers, u.generation, u.worker,
        m.nextCounter);
      GroupIsFresh(m.lastJobId, m.lastPrevhash, m.extranonce2Size, m.cpuWorkers, u.generation, u.worker, m.nextCounter);
      assert IsOf(Without(units, k) + more, u.worker, |units| - 1);
    }
  }

  lemma WidthOf(job: Job, a: Alloc)
    requires WidthOk(job, a) && GoodFor(job, a)
    ensures IsUnsigned(a.meta.cpuWorkers)
  {
    hide GoodFor;
    GoodIsCompatible(job, a);
  }

  lemma StillStaffed(a: Alloc, k: nat)
    requires k < |a.units| && GroupOpen(a, k)
    ensures Staffed(Without(a.units, k), a.units[k].worker)
  {
    hide UnitId, Hex;
    var u := a.units[k];
    var after := a.units[k := Finished(u)];
    var v :| v in after && v.jobId == u.jobId && v.generation == u.generation && v.worker == u.worker && v.Open();
    var j :| 0 <= j < |after| && after[j] == v;
    assert j != k;
    assert IsOf(Without(a.units, k), u.worker, if j < k then j else j - 1);
  }

  /** A dead unit of the kind counts as open when another one is completed. */
  lemma DeadKeepsOpen(a: Alloc, k: nat)
    requires Good(a) && k < |a.units| && a.units[k].status == InProgress && OneGeneration(a.units)
    requires Stuck(a.units, a.units[k].worker)
    ensures GroupOpen(a, k)
  {
    hide UnitId, Hex;
    GoodIsPlain(a);
    var j: nat :| IsDead(a.units, a.units[k].worker, j);
    assert Plain(a.meta, a.units[j]) && Plain(a.meta, a.units[k]);
    assert a.units[k := Finished(a.units[k])][j] == a.units[j];
    assert a.units[j] in a.units[k := Finished(a.units[k])];
  }

  lemma FinishIsSteady(s: Sys, w: nat, kind: Kind)
    requires Live(s) && Tidy(s) && s.ready && MayFinish(s, w) && !FinishedBy(s, w).exhausted
    ensures Steady(s.alloc.units, FinishedBy(s, w).alloc.units, kind)
  {
    hide Live, Tidy, Steady, Stuck, FinishedBy;
    var k, more := FinishList(s, w);
    RemoveIsSteady(s.alloc.units, k, more, kind);
  }

  /** The list after a prepare that resumed. */
  lemma PrepareList(s: Sys, cpuWorkers: nat, gpu: bool, generation: nat) returns (more: seq<WorkUnit>)
    requires Live(s) && Tidy(s) && s.held == map[] && CounterFits(s.alloc) && IsUnsigned(cpuWorkers)
    requires !Prepared(s, cpuWorkers, gpu, generation).exhausted
    ensures var t := Prepared(s, cpuWorkers, gpu, generation);
      && (forall k :: 0 <= k < |s.alloc.units| ==> s.alloc.units[k].status == Pending)
      && t.alloc.units == Apply(s.alloc.units, RearmFor(generation)) + more
      && (forall i :: 0 <= i < |more| ==> IsFresh(more[i], Gpu, generation))
      && (Stuck(s.alloc.units, Gpu) ==> more == [])
      && (gpu ==> Staffed(t.alloc.units, Gpu))
      && t.alloc.meta.cpuWorkers == cpuWorkers && t.alloc.meta.gpuEnabled == gpu
  {
    hide UnitId, Hex, Accounted, FilesOk, NothingLost, Prepare, GroupUnits, HasOpen, WidthOk, Stuck;
    AllPending(s);
    GoodIsPlain(s.alloc);
    PrepareEffect(s.job, s.alloc, cpuWorkers, gpu, generation);
    var armed, m := Apply(s.alloc.units, RearmFor(generation)), s.alloc.meta;
    OpenMeans(s.alloc, armed, generation);
    if !gpu || HasOpen(armed, s.job.id, Gpu) {
      more := [];
      assert armed + [] == armed;
    } else {
      more := GroupUnits(m.lastJobId, m.lastPrevhash, m.extranonce2Size, cpuWorkers, generation, Gpu, m.nextCounter);
      GroupIsFresh(m.lastJobId, m.lastPrevhash, m.extranonce2Size, cpuWorkers, generation, Gpu, m.nextCounter);
      assert IsOf(armed + more, Gpu, |armed|);
    }
  }

  lemma AllPending(s: Sys)
    requires Live(s) && Tidy(s) && s.held == map[]
    ensures forall k :: 0 <= k < |s.alloc.units| ==> s.alloc.units[k].status == Pending
  {
    hide UnitId, Hex, Accounted, FilesOk, NothingLost, WidthOk, HandsOk;
    GoodIsCompatible(s.job, s.alloc);
    GoodIsPlain(s.alloc);
    forall k | 0 <= k < |s.alloc.units|
      ensures s.alloc.units[k].status == Pending
    {
      assert Plain(s.alloc.meta, s.alloc.units[k]);
      assert forall w: nat :: !HeldBy(s.held, w, s.alloc.units[k].id);
    }
  }

  lemma OpenMeans(a: Alloc, armed: seq<WorkUnit>, generation: nat)
    requires Good(a) && armed == Apply(a.units, RearmFor(generation))
    ensures HasOpen(armed, a.meta.lastJobId, Gpu) ==> Staffed(armed, Gpu)
    ensures Stuck(a.units, Gpu) ==> HasOpen(armed, a.meta.lastJobId, Gpu)
  {
    hide UnitId, Hex;
    if HasOpen(armed, a.meta.lastJobId, Gpu) {
      var u :| u in armed && u.worker == Gpu;
      var k: nat :| k < |armed| && armed[k] == u;
      assert IsOf(armed, Gpu, k);
    }
    if Stuck(a.units, Gpu) {
      var k: nat :| IsDead(a.units, Gpu, k);
      GoodIsPlain(a);
      assert Plain(a.meta, a.units[k]);
      assert armed[k] in armed;
    }
  }

  lemma PrepareIsSteady(s: Sys, cpuWorkers: nat, gpu: bool, generation: nat, kind: Kind)
    requires Live(s) && Tidy(s) && s.held == map[] && CounterFits(s.alloc) && IsUnsigned(cpuWorkers)
    requires !Prepared(s, cpuWorkers, gpu, generation).exhausted
    ensures Steady(s.alloc.units, Prepared(s, cpuWorkers, gpu, generation).alloc.units, kind)
  {
    hide Live, Tidy, Steady, Stuck, Prepared;
    var more := PrepareList(s, cpuWorkers, gpu, generation);
    RearmIsSteady(s.alloc.units, generation, more, kind);
  }

  /** Short of a crash, no step kills a unit or revives one, none adds a unit to a stuck kind, and
      none takes the last unit of a kind without adding others. */
  lemma StepIsSteady(s: Sys, step: Step, kind: Kind)
    requires Inv(s) && Tidy(s) && Enabled(s, step) && !step.Crash?
    requires Compatible(s.alloc, s.job) && !After(s, step).exhausted
    ensures Steady(s.alloc.units, After(s, step).alloc.units, kind)
  {
    hide Live, Foreign, Tidy, Steady, Taken, PublishedBy, FinishedBy, GivenBack, Prepared, Acquire, Compatible;
    HandsAreLive(s);
    SameIsSteady(s.alloc.units, kind);
    match step
    case Take(w, taken) => TakeIsSteady(s, w, taken, kind);
    case Hash(w) =>
    case Publish(w, best, bestNonce) => PublishIsSteady(s, w, best, bestNonce, kind);
    case Finish(w) => FinishIsSteady(s, w, kind);
    case GiveBack(w) => GiveBackIsSteady(s, w, kind);
    case PrepareAgain(cpuWorkers, gpu, generation) => PrepareIsSteady(s, cpuWorkers, gpu, generation, kind);
    case BeginSave =>
    case CommitSave =>
    case FailSave =>
  }

  // ----- every reachable state is tidy -----

  lemma ReplaceIsHeld(s: Sys, k: nat, v: WorkUnit, held: map<nat, Held>, w: nat)
    requires Live(s) && AllHeld(s.alloc.units, s.held)
    requires k < |s.alloc.units| && v.id == s.alloc.units[k].id
    requires v.status == InProgress ==> HeldBy(held, w, v.id)
    requires forall x :: x in s.held && (x != w || s.held[x].id != v.id) ==> HeldBy(held, x, s.held[x].id)
    ensures AllHeld(s.alloc.units[k := v], held)
  {
    hide UnitId, Hex, Accounted, FilesOk, NothingLost, HandsOk;
    var units := s.alloc.units;
    var after := units[k := v];
    forall j: nat | j < |after| && after[j].status == InProgress
      ensures exists x: nat :: HeldBy(held, x, after[j].id)
    {
      if j == k {
        assert HeldBy(held, w, v.id);
      } else {
        assert if j < k then Apart(units[j], units[k]) else Apart(units[k], units[j]);
        var x: nat :| HeldBy(s.held, x, units[j].id);
        assert HeldBy(held, x, units[j].id);
      }
    }
  }

  lemma TakeIsHeld(s: Sys, w: nat, kind: Kind)
    requires Live(s) && AllHeld(s.alloc.units, s.held) && w !in s.held && Acquire(s.alloc, kind).1.Some?
    requires OneGeneration(s.alloc.units)
    ensures AllHeld(Taken(s, w, kind).alloc.units, Taken(s, w, kind).held)
      && OneGeneration(Taken(s, w, kind).alloc.units)
  {
    hide Live;
    var k := Find(s.alloc.units, Acquirable(kind)).value;
    ReplaceIsHeld(s, k, s.alloc.units[k].(status := InProgress), Taken(s, w, kind).held, w);
  }

  lemma PublishIsHeld(s: Sys, w: nat, best: string, bestNonce: Option<nat>)
    requires Live(s) && AllHeld(s.alloc.units, s.held) && MayPublish(s, w) && OneGeneration(s.alloc.units)
    ensures var t := PublishedBy(s, w, best, bestNonce);
      AllHeld(t.alloc.units, t.held) && OneGeneration(t.alloc.units)
  {
    hide Live, AllHeld, OneGeneration;
    var k := HeldUnit(s, w);
    var v := Progressed(s.alloc.units[k], s.held[w].cursor, s.held[w].pending, best, bestNonce);
    ReplaceIsHeld(s, k, v, PublishedBy(s, w, best, bestNonce).held, w);
    ReplaceKeepsGeneration(s.alloc.units, k, v);
  }

  lemma GiveBackIsHeld(s: Sys, w: nat)
    requires Live(s) && AllHeld(s.alloc.units, s.held) && MayGiveBack(s, w) && OneGeneration(s.alloc.units)
    ensures AllHeld(GivenBack(s, w).alloc.units, GivenBack(s, w).held) && OneGeneration(GivenBack(s, w).alloc.units)
  {
    hide Live, AllHeld, OneGeneration;
    var k := HeldUnit(s, w);
    var v := s.alloc.units[k].(status := Pending);
    ReplaceIsHeld(s, k, v, s.held - {w}, w);
    ReplaceKeepsGeneration(s.alloc.units, k, v);
  }

  /** The unit a worker holds is the one the allocator finds by its identifier. */
  lemma HeldUnit(s: Sys, w: nat) returns (k: nat)
    requires Live(s) && w in s.held
    ensures Backed(s.alloc.units, s.held[w], k)
    ensures Find(s.alloc.units, WithId(s.held[w].id)) == Some(k)
    ensures Find(s.alloc.units, RunningWithId(s.held[w].id)) == Some(k)
  {
    hide UnitId, Hex, Accounted, FilesOk, NothingLost, HandsOk;
    k := FindHeld(s.alloc, s.held, s.tested, w);
  }

  lemma ReplaceKeepsGeneration(units: seq<WorkUnit>, k: nat, v: WorkUnit)
    requires OneGeneration(units) && k < |units| && v.generation == units[k].generation
    ensures OneGeneration(units[k := v])
  {}

  lemma HashIsHeld(s: Sys, w: nat)
    requires AllHeld(s.alloc.units, s.held) && MayHash(s, w)
    ensures AllHeld(Hashed(s, w).alloc.units, Hashed(s, w).held)
  {
    forall k: nat | k < |s.alloc.units| && s.alloc.units[k].status == InProgress
      ensures exists x: nat :: HeldBy(Hashed(s, w).held, x, s.alloc.units[k].id)
    {
      var x: nat :| HeldBy(s.held, x, s.alloc.units[k].id);
      assert HeldBy(Hashed(s, w).held, x, s.alloc.units[k].id);
    }
  }

  lemma FinishIsHeld(s: Sys, w: nat)
    requires Live(s) && Tidy(s) && s.ready && MayFinish(s, w) && !FinishedBy(s, w).exhausted
    requires AllHeld(s.alloc.units, s.held) && OneGeneration(s.alloc.units)
    ensures var t := FinishedBy(s, w);
      AllHeld(t.alloc.units, t.held) && OneGeneration(t.alloc.units)
  {
    hide UnitId, Hex, Accounted, FilesOk, NothingLost, HandsOk, CompleteUnit, WidthOk, Stuck, Staffed;
    var k, more := FinishList(s, w);
    var units, after := s.alloc.units, FinishedBy(s, w).alloc.units;
    forall j: nat | j < |after|
      ensures after[j] == if j < |units| - 1 then units[Shifted(k, j)] else more[j - (|units| - 1)]
      ensures after[j].generation == units[k].generation
    {}
    forall j: nat | j < |after| && after[j].status == InProgress
      ensures exists x: nat :: HeldBy(s.held - {w}, x, after[j].id)
    {
      var i := Shifted(k, j);
      assert if i < k then Apart(units[i], units[k]) else Apart(units[k], units[i]);
      var x: nat :| HeldBy(s.held, x, units[i].id);
      assert HeldBy(s.held - {w}, x, after[j].id);
    }
  }

  lemma PrepareIsTidy(s: Sys, cpuWorkers: nat, gpu: bool, generation: nat)
    requires Live(s) && Tidy(s) && s.held == map[] && CounterFits(s.alloc) && IsUnsigned(cpuWorkers)
    requires !Prepared(s, cpuWorkers, gpu, generation).exhausted
    ensures Tidy(Prepared(s, cpuWorkers, gpu, generation))
  {
    hide Live, Staffed, Compatible, Stuck, Prepare;
    var more := PrepareList(s, cpuWorkers, gpu, generation);
    var units, after := s.alloc.units, Prepared(s, cpuWorkers, gpu, generation).alloc.units;
    forall j: nat | j < |after|
      ensures after[j].status == Pending && after[j].generation == generation
    {
      assert after[j] == if j < |units| then units[j].(generation := generation) else more[j - |units|];
    }
  }

  lemma StartIsTidy(s: Sys, a: Alloc, cpuWorkers: nat, gpu: bool, generation: nat)
    requires 1 <= s.job.extranonce2Size <= 8 && IsUnsigned(cpuWorkers)
    requires Prepare(a, true, s.job, cpuWorkers, gpu, generation) == (s.alloc, Started)
    requires !Compatible(s.stored, s.job) && (s.saving.Some? ==> !Compatible(s.saving.value, s.job))
    ensures Tidy(s) && !Stuck(s.alloc.units, Cpu) && !Stuck(s.alloc.units, Gpu) && Staffed(s.alloc.units, Cpu)
  {
    hide Staffed, Compatible, Prepare, InitialUnits;
    StartedIsRestart(a, s.job, cpuWorkers, gpu, generation);
    FirstLayoutIsFresh(s.job, cpuWorkers, gpu, generation);
  }

  lemma CrashIsTidy(s: Sys)
    requires Tidy(s)
    ensures Tidy(Restarted(s, s.stored))
  {
    hide Staffed, Compatible, OneGeneration;
    LoadedIsCompatible(s.stored, s.job);
  }

  lemma SaveIsTidy(s: Sys)
    requires Tidy(s)
    ensures Tidy(s.(saving := Some(s.alloc))) && Tidy(s.(saving := None))
    ensures s.saving.Some? ==> Tidy(s.(stored := s.saving.value, saving := None))
  {
    hide Staffed, Compatible, OneGeneration;
  }

  lemma SameMetaIsTidy(s: Sys, t: Sys)
    requires Tidy(s) && s.ready && t.ready && t.job == s.job && t.stored == s.stored && t.saving == s.saving
    requires t.alloc.meta.cpuWorkers == s.alloc.meta.cpuWorkers && t.alloc.meta.gpuEnabled == s.alloc.meta.gpuEnabled
    requires Live(s) && AllHeld(t.alloc.units, t.held) && OneGeneration(t.alloc.units)
    requires Steady(s.alloc.units, t.alloc.units, Gpu)
    ensures Tidy(t)
  {
    hide Live, Compatible, Staffed, Stuck, Starved, AllDead, OneGeneration;
    LiveIsGood(s);
    WidthOf(s.job, s.alloc);
  }

  lemma StepKeepsTidy(s: Sys, step: Step)
    requires Inv(s) && Tidy(s) && Enabled(s, step) && !After(s, step).exhausted
    ensures Tidy(After(s, step))
  {
    hide Live, Foreign, Steady, Acquire, Compatible, UpdateProgress, Release, Prepare, OneGeneration, AllHeld,
      Staffed, WidthOk;
    HandsAreLive(s);
    var t := After(s, step);
    if Compatible(s.alloc, s.job) && !step.Crash? { StepIsSteady(s, step, Gpu); }
    match step
    case Take(w, kind) => TakeIsHeld(s, w, kind); TakeKeepsMeta(s, w, kind); SameMetaIsTidy(s, t);
    case Hash(w) => HashIsHeld(s, w); SameMetaIsTidy(s, t);
    case Publish(w, best, bestNonce) =>
      PublishIsHeld(s, w, best, bestNonce); PublishKeepsMeta(s, w, best, bestNonce); SameMetaIsTidy(s, t);
    case Finish(w) => FinishIsHeld(s, w); FinishKeepsMeta(s, w); SameMetaIsTidy(s, t);
    case GiveBack(w) => GiveBackIsHeld(s, w); GiveBackKeepsMeta(s, w); SameMetaIsTidy(s, t);
    case PrepareAgain(cpuWorkers, gpu, generation) =>
      if Compatible(s.alloc, s.job) {
        PrepareIsTidy(s, cpuWorkers, gpu, generation);
      } else {
        PrepareStartsLive(s, cpuWorkers, gpu, generation);
        ForeignIs(s);
        StartIsTidy(t, s.alloc, cpuWorkers, gpu, generation);
      }
    case BeginSave => SaveIsTidy(s);
    case CommitSave => SaveIsTidy(s);
    case FailSave => SaveIsTidy(s);
    case Crash => CrashIsTidy(s);
  }

  lemma ForeignIs(s: Sys)
    requires Foreign(s)
    ensures 1 <= s.job.extranonce2Size <= 8
    ensures !Compatible(s.stored, s.job) && (s.saving.Some? ==> !Compatible(s.saving.value, s.job))
  {}

  lemma TakeKeepsMeta(s: Sys, w: nat, kind: Kind)
    requires Acquire(s.alloc, kind).1.Some?
    ensures Taken(s, w, kind).alloc.meta == s.alloc.meta
  {}

  lemma PublishKeepsMeta(s: Sys, w: nat, best: string, bestNonce: Option<nat>)
    requires MayPublish(s, w)
    ensures PublishedBy(s, w, best, bestNonce).alloc.meta == s.alloc.meta
  {}

  lemma GiveBackKeepsMeta(s: Sys, w: nat)
    requires MayGiveBack(s, w)
    ensures GivenBack(s, w).alloc.meta == s.alloc.meta
  {}

  lemma FinishKeepsMeta(s: Sys, w: nat)
    requires MayFinish(s, w)
    ensures var m := FinishedBy(s, w).alloc.meta;
      m.cpuWorkers == s.alloc.meta.cpuWorkers && m.gpuEnabled == s.alloc.meta.gpuEnabled
  {
    hide UnitId, Hex, AppendGroup, Filter, HasOpenInGeneration;
  }

  lemma InitialIsTidy(s: Sys)
    requires Initial(s)
    ensures Tidy(s) && !Stuck(s.alloc.units, Cpu) && !Stuck(s.alloc.units, Gpu) && Staffed(s.alloc.units, Cpu)
    ensures s.alloc.meta.gpuEnabled ==> Staffed(s.alloc.units, Gpu)
  {
    hide Staffed, Compatible, Prepare, Tidy, Stuck;
    var a, cpuWorkers, gpu, generation :| StartedFrom(s, a, cpuWorkers, gpu, generation);
    StartIsTidy(s, a, cpuWorkers, gpu, generation);
    TidyMeans(s);
  }

  lemma TidyMeans(s: Sys)
    requires Tidy(s) && s.ready
    ensures s.alloc.meta.gpuEnabled ==> Staffed(s.alloc.units, Gpu)
    ensures OneGeneration(s.alloc.units)
  {}

  /** Some open unit of the kind has no nonce left, whether pending or in progress. */
  ghost predicate HoldsExhausted(units: seq<WorkUnit>, kind: Kind) {
    exists k: nat :: IsOf(units, kind, k) && units[k].nonceNext == units[k].nonceEnd
  }

  /** A reload makes the kind stuck exactly when the checkpoint file holds an exhausted unit of it. */
  lemma ReloadSticks(s: Sys, kind: Kind)
    requires Inv(s) && !s.exhausted && Compatible(s.stored, s.job)
    ensures Stuck(Restarted(s, s.stored).alloc.units, kind) <==> HoldsExhausted(s.stored.units, kind)
  {
    hide Live, Foreign, Compatible, Stuck, HoldsExhausted;
    HandsAreLive(s);
    StoredIsGood(s);
    LoadSticks(s.stored, kind);
  }

  lemma StoredIsGood(s: Sys)
    requires Live(s) && Compatible(s.stored, s.job)
    ensures Good(s.stored)
  {
    hide Good, Compatible, Accounted, NothingLost, HandsOk, PublishedKept;
  }

  lemma LoadSticks(stored: Alloc, kind: Kind)
    requires Good(stored)
    ensures Stuck(Load(stored).units, kind) <==> HoldsExhausted(stored.units, kind)
  {
    hide Good;
    GoodIsPlain(stored);
    forall k: nat | k < |stored.units|
      ensures IsDead(Load(stored).units, kind, k)
        <==> IsOf(stored.units, kind, k) && stored.units[k].nonceNext == stored.units[k].nonceEnd
    {
      assert Plain(stored.meta, stored.units[k]);
    }
  }

  // ----- whole runs -----

  /** Whatever happens short of a crash: the state stays sound and tidy, and the kind steady. */
  lemma {:induction false} RunIsSteady(s: Sys, steps: seq<Step>, kind: Kind)
    requires Inv(s) && Tidy(s) && s.ready && Runs(s, steps) && NoCrash(steps) && !Final(s, steps).exhausted
    ensures var t := Final(s, steps);
      && Inv(t) && Tidy(t) && t.ready
      && (Stuck(s.alloc.units, kind) <==> Stuck(t.alloc.units, kind))
      && (Stuck(s.alloc.units, kind) ==> Ids(t.alloc.units, kind) <= Ids(s.alloc.units, kind))
      && (Starved(s.alloc.units, kind) ==> AllDead(t.alloc.units, kind))
      && (Staffed(s.alloc.units, kind) ==> Staffed(t.alloc.units, kind))
    decreases |steps|
  {
    hide Inv, Tidy, After, Enabled, Stuck, AllDead, Staffed, Ids, Compatible;
    if steps != [] {
      var u := After(s, steps[0]);
      assert !steps[0].Crash?;
      if u.exhausted { NothingAfterExhaustion(u, steps[1..]); }
      ReadyStays(s, steps[0]);
      StepKeepsInv(s, steps[0]);
      StepKeepsTidy(s, steps[0]);
      StepIsSteady(s, steps[0], kind);
      assert NoCrash(steps[1..]);
      RunIsSteady(u, steps[1..], kind);
    }
  }

  lemma ReadyStays(s: Sys, step: Step)
    requires Inv(s) && Enabled(s, step) && s.ready && !step.Crash?
    ensures After(s, step).ready && Compatible(s.alloc, s.job)
  {
    hide Live, Foreign, Compatible;
    HandsAreLive(s);
  }

  lemma NothingAfterExhaustion(t: Sys, steps: seq<Step>)
    requires t.exhausted && Runs(t, steps)
    ensures steps == []
  {}

  predicate IsTakeOf(step: Step, kind: Kind) { step.Take? && step.kind == kind }

  /** Starvation lasts: however the run goes on short of a crash, nobody of the kind gets a unit again. */
  lemma StarvedForGood(s: Sys, steps: seq<Step>, kind: Kind, i: nat)
    requires Inv(s) && Tidy(s) && s.ready && !s.exhausted && Starved(s.alloc.units, kind)
    requires Runs(s, steps) && NoCrash(steps) && i < |steps|
    ensures !IsTakeOf(steps[i], kind)
  {
    hide Inv, Tidy, Starved, After, Enabled, Live;
    SplitRun(s, steps, i);
    var t := Final(s, steps[..i]);
    assert NoCrash(steps[..i]);
    EnabledIsLive(t, steps[i]);
    RunIsSteady(s, steps[..i], kind);
    HandsAreLive(t);
    TurnedAwayIffStarved(t, kind);
    if IsTakeOf(steps[i], kind) { TakeIsServed(t, steps[i].w, kind); }
  }

  lemma EnabledIsLive(t: Sys, step: Step)
    requires Enabled(t, step)
    ensures !t.exhausted
  {}

  lemma TakeIsServed(t: Sys, w: nat, kind: Kind)
    requires Enabled(t, Take(w, kind))
    ensures Served(t.alloc, kind)
  {}

  lemma {:induction false} SplitRun(s: Sys, steps: seq<Step>, i: nat)
    requires Runs(s, steps) && i < |steps|
    ensures Runs(s, steps[..i]) && Enabled(Final(s, steps[..i]), steps[i])
    decreases |steps|
  {
    hide After, Enabled;
    if i > 0 {
      assert steps[..i][0] == steps[0] && steps[..i][1..] == steps[1..][..i - 1];
      SplitRun(After(s, steps[0]), steps[1..], i - 1);
    }
  }

  function Hashes(w: nat, n: nat): seq<Step> {
    if n == 0 then [] else [Hash(w)] + Hashes(w, n - 1)
  }

  /** n hash steps of one worker move its cursor and nothing else. */
  lemma {:induction false} HashRun(s: Sys, w: nat, n: nat)
    requires !s.exhausted && w in s.held && s.held[w].cursor + n <= s.held[w].nonceEnd
    requires s.held[w].kind.Cpu? ==> s.held[w].pending + n <= BATCH
    ensures Runs(s, Hashes(w, n)) && InBatches(s, Hashes(w, n))
    ensures var t := Final(s, Hashes(w, n));
      && t == s.(held := t.held, tested := t.tested, lost := t.lost)
      && w in t.held && t.held[w] == s.held[w].(cursor := s.held[w].cursor + n, pending := s.held[w].pending + n)
    decreases n
  {
    if n > 0 {
      assert Hashes(w, n)[0] == Hash(w) && Hashes(w, n)[1..] == Hashes(w, n - 1);
      HashRun(Hashed(s, w), w, n - 1);
    }
  }

  lemma {:induction false} RunsAppend(s: Sys, first: seq<Step>, second: seq<Step>)
    requires Runs(s, first) && Runs(Final(s, first), second)
    ensures Runs(s, first + second) && Final(s, first + second) == Final(Final(s, first), second)
    decreases |first|
  {
    hide After, Enabled;
    if first == [] {
      assert first + second == second;
    } else {
      assert (first + second)[1..] == first[1..] + second;
      RunsAppend(After(s, first[0]), first[1..], second);
    }
  }

  lemma ExtendRun(s: Sys, steps: seq<Step>, step: Step) returns (more: seq<Step>)
    requires Runs(s, steps) && Enabled(Final(s, steps), step)
    ensures more == steps + [step] && Runs(s, more) && Final(s, more) == After(Final(s, steps), step)
  {
    hide After, Enabled;
    var t := Final(s, steps);
    assert [step][1..] == [];
    assert Runs(t, [step]) && Final(t, [step]) == After(t, step);
    RunsAppend(s, steps, [step]);
    more := steps + [step];
  }


  /** A CPU worker publishes at the end of a batch or of its unit, as its loop does. */
  predicate InBatch(s: Sys, step: Step) {
    step.Publish? && step.w in s.held && s.held[step.w].kind.Cpu? ==>
      var h := s.held[step.w];
      h.pending == BATCH || (h.pending < BATCH && h.cursor == h.nonceEnd)
  }

  ghost predicate InBatches(s: Sys, steps: seq<Step>)
    requires Runs(s, steps)
    decreases |steps|
  {
    steps == [] || (InBatch(s, steps[0]) && InBatches(After(s, steps[0]), steps[1..]))
  }

  lemma {:induction false} BatchesAppend(s: Sys, first: seq<Step>, second: seq<Step>)
    requires Runs(s, first) && Runs(Final(s, first), second)
    requires InBatches(s, first) && InBatches(Final(s, first), second)
    ensures Runs(s, first + second) && InBatches(s, first + second)
    decreases |first|
  {
    hide After, Enabled, InBatch;
    RunsAppend(s, first, second);
    if first == [] {
      assert first + second == second;
    } else {
      assert (first + second)[1..] == first[1..] + second;
      BatchesAppend(After(s, first[0]), first[1..], second);
    }
  }

  /** One more step that keeps to the batches. */
  lemma ExtendBatches(s: Sys, steps: seq<Step>, step: Step)
    requires Runs(s, steps) && InBatches(s, steps) && Enabled(Final(s, steps), step) && InBatch(Final(s, steps), step)
    ensures Runs(s, steps + [step]) && InBatches(s, steps + [step])
  {
    hide After, Enabled, InBatch;
    assert [step][1..] == [];
    assert Runs(Final(s, steps), [step]) && InBatches(Final(s, steps), [step]);
    BatchesAppend(s, steps, [step]);
  }

  // ----- a stuck kind runs dry -----

  ghost predicate StuckState(s: Sys, kind: Kind) {
    Inv(s) && Tidy(s) && s.ready && !s.exhausted && Stuck(s.alloc.units, kind) && CounterFits(s.alloc)
  }

  /** The run goes on, without crashing and with CPU workers that keep to their batches, to the state. */
  ghost predicate Reaches(s: Sys, steps: seq<Step>, t: Sys) {
    Runs(s, steps) && InBatches(s, steps) && NoCrash(steps) && t == Final(s, steps) && !t.exhausted
  }

  lemma Onward(s: Sys, steps: seq<Step>, t: Sys, step: Step) returns (more: seq<Step>)
    requires Reaches(s, steps, t) && Enabled(t, step) && InBatch(t, step) && !step.Crash? && !After(t, step).exhausted
    ensures more == steps + [step] && Reaches(s, more, After(t, step))
  {
    hide After, Enabled, InBatch;
    more := ExtendRun(s, steps, step);
    ExtendBatches(s, steps, step);
    forall i | 0 <= i < |more|
      ensures !more[i].Crash?
    {
      assert more[i] == if i < |steps| then steps[i] else step;
    }
  }

  lemma {:induction false} HashesDoNotCrash(w: nat, n: nat)
    ensures NoCrash(Hashes(w, n))
  {
    if n > 0 { HashesDoNotCrash(w, n - 1); }
  }

  lemma FreeWorker(held: map<nat, Held>) returns (w: nat)
    ensures w !in held
  {
    w := AboveAll(held.Keys);
  }

  lemma {:induction false} AboveAll(s: set<nat>) returns (w: nat)
    ensures forall x :: x in s ==> x < w
    decreases |s|
  {
    if s == {} { return 0; }
    var x :| x in s;
    var v := AboveAll(s - {x});
    w := if v > x then v else x + 1;
    forall y | y in s
      ensures y < w
    {
      if y != x { assert y in s - {x}; }
    }
  }

  /** The same job and files, and the same units as far as identifiers and kinds go. */
  ghost predicate Alike(s: Sys, t: Sys) {
    && t.job == s.job && t.alloc.meta == s.alloc.meta && t.saving == s.saving && t.stored == s.stored
    && |t.alloc.units| == |s.alloc.units|
    && forall k :: 0 <= k < |s.alloc.units| ==>
         t.alloc.units[k].worker == s.alloc.units[k].worker && t.alloc.units[k].id == s.alloc.units[k].id
  }

  /** A worker hashes the rest of its unit batch by batch and publishes each. */
  lemma {:induction false} WorkOff(s: Sys, w: nat) returns (steps: seq<Step>, t: Sys)
    requires Inv(s) && Tidy(s) && s.ready && !s.exhausted && w in s.held
    ensures Reaches(s, steps, t) && Inv(t) && Tidy(t) && t.ready && Alike(s, t) && w in t.held
    ensures t.held[w] == s.held[w].(cursor := s.held[w].nonceEnd, pending := 0)
    decreases if s.held[w].cursor < s.held[w].nonceEnd then s.held[w].nonceEnd - s.held[w].cursor else 0,
      s.held[w].pending
  {
    hide Inv, Tidy, Runs, Final, Enabled, After, NoCrash, InBatches, Alike;
    var rest := RestOf(s, w);
    var h := s.held[w];
    if rest == 0 && h.pending == 0 {
      EmptyRun(s);
      AlikeItself(s);
      return [], s;
    }
    var n, first, u := OneBatch(s, w, rest);
    var more, v := WorkOff(u, w);
    JoinRuns(s, first, u, more, v);
    AlikeOnward(s, u, v);
    steps, t := first + more, v;
  }

  /** Publishing what is due, or else hashing up to the end of the batch or of the unit. */
  lemma OneBatch(s: Sys, w: nat, rest: nat) returns (n: nat, steps: seq<Step>, t: Sys)
    requires Inv(s) && Tidy(s) && s.ready && !s.exhausted && w in s.held
    requires s.held[w].cursor + rest == s.held[w].nonceEnd && (rest > 0 || s.held[w].pending > 0)
    requires s.held[w].kind.Cpu? ==> s.held[w].pending <= BATCH
    ensures Reaches(s, steps, t) && Inv(t) && Tidy(t) && t.ready && Alike(s, t) && w in t.held
    ensures n <= rest && (n > 0 || s.held[w].pending > 0)
    ensures t.held[w]
      == s.held[w].(cursor := s.held[w].cursor + n, pending := if n == 0 then 0 else s.held[w].pending + n)
  {
    hide Inv, Tidy, Enabled, After;
    var h := s.held[w];
    if h.pending > 0 && (h.pending >= BATCH || rest == 0) {
      EmptyRun(s);
      PublishAlone(s, w);
      var step := Publish(w, "", None);
      steps := Onward(s, [], s, step);
      t := After(s, step);
      n := 0;
    } else {
      n := if rest <= BATCH - h.pending then rest else BATCH - h.pending;
      HashRun(s, w, n);
      HashesDoNotCrash(w, n);
      steps, t := Hashes(w, n), Final(s, Hashes(w, n));
    }
    RunIsSteady(s, steps, Cpu);
  }

  lemma AlikeItself(s: Sys)
    ensures Alike(s, s)
  {}

  lemma AlikeOnward(s: Sys, t: Sys, u: Sys)
    requires Alike(s, t) && Alike(t, u)
    ensures Alike(s, u)
  {}

  /** A worker holding a unit of the kind finishes it, and no group takes its place. */
  lemma FinishInHand(s: Sys, w: nat, kind: Kind, k: nat) returns (steps: seq<Step>, t: Sys)
    requires StuckState(s, kind) && w in s.held && IsOf(s.alloc.units, kind, k) && s.alloc.units[k].id == s.held[w].id
    ensures Reaches(s, steps, t) && StuckState(t, kind) && |t.alloc.units| < |s.alloc.units|
  {
    hide Inv, Tidy, Stuck, Enabled, After, Runs, Final, NoCrash, InBatches;
    steps, t := WorkOff(s, w);
    RunIsSteady(s, steps, kind);
    FinishAlone(t, w, kind, k);
    steps := Onward(s, steps, t, Finish(w));
    t := After(t, Finish(w));
    RunIsSteady(s, steps, kind);
  }

  lemma RestOf(s: Sys, w: nat) returns (rest: nat)
    requires Inv(s) && !s.exhausted && w in s.held
    ensures s.held[w].cursor + rest == s.held[w].nonceEnd
    ensures s.held[w].kind.Cpu? ==> s.held[w].pending <= BATCH
  {
    hide UnitId, Hex, Accounted, NothingLost, FilesOk, Compatible;
    HandsAreLive(s);
    var k := FindHeld(s.alloc, s.held, s.tested, w);
    rest := s.held[w].nonceEnd - s.held[w].cursor;
  }

  lemma PublishAlone(t: Sys, w: nat)
    requires Inv(t) && !t.exhausted && w in t.held && t.held[w].pending > 0
    ensures var step := Publish(w, "", None);
      && Enabled(t, step) && !After(t, step).exhausted && Alike(t, After(t, step))
      && After(t, step).held == t.held[w := t.held[w].(pending := 0)]
  {
    hide Inv;
  }

  lemma FinishAlone(t: Sys, w: nat, kind: Kind, k: nat)
    requires StuckState(t, kind) && w in t.held && t.held[w].cursor == t.held[w].nonceEnd && t.held[w].pending == 0
    requires IsOf(t.alloc.units, kind, k) && t.alloc.units[k].id == t.held[w].id
    ensures var step := Finish(w);
      && Enabled(t, step) && !After(t, step).exhausted
      && |After(t, step).alloc.units| < |t.alloc.units| && After(t, step).alloc.meta == t.alloc.meta
  {
    hide UnitId, Hex, Accounted, NothingLost, FilesOk, Compatible, CompleteUnit, Stuck, GroupOpen, WidthOk, AllHeld,
      Staffed;
    HandsAreLive(t);
    var j := FindHeld(t.alloc, t.held, t.tested, w);
    assert j == k;
    DeadKeepsOpen(t.alloc, k);
    GoodIsPlain(t.alloc);
    CompleteEffect(t.alloc, k);
  }

  /** Once a kind is stuck, it can run dry: a run without a crash ends with all its units dead. */
  lemma {:induction false} RunDry(s: Sys, kind: Kind) returns (steps: seq<Step>, t: Sys)
    requires StuckState(s, kind)
    ensures Reaches(s, steps, t) && StuckState(t, kind) && AllDead(t.alloc.units, kind)
    decreases |s.alloc.units|
  {
    hide Inv, Tidy, Stuck, Enabled, After, Runs, Final, CounterFits, InBatches;
    steps, t := [], s;
    EmptyRun(s);
    if !AllDead(s.alloc.units, kind) {
      steps, t := OneLess(s, kind);
      var more, u := RunDry(t, kind);
      JoinRuns(s, steps, t, more, u);
      steps, t := steps + more, u;
    }
  }

  lemma EmptyRun(s: Sys)
    requires !s.exhausted
    ensures Reaches(s, [], s)
  {}

  lemma JoinRuns(s: Sys, first: seq<Step>, t: Sys, second: seq<Step>, u: Sys)
    requires Reaches(s, first, t) && Reaches(t, second, u)
    ensures Reaches(s, first + second, u)
  {
    hide InBatches;
    RunsAppend(s, first, second);
    BatchesAppend(s, first, second);
  }

  /** A unit of a stuck kind that is not dead can be finished, by its holder or by anyone who takes it. */
  lemma OneLess(s: Sys, kind: Kind) returns (steps: seq<Step>, t: Sys)
    requires StuckState(s, kind) && !AllDead(s.alloc.units, kind)
    ensures Reaches(s, steps, t) && StuckState(t, kind) && |t.alloc.units| < |s.alloc.units|
  {
    hide Inv, Tidy, Stuck, Enabled, After, Runs, Final, CounterFits, AllDead, NoCrash, InBatches;
    var held, w, k := HolderOrFree(s, kind);
    if held {
      steps, t := FinishInHand(s, w, kind, k);
    } else {
      var u := After(s, Take(w, kind));
      EmptyRun(s);
      steps := Onward(s, [], s, Take(w, kind));
      TakenStaysStuck(s, w, kind, steps);
      var more, v := FinishInHand(u, w, kind, k);
      JoinRuns(s, steps, u, more, v);
      steps, t := steps + more, v;
    }
  }

  lemma TakenStaysStuck(s: Sys, w: nat, kind: Kind, steps: seq<Step>)
    requires StuckState(s, kind) && Enabled(s, Take(w, kind)) && Reaches(s, steps, After(s, Take(w, kind)))
    ensures StuckState(After(s, Take(w, kind)), kind)
  {
    hide Inv, Tidy, Stuck;
    RunIsSteady(s, steps, kind);
  }

  /** Unit k of the kind is in the hands of w, or w is free and will get it. */
  lemma HolderOrFree(s: Sys, kind: Kind) returns (held: bool, w: nat, k: nat)
    requires StuckState(s, kind) && !AllDead(s.alloc.units, kind)
    ensures held ==> w in s.held && IsOf(s.alloc.units, kind, k) && s.alloc.units[k].id == s.held[w].id
    ensures !held ==> Enabled(s, Take(w, kind))
    ensures !held ==> var u := After(s, Take(w, kind));
      w in u.held && IsOf(u.alloc.units, kind, k) && u.alloc.units[k].id == u.held[w].id
      && !u.exhausted && |u.alloc.units| == |s.alloc.units|
  {
    hide UnitId, Hex, Accounted, NothingLost, FilesOk, Compatible, Good, Stuck, AllDead, HandsOk, GoodFor, Find;
    HandsAreLive(s);
    TurnedAwayIffStarved(s, kind);
    if j: nat :| IsOf(s.alloc.units, kind, j) && s.alloc.units[j].status == InProgress {
      var x: nat :| HeldBy(s.held, x, s.alloc.units[j].id);
      held, w, k := true, x, j;
    } else {
      held := false;
      w := FreeWorker(s.held);
      k := Find(s.alloc.units, Acquirable(kind)).value;
    }
  }

  // ----- the exact condition of progress -----

  /** However the run goes on short of a crash and of an exhausted counter, the kind is served. */
  ghost predicate ServedForGood(s: Sys, kind: Kind) {
    forall steps: seq<Step> :: Runs(s, steps) && NoCrash(steps) && !Final(s, steps).exhausted ==>
      Served(Final(s, steps).alloc, kind)
  }

  /** The same for the runs in which CPU workers keep to their batches. */
  ghost predicate ServedInBatches(s: Sys, kind: Kind) {
    forall steps: seq<Step>, t: Sys :: Reaches(s, steps, t) ==> Served(t.alloc, kind)
  }

  /** The allocator keeps serving a kind that has units if and only if none of them is dead, whether or not
      the CPU workers keep to their batches. */
  lemma ServedFromHere(s: Sys, kind: Kind)
    requires Inv(s) && Tidy(s) && s.ready && !s.exhausted && CounterFits(s.alloc) && Staffed(s.alloc.units, kind)
    ensures ServedForGood(s, kind) <==> !Stuck(s.alloc.units, kind)
    ensures ServedInBatches(s, kind) <==> !Stuck(s.alloc.units, kind)
  {
    hide Inv, Tidy, Stuck, Staffed, Served, Runs, Final, CounterFits, NoCrash, AllDead, InBatches;
    if Stuck(s.alloc.units, kind) {
      var steps, t := RunDry(s, kind);
      LiveWhenReady(t);
      TurnedAwayIffStarved(t, kind);
    } else {
      forall steps: seq<Step> | Runs(s, steps) && NoCrash(steps) && !Final(s, steps).exhausted
        ensures Served(Final(s, steps).alloc, kind)
      {
        RunIsSteady(s, steps, kind);
        LiveWhenReady(Final(s, steps));
        ServedUnlessStuck(Final(s, steps), kind);
      }
    }
  }

  lemma {:induction false} RunKeepsTidy(s: Sys, steps: seq<Step>)
    requires Inv(s) && Tidy(s) && Runs(s, steps) && !Final(s, steps).exhausted
    ensures Inv(Final(s, steps)) && Tidy(Final(s, steps))
    decreases |steps|
  {
    hide Inv, Tidy, After, Enabled;
    if steps != [] {
      var u := After(s, steps[0]);
      if u.exhausted { NothingAfterExhaustion(u, steps[1..]); }
      StepKeepsInv(s, steps[0]);
      StepKeepsTidy(s, steps[0]);
      RunKeepsTidy(u, steps[1..]);
    }
  }

  /** Wherever a run has got, through any crashes: once the job is prepared, the CPU, and the GPU when it is
      enabled, goes on being served if and only if no unit of the kind is dead. */
  lemma ServedIffNotStuck(s: Sys, steps: seq<Step>, kind: Kind)
    requires Initial(s) && Runs(s, steps)
    requires var t := Final(s, steps);
      t.ready && !t.exhausted && CounterFits(t.alloc) && (kind == Cpu || t.alloc.meta.gpuEnabled)
    ensures var t := Final(s, steps);
      && (ServedForGood(t, kind) <==> !Stuck(t.alloc.units, kind))
      && (ServedInBatches(t, kind) <==> !Stuck(t.alloc.units, kind))
  {
    hide Inv, Tidy, Stuck, Staffed, Served, Runs, Final, CounterFits, Initial, ServedForGood, ServedInBatches;
    InitialInv(s);
    InitialIsTidy(s);
    RunKeepsTidy(s, steps);
    var t := Final(s, steps);
    TidyMeans(t);
    LiveWhenReady(t);
    CpuIsStaffed(t);
    ServedFromHere(t, kind);
  }

  lemma CpuIsStaffed(t: Sys)
    requires Live(t)
    ensures Staffed(t.alloc.units, Cpu)
  {
    hide Good, Accounted, FilesOk, NothingLost, HandsOk;
    var k :| 0 <= k < |t.alloc.units| && t.alloc.units[k].worker == Cpu;
    assert IsOf(t.alloc.units, Cpu, k);
  }

  lemma LiveWhenReady(t: Sys)
    requires Inv(t) && t.ready && !t.exhausted
    ensures Live(t)
  {
    hide Live, Compatible;
    HandsAreLive(t);
  }

  lemma ServedUnlessStuck(t: Sys, kind: Kind)
    requires Live(t) && Staffed(t.alloc.units, kind) && !Stuck(t.alloc.units, kind)
    ensures Served(t.alloc, kind)
  {
    hide Live, Served;
    TurnedAwayIffStarved(t, kind);
    var k: nat :| IsOf(t.alloc.units, kind, k);
    assert !IsDead(t.alloc.units, kind, k);
  }

  /** In a run without a crash nothing is ever dead: until the counter is exhausted the CPU is served,
      and so is the GPU when it is enabled. */
  lemma ServedWithoutCrash(s: Sys, steps: seq<Step>, kind: Kind)
    requires Initial(s) && Runs(s, steps) && NoCrash(steps) && !Final(s, steps).exhausted
    requires kind == Cpu || Final(s, steps).alloc.meta.gpuEnabled
    ensures !Stuck(Final(s, steps).alloc.units, kind) && Served(Final(s, steps).alloc, kind)
  {
    hide Inv, Tidy, Stuck, Staffed, Served, Runs, Final, NoCrash, Initial;
    InitialInv(s);
    InitialIsTidy(s);
    assert s.ready by { FreshStart(s); }
    RunIsSteady(s, steps, kind);
    var t := Final(s, steps);
    TidyMeans(t);
    LiveWhenReady(t);
    ServedUnlessStuck(t, kind);
  }

  // ----- a run that starves -----

  /** One CPU unit that nobody has started. */
  predicate Untouched(a: Alloc, size: nat) {
    && |a.units| == 1 && a.meta.nextCounter == 1
    && var u := a.units[0];
      u.status == Pending && u.worker == Cpu && u.nonceStart == 0 && u.nonceNext == 0 && u.nonceEnd == NONCE_SPACE
      && u.bestHash == "" && u.extranonce2 == Hex(0, 2 * size)
  }

  /** What a prepare with one worker and no GPU makes of other work. */
  lemma FirstUnit(a: Alloc, job: Job, generation: nat)
    requires 1 <= job.extranonce2Size <= 8 && !Compatible(a, job)
    ensures var (b, outcome) := Prepare(a, true, job, 1, false, generation);
      outcome == Started && Untouched(b, job.extranonce2Size)
  {
    hide UnitId, Hex;
    SliceEnds(1);
  }

  /** The state after a first prepare with one worker and no GPU. */
  lemma SingleUnit(job: Job) returns (s: Sys)
    requires 1 <= job.extranonce2Size <= 8
    ensures Initial(s) && s.job == job && Untouched(s.alloc, job.extranonce2Size)
  {
    var blank := Alloc([], Meta("", "", "", 0, "", 1, false, 0));
    assert !Compatible(blank, job);
    FirstUnit(blank, job, 1);
    s := Sys(job, true, Prepare(blank, true, job, 1, false, 1).0, map[], None, blank, {}, {}, false);
    assert StartedFrom(s, blank, 1, false, 1);
  }

  /** A crash before the first checkpoint makes the next prepare start afresh, and the first pair is
      hashed a second time. */
  lemma EarlyCrashForgets(job: Job) returns (s: Sys, steps: seq<Step>)
    requires 1 <= job.extranonce2Size <= 8
    ensures Initial(s) && s.job == job && Runs(s, steps)
    ensures var t := Final(s, steps);
      Enabled(t, Hash(0)) && NextPair(t.held[0]) in t.tested
  {
    hide Initial, Prepare, UnitId, Hex, Compatible, Runs, Final;
    s := SingleUnit(job);
    var pair := (Hex(0, 2 * job.extranonce2Size), 0);
    FreshStart(s);
    EmptySteps(s);
    TakeUntouched(s);
    steps := ExtendRun(s, [], Take(0, Cpu));
    steps := ExtendRun(s, steps, Hash(0));
    assert pair in Final(s, steps).tested;
    steps := ExtendRun(s, steps, Crash);
    var t := Final(s, steps);
    LoadedIsCompatible(s.stored, job);
    FirstUnit(t.alloc, job, 2);
    steps := ExtendRun(s, steps, PrepareAgain(1, false, 2));
    TakeUntouched(Final(s, steps));
    steps := ExtendRun(s, steps, Take(0, Cpu));
  }

  lemma EmptySteps(s: Sys)
    ensures Runs(s, []) && Final(s, []) == s
  {}

  lemma TakeUntouched(s: Sys)
    requires Untouched(s.alloc, s.job.extranonce2Size)
    ensures Acquire(s.alloc, Cpu).1 == Some(s.alloc.units[0].(status := InProgress))
  {}

  lemma FreshStart(s: Sys)
    requires Initial(s)
    ensures s.ready && s.held == map[] && s.saving == None && !s.exhausted && !Compatible(s.stored, s.job)
  {}

  /** A worker that publishes the end of its unit, is checkpointed, and crashes before completing it
      leaves the CPU starved with almost the whole extranonce2 space still unissued. */
  lemma StarvationIsReachable(job: Job) returns (s: Sys, steps: seq<Step>)
    requires 1 <= job.extranonce2Size <= 8
    ensures Initial(s) && s.job == job && Runs(s, steps) && InBatches(s, steps)
    ensures var t := Final(s, steps);
      && !t.exhausted && t.held == map[] && Starved(t.alloc.units, Cpu)
      && t.alloc.meta.nextCounter == 1 < Capacity(job.extranonce2Size)
  {
    hide Initial, Capacity, Runs, Final, InBatches, Inv, Tidy, NoCrash;
    CapacityAtLeast(job.extranonce2Size);
    s := SingleUnit(job);
    InitialInv(s);
    InitialIsTidy(s);
    TakeUntouched(s);
    FreshStart(s);
    EmptyRun(s);
    steps := Onward(s, [], s, Take(0, Cpu));
    var s1 := After(s, Take(0, Cpu));
    RunIsSteady(s, steps, Cpu);
    var more, s2 := WorkOff(s1, 0);
    JoinRuns(s, steps, s1, more, s2);
    steps := steps + more;
    OnlyUnit(s2);
    steps := Onward(s, steps, s2, BeginSave);
    var s3 := After(s2, BeginSave);
    steps := Onward(s, steps, s3, CommitSave);
    var s4 := After(s3, CommitSave);
    ExtendBatches(s, steps, Crash);
    steps := ExtendRun(s, steps, Crash);
    LoadedStarved(s2.alloc);
  }

  /** The worker that has worked off the only unit has published its end. */
  lemma OnlyUnit(t: Sys)
    requires Inv(t) && !t.exhausted && 0 in t.held && |t.alloc.units| == 1
    requires t.held[0].cursor == t.held[0].nonceEnd && t.held[0].pending == 0
    ensures var u := t.alloc.units[0];
      u.worker == t.held[0].kind && u.status == InProgress && u.nonceNext == u.nonceEnd
  {
    hide UnitId, Hex, Accounted, NothingLost, FilesOk, Compatible;
    HandsAreLive(t);
    var k := FindHeld(t.alloc, t.held, t.tested, 0);
  }

  lemma LoadedStarved(a: Alloc)
    requires |a.units| == 1 && a.units[0].worker == Cpu && a.units[0].status == InProgress
    requires a.units[0].nonceNext == a.units[0].nonceEnd
    ensures Starved(Load(a).units, Cpu) && Load(a).meta == a.meta
  {
    assert IsDead(Load(a).units, Cpu, 0);
  }
}
