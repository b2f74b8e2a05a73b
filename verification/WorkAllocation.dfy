// The work allocator: a list of units and its metadata, changed in place under one lock
// (src/mining/work_allocator.cpp). Each method is tied to a function of the old state;
// MiningRuns proves what whole runs of these functions guarantee.
module WorkAllocation {
  import opened Arith
  import opened WorkUnits

  datatype Meta = Meta(
    lastJobId: string, lastPrevhash: string, extranonce1: string, extranonce2Size: nat,
    fingerprint: string, cpuWorkers: nat, gpuEnabled: bool, nextCounter: nat)

  /** The identity of the work a pool announced; prepare_live_job compares all of it. */
  datatype Job = Job(id: string, prevhash: string, extranonce1: string, extranonce2Size: nat, fingerprint: string)

  datatype Alloc = Alloc(units: seq<WorkUnit>, meta: Meta)

  datatype PrepareOutcome = Resumed | Started | PrepareFailed(error: EncodeError)
  datatype CompleteOutcome = Completed | UnknownUnit | CompleteFailed(error: EncodeError)
  datatype Appended = Group(units: seq<WorkUnit>) | NoGroup(error: EncodeError)

  // ----- list helpers -----

  /** The tests the allocator searches its list with. */
  datatype Query = WithId(id: string) | RunningWithId(id: string) | Acquirable(kind: Kind)
  {
    predicate Holds(u: WorkUnit) {
      match this
      case WithId(id) => u.id == id
      case RunningWithId(id) => u.id == id && u.status == InProgress
      case Acquirable(kind) => u.worker == kind && u.status == Pending && u.nonceNext < u.nonceEnd
    }
  }

  function FindFrom(s: seq<WorkUnit>, q: Query, i: nat): (r: Option<nat>)
    requires i <= |s|
    ensures r.Some? ==> i <= r.value < |s| && q.Holds(s[r.value]) && forall j :: i <= j < r.value ==> !q.Holds(s[j])
    ensures r.None? ==> forall j :: i <= j < |s| ==> !q.Holds(s[j])
    decreases |s| - i
  {
    if i == |s| then None else if q.Holds(s[i]) then Some(i) else FindFrom(s, q, i + 1)
  }

  function Find(s: seq<WorkUnit>, q: Query): (r: Option<nat>)
    ensures r.Some? ==> r.value < |s| && q.Holds(s[r.value]) && forall j :: 0 <= j < r.value ==> !q.Holds(s[j])
    ensures r.None? ==> forall j :: 0 <= j < |s| ==> !q.Holds(s[j])
  {
    FindFrom(s, q, 0)
  }

  /** The conditions under which compaction keeps a unit. */
  datatype Sieve = NotComplete | OnResume(job: Job)
  {
    predicate Keeps(u: WorkUnit) {
      match this
      case NotComplete => u.status != Complete
      case OnResume(job) =>
        !(u.status == Stale || u.jobId != job.id || u.prevhash != job.prevhash
          || (job.extranonce2Size > 0 && u.status == Complete))
    }
  }

  function Filter(s: seq<WorkUnit>, sieve: Sieve): (r: seq<WorkUnit>) {
    if s == [] then [] else (if sieve.Keeps(s[0]) then [s[0]] else []) + Filter(s[1..], sieve)
  }

  /** The status changes applied to every unit. */
  datatype Change = Interrupt | MakeStale | RearmFor(generation: nat)
  {
    function On(u: WorkUnit): WorkUnit {
      match this
      case Interrupt => if u.status == InProgress then u.(status := Pending) else u
      case MakeStale => if u.status == Complete then u else u.(status := Stale)
      case RearmFor(generation) =>
        var v := if u.status == InProgress then u.(status := Pending) else u;
        if v.status == Pending then v.(generation := generation) else v
    }
  }

  function Apply(s: seq<WorkUnit>, change: Change): (r: seq<WorkUnit>)
    ensures |r| == |s| && forall i :: 0 <= i < |s| ==> r[i] == change.On(s[i])
  {
    seq(|s|, i requires 0 <= i < |s| => change.On(s[i]))
  }

  /** std::string comparison. */
  predicate TextLess(a: string, b: string) {
    b != "" && (a == "" || a[0] < b[0] || (a[0] == b[0] && TextLess(a[1..], b[1..])))
  }

  function AtLeastOne(n: nat): nat { if n == 0 then 1 else n }

  // ----- building units -----

  function NewUnit(job: string, prevhash: string, size: nat, o: Origin, start: nat, end: nat, generation: nat)
    : WorkUnit
  {
    WorkUnit(UnitId(job, size, o), job, prevhash, Hex(o.Counter(), 2 * size), start, end, start,
             Pending, o.kind, generation, 0, "", None)
  }

  /** create_units: the CPU slices of extranonce2 0 and, with a GPU, the whole of extranonce2 1;
      without any extranonce2 byte the GPU takes the last slice of the shared nonce space. */
  function InitialUnits(job: Job, cpuWorkers: nat, gpu: bool, generation: nat): seq<WorkUnit> {
    var size := job.extranonce2Size;
    var count := AtLeastOne(cpuWorkers);
    var shared := size == 0 && gpu;
    var partitions := count + if shared then 1 else 0;
    seq(count, i requires 0 <= i < count =>
      NewUnit(job.id, job.prevhash, size, FirstLayout(generation, Cpu, i),
              SliceStart(i, partitions), SliceStart(i + 1, partitions), generation))
    + if gpu then
        [NewUnit(job.id, job.prevhash, size, FirstLayout(generation, Gpu, 0),
                 if shared then SliceStart(count, partitions) else 0, NONCE_SPACE, generation)]
      else []
  }

  /** append_live_group: one complete nonce space of the extranonce2 with the given counter. */
  function GroupUnits(job: string, prevhash: string, size: nat, cpuWorkers: nat, generation: nat,
                      kind: Kind, counter: nat): seq<WorkUnit> {
    if kind.Gpu? then
      [NewUnit(job, prevhash, size, LaterGroup(generation, counter, Gpu, 0), 0, NONCE_SPACE, generation)]
    else
      var count := AtLeastOne(cpuWorkers);
      seq(count, i requires 0 <= i < count =>
        NewUnit(job, prevhash, size, LaterGroup(generation, counter, Cpu, i),
                SliceStart(i, count), SliceStart(i + 1, count), generation))
  }

  function AppendGroup(units: seq<WorkUnit>, job: string, prevhash: string, size: nat, cpuWorkers: nat,
                       generation: nat, kind: Kind, counter: nat): Appended {
    match EncodeExtranonce2(counter, size)
    case Failed(error) => NoGroup(error)
    case Text(_) => Group(units + GroupUnits(job, prevhash, size, cpuWorkers, generation, kind, counter))
  }

  // ----- acquire, update_progress, release, load -----

  function Acquire(a: Alloc, kind: Kind): (Alloc, Option<WorkUnit>) {
    match Find(a.units, Acquirable(kind))
    case None => (a, None)
    case Some(k) =>
      var taken := a.units[k].(status := InProgress);
      (a.(units := a.units[k := taken]), Some(taken))
  }

  function Clamp(n: nat, lo: nat, hi: nat): nat {
    if n < lo then lo else if n > hi then hi else n
  }

  function Progressed(u: WorkUnit, next: nat, delta: nat, best: string, bestNonce: Option<nat>): WorkUnit {
    if u.status == Complete || u.status == Stale then u
    else
      var v := u.(nonceNext := Clamp(next, u.nonceStart, u.nonceEnd), hashesTested := u.hashesTested + delta);
      if best != "" && (u.bestHash == "" || TextLess(best, u.bestHash))
      then v.(bestHash := best, bestNonce := bestNonce) else v
  }

  function UpdateProgress(a: Alloc, id: string, next: nat, delta: nat, best: string, bestNonce: Option<nat>)
    : (Alloc, bool)
  {
    match Find(a.units, WithId(id))
    case None => (a, false)
    case Some(k) => (a.(units := a.units[k := Progressed(a.units[k], next, delta, best, bestNonce)]), true)
  }

  function Release(a: Alloc, id: string): Alloc {
    match Find(a.units, RunningWithId(id))
    case None => a
    case Some(k) => a.(units := a.units[k := a.units[k].(status := Pending)])
  }

  /** load_existing: what a restarted process makes of the stored units. */
  function Load(stored: Alloc): Alloc {
    stored.(units := Apply(stored.units, Interrupt))
  }

  function MarkAllStale(a: Alloc): Alloc {
    a.(units := Apply(a.units, MakeStale))
  }

  // ----- complete -----

  predicate HasOpen(units: seq<WorkUnit>, job: string, kind: Kind) {
    exists u :: u in units && u.jobId == job && u.worker == kind && u.Open()
  }

  predicate HasOpenInGeneration(units: seq<WorkUnit>, job: string, kind: Kind, generation: nat) {
    exists u :: u in units && u.jobId == job && u.generation == generation && u.worker == kind && u.Open()
  }

  function Finished(u: WorkUnit): WorkUnit { u.(nonceNext := u.nonceEnd, status := Complete) }

  /** The counter is a 64-bit unsigned integer. */
  function Next(counter: nat): nat { (counter + 1) % U64 }

  function CompleteUnit(a: Alloc, compact: bool, id: string): (Alloc, CompleteOutcome) {
    match Find(a.units, WithId(id))
    case None => (a, UnknownUnit)
    case Some(k) =>
      var u := a.units[k];
      var closed := a.(units := a.units[k := Finished(u)]);
      if !(compact && a.meta.extranonce2Size > 0) then (closed, Completed)
      else if HasOpenInGeneration(closed.units, u.jobId, u.worker, u.generation) then
        (closed.(units := Filter(closed.units, NotComplete)), Completed)
      else
        match AppendGroup(closed.units, u.jobId, u.prevhash, a.meta.extranonce2Size, a.meta.cpuWorkers,
                          u.generation, u.worker, a.meta.nextCounter)
        case NoGroup(error) => (closed, CompleteFailed(error))
        case Group(units) =>
          (Alloc(Filter(units, NotComplete), a.meta.(nextCounter := Next(a.meta.nextCounter))), Completed)
  }

  // ----- prepare_live_job -----

  predicate Compatible(a: Alloc, job: Job) {
    && a.meta.lastJobId == job.id
    && a.meta.lastPrevhash == job.prevhash
    && a.meta.extranonce1 == job.extranonce1
    && a.meta.extranonce2Size == job.extranonce2Size
    && a.meta.fingerprint == job.fingerprint
    && exists u :: u in a.units && u.jobId == job.id && u.status != Stale
  }

  function Described(m: Meta, job: Job, cpuWorkers: nat, gpu: bool, counter: nat): Meta {
    Meta(job.id, job.prevhash, job.extranonce1, job.extranonce2Size, job.fingerprint, cpuWorkers, gpu, counter)
  }

  function Kept(a: Alloc, compact: bool, job: Job): seq<WorkUnit> {
    if compact then Filter(a.units, OnResume(job)) else a.units
  }

  /** The resume branch after compaction: add a group for each worker kind that has nothing open.
      A failing second append leaves the first group in the list and the counter not stored. */
  function Refill(a: Alloc, armed: seq<WorkUnit>, job: Job, cpuWorkers: nat, gpu: bool, generation: nat)
    : (Alloc, PrepareOutcome)
  {
    var size := job.extranonce2Size;
    if size == 0 then (Alloc(armed, Described(a.meta, job, cpuWorkers, gpu, a.meta.nextCounter)), Resumed)
    else
      var counter := a.meta.nextCounter;
      var cpu := if HasOpen(armed, job.id, Cpu) then Group(armed)
                 else AppendGroup(armed, job.id, job.prevhash, size, cpuWorkers, generation, Cpu, counter);
      match cpu
      case NoGroup(error) => (Alloc(armed, a.meta), PrepareFailed(error))
      case Group(withCpu) =>
        var counter' := if HasOpen(armed, job.id, Cpu) then counter else Next(counter);
        if !gpu || HasOpen(withCpu, job.id, Gpu) then
          (Alloc(withCpu, Described(a.meta, job, cpuWorkers, gpu, counter')), Resumed)
        else
          match AppendGroup(withCpu, job.id, job.prevhash, size, cpuWorkers, generation, Gpu, counter')
          case NoGroup(error) => (Alloc(withCpu, a.meta), PrepareFailed(error))
          case Group(all) => (Alloc(all, Described(a.meta, job, cpuWorkers, gpu, Next(counter'))), Resumed)
  }

  function Restart(a: Alloc, compact: bool, job: Job, cpuWorkers: nat, gpu: bool, generation: nat)
    : (Alloc, PrepareOutcome)
  {
    var base := if compact then [] else Apply(a.units, MakeStale);
    if job.extranonce2Size > 8 then (Alloc(base, a.meta), PrepareFailed(SizeUnsupported))
    else
      var counter := if job.extranonce2Size == 0 then 0 else if gpu then 2 else 1;
      (Alloc(base + InitialUnits(job, cpuWorkers, gpu, generation), Described(a.meta, job, cpuWorkers, gpu, counter)),
        Started)
  }

  function Prepare(a: Alloc, compact: bool, job: Job, cpuWorkers: nat, gpu: bool, generation: nat)
    : (Alloc, PrepareOutcome)
  {
    if Compatible(a, job)
      then Refill(a, Apply(Kept(a, compact, job), RearmFor(generation)), job, cpuWorkers, gpu, generation)
    else Restart(a, compact, job, cpuWorkers, gpu, generation)
  }

  // ----- the class -----

  class WorkAllocator {
    const compact: bool
    var units: seq<WorkUnit>
    var meta: Meta

    function State(): Alloc
      reads this
    {
      Alloc(units, meta)
    }

    /** Constructing an allocator loads what the store holds. */
    constructor (stored: Alloc, compact: bool)
      ensures this.compact == compact && State() == Load(stored)
    {
      this.compact := compact;
      meta := stored.meta;
      units := [];
      new;
      for i := 0 to |stored.units|
        invariant meta == stored.meta
        invariant units == Apply(stored.units, Interrupt)[..i]
      {
        units := units + [Interrupt.On(stored.units[i])];
      }
    }

    method AcquireUnit(kind: Kind) returns (taken: Option<WorkUnit>)
      modifies this
      ensures (State(), taken) == Acquire(old(State()), kind)
    {
      var i := 0;
      while i < |units|
        invariant i <= |units|
        invariant State() == old(State())
        invariant FindFrom(units, Acquirable(kind), i) == Find(units, Acquirable(kind))
      {
        if units[i].worker == kind && units[i].status == Pending && units[i].nonceNext < units[i].nonceEnd {
          units := units[i := units[i].(status := InProgress)];
          return Some(units[i]);
        }
        i := i + 1;
      }
      taken := None;
    }

    method Update(id: string, next: nat, delta: nat, best: string, bestNonce: Option<nat>) returns (found: bool)
      modifies this
      ensures (State(), found) == UpdateProgress(old(State()), id, next, delta, best, bestNonce)
    {
      var i := 0;
      while i < |units| && units[i].id != id
        invariant i <= |units|
        invariant FindFrom(units, WithId(id), i) == Find(units, WithId(id))
      {
        i := i + 1;
      }
      if i == |units| { return false; }
      var u := units[i];
      if u.status == Complete || u.status == Stale {
        assert units[i := u] == units;
        return true;
      }
      u := u.(nonceNext := Clamp(next, u.nonceStart, u.nonceEnd));
      u := u.(hashesTested := u.hashesTested + delta);
      if best != "" && (u.bestHash == "" || TextLess(best, u.bestHash)) {
        u := u.(bestHash := best);
        u := u.(bestNonce := bestNonce);
      }
      units := units[i := u];
      found := true;
    }

    method ReleaseUnit(id: string)
      modifies this
      ensures State() == Release(old(State()), id)
    {
      var i := 0;
      while i < |units|
        invariant i <= |units|
        invariant State() == old(State())
        invariant FindFrom(units, RunningWithId(id), i) == Find(units, RunningWithId(id))
      {
        if units[i].id == id && units[i].status == InProgress {
          units := units[i := units[i].(status := Pending)];
          return;
        }
        i := i + 1;
      }
    }

    method StaleAll()
      modifies this
      ensures State() == MarkAllStale(old(State()))
    {
      var i := 0;
      while i < |units|
        invariant i <= |units| == |old(units)| && meta == old(meta)
        invariant forall j :: 0 <= j < i ==> units[j] == MakeStale.On(old(units)[j])
        invariant forall j :: i <= j < |units| ==> units[j] == old(units)[j]
      {
        if units[i].status != Complete { units := units[i := units[i].(status := Stale)]; }
        i := i + 1;
      }
    }

    method AppendLiveGroup(kind: Kind, job: string, prevhash: string, size: nat, cpuWorkers: nat,
                           generation: nat, counter: nat) returns (failure: Option<EncodeError>)
      modifies this`units
      ensures match AppendGroup(old(units), job, prevhash, size, cpuWorkers, generation, kind, counter)
              case NoGroup(error) => units == old(units) && failure == Some(error)
              case Group(all) => units == all && failure == None
    {
      hide UnitId, Hex;
      var encoded := EncodeExtranonce2(counter, size);
      if encoded.Failed? { return Some(encoded.error); }
      failure := None;
      ghost var group := GroupUnits(job, prevhash, size, cpuWorkers, generation, kind, counter);
      if kind.Gpu? {
        units := units + [NewUnit(job, prevhash, size, LaterGroup(generation, counter, Gpu, 0), 0, NONCE_SPACE,
          generation)];
        return;
      }
      var count := AtLeastOne(cpuWorkers);
      for i := 0 to count
        invariant units == old(units) + group[..i]
      {
        units := units + [NewUnit(job, prevhash, size, LaterGroup(generation, counter, Cpu, i),
                                  SliceStart(i, count), SliceStart(i + 1, count), generation)];
      }
    }

    method CompleteById(id: string) returns (outcome: CompleteOutcome)
      modifies this
      ensures (State(), outcome) == CompleteUnit(old(State()), compact, id)
    {
      var i := 0;
      while i < |units| && units[i].id != id
        invariant i <= |units|
        invariant FindFrom(units, WithId(id), i) == Find(units, WithId(id))
      {
        i := i + 1;
      }
      if i == |units| { return UnknownUnit; }
      var u := units[i];
      units := units[i := Finished(u)];
      if compact && meta.extranonce2Size > 0 {
        if !HasOpenInGeneration(units, u.jobId, u.worker, u.generation) {
          var counter := meta.nextCounter;
          var failure := AppendLiveGroup(u.worker, u.jobId, u.prevhash, meta.extranonce2Size, meta.cpuWorkers,
                                         u.generation, counter);
          if failure.Some? { return CompleteFailed(failure.value); }
          meta := meta.(nextCounter := Next(counter));
        }
        units := Filter(units, NotComplete);
      }
      outcome := Completed;
    }

    method PrepareLiveJob(job: Job, cpuWorkers: nat, gpu: bool, generation: nat) returns (outcome: PrepareOutcome)
      modifies this
      ensures (State(), outcome) == Prepare(old(State()), compact, job, cpuWorkers, gpu, generation)
    {
      if !Compatible(State(), job) {
        if compact { units := []; } else { StaleAll(); }
        if job.extranonce2Size > 8 { return PrepareFailed(SizeUnsupported); }
        units := units + InitialUnits(job, cpuWorkers, gpu, generation);
        meta := Described(meta, job, cpuWorkers, gpu, if job.extranonce2Size == 0 then 0 else if gpu then 2 else 1);
        return Started;
      }
      if compact { units := Filter(units, OnResume(job)); }
      RearmAll(generation);
      var counter := meta.nextCounter;
      if job.extranonce2Size > 0 {
        if !HasOpen(units, job.id, Cpu) {
          var failure := AppendLiveGroup(Cpu, job.id, job.prevhash, job.extranonce2Size, cpuWorkers, generation,
            counter);
          if failure.Some? { return PrepareFailed(failure.value); }
          counter := Next(counter);
        }
        if gpu && !HasOpen(units, job.id, Gpu) {
          var failure := AppendLiveGroup(Gpu, job.id, job.prevhash, job.extranonce2Size, cpuWorkers, generation,
            counter);
          if failure.Some? { return PrepareFailed(failure.value); }
          counter := Next(counter);
        }
      }
      meta := Described(meta, job, cpuWorkers, gpu, counter);
      outcome := Resumed;
    }

    method RearmAll(generation: nat)
      modifies this`units
      ensures units == Apply(old(units), RearmFor(generation))
    {
      var i := 0;
      while i < |units|
        invariant i <= |units| == |old(units)|
        invariant forall j :: 0 <= j < i ==> units[j] == RearmFor(generation).On(old(units)[j])
        invariant forall j :: i <= j < |units| ==> units[j] == old(units)[j]
      {
        if units[i].status == InProgress { units := units[i := units[i].(status := Pending)]; }
        if units[i].status == Pending { units := units[i := units[i].(generation := generation)]; }
        i := i + 1;
      }
    }
  }
}
