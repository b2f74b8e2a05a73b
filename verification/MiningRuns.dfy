// Whole runs of the live allocator and its workers for one announced job: every interleaving of
// prepare, acquire, hash, publish, complete, release, checkpoint and crash
// (src/mining/work_allocator.cpp, src/mining/cpu_miner.cpp, src/checkpoint/state_store.cpp).
module MiningRuns {
  import opened Arith
  import opened WorkUnits
  import opened WorkAllocation

  // ----- the state of a run -----

  /** What a worker thread remembers of the unit it took (CpuMiner::worker). */
  datatype Held = Held(id: string, kind: Kind, extranonce2: string, nonceEnd: nat, cursor: nat, pending: nat)

  type Pair = (string, nat)  // an extranonce2 text and a nonce

  /** `ready` says that this process has prepared the job; `saving` is a snapshot being written to the
      temporary file, `stored` what the checkpoint file holds (the empty fallback when there is none);
      `tested` holds every pair hashed so far, `lost` those a crash forgot and nobody hashed again. */
  datatype Sys = Sys(
    job: Job, ready: bool, alloc: Alloc, held: map<nat, Held>,
    saving: Option<Alloc>, stored: Alloc,
    tested: set<Pair>, lost: set<Pair>, exhausted: bool)

  datatype Step =
    | Take(w: nat, kind: Kind)
    | Hash(w: nat)
    | Publish(w: nat, best: string, bestNonce: Option<nat>)
    | Finish(w: nat)
    | GiveBack(w: nat)
    | PrepareAgain(cpuWorkers: nat, gpu: bool, generation: nat)
    | BeginSave
    | CommitSave
    | FailSave
    | Crash

  /** The 64-bit counter does not wrap: only reachable after 2^64 complete nonce spaces. */
  predicate CounterFits(a: Alloc) {
    a.meta.nextCounter + 2 < U64
  }

  /** The worker count is a 32-bit unsigned integer. */
  predicate IsUnsigned(n: nat) { n < NONCE_SPACE }

  /** A CPU worker publishes its progress before it has more hashes than this pending. */
  const BATCH: nat := 65536

  predicate HasRoom(h: Held) { h.kind.Cpu? ==> h.pending < BATCH }

  predicate MayHash(s: Sys, w: nat) {
    w in s.held && s.held[w].cursor < s.held[w].nonceEnd && HasRoom(s.held[w])
  }

  predicate MayPublish(s: Sys, w: nat) { w in s.held && s.held[w].pending > 0 }

  predicate MayFinish(s: Sys, w: nat) {
    w in s.held && s.held[w].cursor >= s.held[w].nonceEnd && s.held[w].pending == 0 && CounterFits(s.alloc)
  }

  predicate MayGiveBack(s: Sys, w: nat) {
    w in s.held && s.held[w].cursor < s.held[w].nonceEnd && s.held[w].pending == 0
  }

  predicate Enabled(s: Sys, step: Step) {
    !s.exhausted &&
    match step
    case Take(w, kind) => s.ready && w !in s.held && Acquire(s.alloc, kind).1.Some?
    case Hash(w) => MayHash(s, w)
    case Publish(w, _, _) => MayPublish(s, w)
    case Finish(w) => MayFinish(s, w)
    case GiveBack(w) => MayGiveBack(s, w)
    case PrepareAgain(cpuWorkers, _, _) =>  // the controller joins the workers first
      s.held == map[] && IsUnsigned(cpuWorkers) && (Compatible(s.alloc, s.job) ==> CounterFits(s.alloc))
    case BeginSave => s.saving == None
    case CommitSave => s.saving.Some?
    case FailSave => s.saving.Some?
    case Crash => true
  }

  function Taken(s: Sys, w: nat, kind: Kind): Sys
    requires Acquire(s.alloc, kind).1.Some?
  {
    var (a, taken) := Acquire(s.alloc, kind);
    var u := taken.value;
    s.(alloc := a, held := s.held[w := Held(u.id, u.worker, u.extranonce2, u.nonceEnd, u.nonceNext, 0)])
  }

  function OneFurther(h: Held): Held { h.(cursor := h.cursor + 1, pending := h.pending + 1) }

  /** The pair the worker hashes next. */
  function NextPair(h: Held): Pair { (h.extranonce2, h.cursor) }

  function Hashed(s: Sys, w: nat): Sys
    requires MayHash(s, w)
  {
    s.(tested := s.tested + {NextPair(s.held[w])}, lost := s.lost - {NextPair(s.held[w])},
       held := s.held[w := OneFurther(s.held[w])])
  }

  function PublishedBy(s: Sys, w: nat, best: string, bestNonce: Option<nat>): Sys
    requires MayPublish(s, w)
  {
    var h := s.held[w];
    s.(alloc := UpdateProgress(s.alloc, h.id, h.cursor, h.pending, best, bestNonce).0,
       held := s.held[w := h.(pending := 0)])
  }

  function FinishedBy(s: Sys, w: nat): Sys
    requires MayFinish(s, w)
  {
    var (a, outcome) := CompleteUnit(s.alloc, true, s.held[w].id);
    s.(alloc := a, held := s.held - {w}, exhausted := outcome.CompleteFailed?)
  }

  function GivenBack(s: Sys, w: nat): Sys
    requires MayGiveBack(s, w)
  {
    s.(alloc := Release(s.alloc, s.held[w].id), held := s.held - {w})
  }

  function Prepared(s: Sys, cpuWorkers: nat, gpu: bool, generation: nat): Sys {
    var (a, outcome) := Prepare(s.alloc, true, s.job, cpuWorkers, gpu, generation);
    s.(alloc := a, ready := true, exhausted := outcome.PrepareFailed?)
  }

  ghost function Restarted(s: Sys, stored: Alloc): Sys {
    var a := Load(stored);
    s.(alloc := a, ready := false, held := map[], saving := None,
       lost := set p | p in s.tested && !(Compatible(a, s.job) && Published(a, p.0, p.1)))
  }

  ghost function After(s: Sys, step: Step): Sys
    requires Enabled(s, step)
  {
    match step
    case Take(w, kind) => Taken(s, w, kind)
    case Hash(w) => Hashed(s, w)
    case Publish(w, best, bestNonce) => PublishedBy(s, w, best, bestNonce)
    case Finish(w) => FinishedBy(s, w)
    case GiveBack(w) => GivenBack(s, w)
    case PrepareAgain(cpuWorkers, gpu, generation) => Prepared(s, cpuWorkers, gpu, generation)
    case BeginSave => s.(saving := Some(s.alloc))
    case CommitSave => s.(stored := s.saving.value, saving := None)
    case FailSave => s.(saving := None)
    case Crash => Restarted(s, s.stored)
  }

  /** The state a first prepare_live_job of a job leaves, whatever the allocator held before and
      whatever other work the checkpoint file describes. */
  ghost predicate Initial(s: Sys) {
    && 1 <= s.job.extranonce2Size <= 8 && s.ready && !Compatible(s.stored, s.job)
    && s.held == map[] && s.saving == None && s.tested == {} && s.lost == {} && !s.exhausted
    && exists a, cpuWorkers, gpu, generation :: StartedFrom(s, a, cpuWorkers, gpu, generation)
  }

  predicate StartedFrom(s: Sys, a: Alloc, cpuWorkers: nat, gpu: bool, generation: nat) {
    IsUnsigned(cpuWorkers) && Prepare(a, true, s.job, cpuWorkers, gpu, generation) == (s.alloc, Started)
  }

  ghost predicate Runs(s: Sys, steps: seq<Step>)
    decreases |steps|
  {
    steps == [] || (Enabled(s, steps[0]) && Runs(After(s, steps[0]), steps[1..]))
  }

  ghost function Final(s: Sys, steps: seq<Step>): Sys
    requires Runs(s, steps)
    decreases |steps|
  {
    if steps == [] then s else Final(After(s, steps[0]), steps[1..])
  }

  // ----- what is left, what is published -----

  predicate Covers(u: WorkUnit, ex: string, n: nat) {
    u.Open() && u.extranonce2 == ex && u.nonceNext <= n < u.nonceEnd
  }

  predicate Remaining(units: seq<WorkUnit>, ex: string, n: nat) {
    exists k :: 0 <= k < |units| && Covers(units[k], ex, n)
  }

  ghost predicate Issued(m: Meta, ex: string) {
    exists e: nat :: e < m.nextCounter && ex == Hex(e, 2 * m.extranonce2Size)
  }

  /** A pair the allocator has handed out and will not hand out again. */
  ghost predicate Published(a: Alloc, ex: string, n: nat) {
    Issued(a.meta, ex) && n < NONCE_SPACE && !Remaining(a.units, ex, n)
  }

  // ----- the invariant -----

  ghost predicate FromOrigin(m: Meta, u: WorkUnit, o: Origin) {
    && o.Counter() < m.nextCounter
    && u.id == UnitId(m.lastJobId, m.extranonce2Size, o)
    && u.extranonce2 == Hex(o.Counter(), 2 * m.extranonce2Size)
    && u.worker == o.kind
  }

  ghost predicate UnitOk(m: Meta, u: WorkUnit) {
    && u.jobId == m.lastJobId && u.prevhash == m.lastPrevhash && u.Open()
    && u.nonceStart <= u.nonceNext <= u.nonceEnd <= NONCE_SPACE
    && u.hashesTested == u.nonceNext - u.nonceStart
    && exists o :: FromOrigin(m, u, o)
  }

  predicate Apart(u: WorkUnit, v: WorkUnit) {
    u.id != v.id && (u.extranonce2 == v.extranonce2 ==> u.nonceEnd <= v.nonceStart || v.nonceEnd <= u.nonceStart)
  }

  ghost predicate AllApart(units: seq<WorkUnit>) {
    forall j, k :: 0 <= j < k < |units| ==> Apart(units[j], units[k])
  }

  ghost predicate UnitsOk(m: Meta, units: seq<WorkUnit>) {
    (forall k :: 0 <= k < |units| ==> UnitOk(m, units[k])) && AllApart(units)
  }

  ghost predicate Good(a: Alloc) {
    && 1 <= a.meta.extranonce2Size <= 8
    && 1 <= a.meta.nextCounter <= Capacity(a.meta.extranonce2Size)
    && UnitsOk(a.meta, a.units)
  }

  ghost predicate HasCpu(units: seq<WorkUnit>) {
    exists k :: 0 <= k < |units| && units[k].worker == Cpu
  }

  ghost predicate ForJob(job: Job, m: Meta) {
    m.lastJobId == job.id && m.lastPrevhash == job.prevhash && m.extranonce1 == job.extranonce1
    && m.extranonce2Size == job.extranonce2Size && m.fingerprint == job.fingerprint
  }

  ghost predicate GoodFor(job: Job, a: Alloc) {
    Good(a) && ForJob(job, a.meta) && HasCpu(a.units)
  }

  /** Unit k is the one a worker holds; the worker is `pending` nonces ahead of its published cursor. */
  ghost predicate Backed(units: seq<WorkUnit>, h: Held, k: nat) {
    && k < |units| && units[k].id == h.id && units[k].worker == h.kind && units[k].status == InProgress
    && units[k].extranonce2 == h.extranonce2 && units[k].nonceEnd == h.nonceEnd
    && units[k].nonceNext + h.pending == h.cursor <= h.nonceEnd
  }

  ghost predicate HandOk(units: seq<WorkUnit>, h: Held, tested: set<Pair>) {
    && (exists k :: Backed(units, h, k)) && (h.kind.Cpu? ==> h.pending <= BATCH)
    && (forall n: nat :: h.cursor - h.pending <= n < h.cursor ==> (h.extranonce2, n) in tested)
  }

  ghost predicate HandsOk(units: seq<WorkUnit>, held: map<nat, Held>, tested: set<Pair>) {
    && (forall w :: w in held ==> HandOk(units, held[w], tested))
    && (forall v, w :: v in held && w in held && v != w ==> held[v].id != held[w].id)
  }

  predicate Ahead(h: Held, ex: string, n: nat) {
    h.extranonce2 == ex && h.cursor - h.pending <= n < h.cursor
  }

  /** Hashed by a worker that has not yet published it. */
  ghost predicate InHand(held: map<nat, Held>, ex: string, n: nat) {
    exists w :: w in held && Ahead(held[w], ex, n)
  }

  ghost predicate PublishedKept(before: Alloc, a: Alloc) {
    forall ex: string, n: nat :: Published(before, ex, n) ==> Published(a, ex, n)
  }

  /** A saved allocation is of other work, or sound and no further than the allocator. */
  ghost predicate SavedOk(job: Job, saved: Alloc, a: Alloc) {
    Compatible(saved, job) ==> GoodFor(job, saved) && PublishedKept(saved, a)
  }

  ghost predicate NothingLost(a: Alloc, tested: set<Pair>) {
    forall ex: string, n: nat :: Published(a, ex, n) ==> (ex, n) in tested
  }

  /** Every hashed pair is published, in some worker's hand, or was forgotten by the last crash. */
  ghost predicate Accounted(a: Alloc, held: map<nat, Held>, tested: set<Pair>, lost: set<Pair>) {
    forall p :: p in tested ==> Published(a, p.0, p.1) || p in lost || InHand(held, p.0, p.1)
  }

  /** The files are sound; a snapshot being written is at least as far as the file it will replace. */
  ghost predicate FilesOk(s: Sys) {
    && SavedOk(s.job, s.stored, s.alloc)
    && (s.saving.Some? ==> SavedOk(s.job, s.saving.value, s.alloc))
    && (s.saving.Some? && Compatible(s.stored, s.job) ==>
          Compatible(s.saving.value, s.job) && PublishedKept(s.stored, s.saving.value))
  }

  /** The allocator holds units of the job. */
  ghost predicate Live(s: Sys) {
    && NothingLost(s.alloc, s.tested)
    && GoodFor(s.job, s.alloc)
    && FilesOk(s)
    && HandsOk(s.alloc.units, s.held, s.tested)
    && Accounted(s.alloc, s.held, s.tested, s.lost)
    && (s.ready || (s.held == map[] && Compatible(s.stored, s.job)))
  }

  /** After a crash before the first checkpoint: other work was loaded, and every hash is forgotten. */
  ghost predicate Foreign(s: Sys) {
    && !s.ready && s.held == map[] && s.tested <= s.lost && 1 <= s.job.extranonce2Size <= 8
    && !Compatible(s.stored, s.job) && (s.saving.Some? ==> !Compatible(s.saving.value, s.job))
  }

  ghost predicate Inv(s: Sys) {
    if s.exhausted then s.ready && NothingLost(s.alloc, s.tested)
    else if Compatible(s.alloc, s.job) then Live(s)
    else Foreign(s)
  }

  // ----- list lemmas -----

  lemma {:induction false} FilterKeepsAll(s: seq<WorkUnit>, sieve: Sieve)
    requires forall k :: 0 <= k < |s| ==> sieve.Keeps(s[k])
    ensures Filter(s, sieve) == s
  {
    hide Sieve.Keeps;
    if s != [] { FilterKeepsAll(s[1..], sieve); }
  }

  lemma {:induction false} FilterAppend(s: seq<WorkUnit>, t: seq<WorkUnit>, sieve: Sieve)
    ensures Filter(s + t, sieve) == Filter(s, sieve) + Filter(t, sieve)
  {
    hide Sieve.Keeps;
    if s == [] {
      assert s + t == t;
    } else {
      var kept := if sieve.Keeps(s[0]) then [s[0]] else [];
      assert (s + t)[0] == s[0] && (s + t)[1..] == s[1..] + t;
      FilterAppend(s[1..], t, sieve);
      assert kept + (Filter(s[1..], sieve) + Filter(t, sieve)) == (kept + Filter(s[1..], sieve)) + Filter(t, sieve);
    }
  }

  function Without(s: seq<WorkUnit>, k: nat): seq<WorkUnit>
    requires k < |s|
  {
    s[..k] + s[k + 1..]
  }

  /** Compaction after completing unit k of a list of open units removes exactly that unit. */
  lemma FilterDropsOne(s: seq<WorkUnit>, k: nat, done: WorkUnit)
    requires k < |s| && done.status == Complete
    requires forall j :: 0 <= j < |s| ==> s[j].Open()
    ensures Filter(s[k := done], NotComplete) == Without(s, k)
  {
    hide UnitId, Hex;
    hide Filter;
    var before, behind := s[..k], s[k + 1..];
    assert s[k := done] == before + ([done] + behind);
    FilterAppend(before, [done] + behind, NotComplete);
    FilterAppend([done], behind, NotComplete);
    OpenIsKept(before);
    OpenIsKept(behind);
    DoneIsDropped(done);
    assert Filter(s[k := done], NotComplete) == before + ([] + behind);
  }

  lemma DoneIsDropped(done: WorkUnit)
    requires done.status == Complete
    ensures Filter([done], NotComplete) == []
  {}

  lemma OpenIsKept(s: seq<WorkUnit>)
    requires forall j :: 0 <= j < |s| ==> s[j].Open()
    ensures Filter(s, NotComplete) == s
  {
    FilterKeepsAll(s, NotComplete);
  }

  lemma FindBacked(m: Meta, units: seq<WorkUnit>, k: nat)
    requires UnitsOk(m, units) && k < |units|
    ensures Find(units, WithId(units[k].id)) == Some(k)
    ensures units[k].status == InProgress ==> Find(units, RunningWithId(units[k].id)) == Some(k)
  {
    hide UnitId, Hex;
    forall j | 0 <= j < |units| && j != k ensures units[j].id != units[k].id {
      assert if j < k then Apart(units[j], units[k]) else Apart(units[k], units[j]);
    }
  }

  // ----- building groups -----

  lemma SliceBounds(i: nat, count: nat)
    requires i < count
    ensures SliceStart(i, count) <= SliceStart(i + 1, count) <= NONCE_SPACE
  {
    SliceMonotone(i, i + 1, count);
    SliceMonotone(i + 1, count, count);
    SliceEnds(count);
  }

  lemma GroupUnitsAt(job: string, prevhash: string, size: nat, cpuWorkers: nat, generation: nat, kind: Kind,
                     counter: nat, i: nat)
    requires i < |GroupUnits(job, prevhash, size, cpuWorkers, generation, kind, counter)|
    ensures var u := GroupUnits(job, prevhash, size, cpuWorkers, generation, kind, counter)[i];
      && u == NewUnit(job, prevhash, size, LaterGroup(generation, counter, kind, i), u.nonceStart, u.nonceEnd,
        generation)
      && u.nonceStart <= u.nonceEnd <= NONCE_SPACE
  {
    hide UnitId, Hex;
    if kind.Cpu? { SliceBounds(i, AtLeastOne(cpuWorkers)); }
  }

  lemma GroupUnitsApart(job: string, prevhash: string, size: nat, cpuWorkers: nat, generation: nat, kind: Kind,
                        counter: nat, i: nat, j: nat)
    requires i < j < |GroupUnits(job, prevhash, size, cpuWorkers, generation, kind, counter)|
    requires counter < Capacity(size)
    ensures var g := GroupUnits(job, prevhash, size, cpuWorkers, generation, kind, counter);
      Apart(g[i], g[j])
  {
    hide UnitId, Hex, SliceStart;
    SliceMonotone(i + 1, j, AtLeastOne(cpuWorkers));
    DistinctIds(job, size, LaterGroup(generation, counter, Cpu, i), LaterGroup(generation, counter, Cpu, j));
  }

  lemma DistinctIds(job: string, size: nat, o: Origin, p: Origin)
    requires o.Counter() < Capacity(size) && p.Counter() < Capacity(size) && !SameUnit(o, p)
    ensures UnitId(job, size, o) != UnitId(job, size, p)
  {
    hide UnitId;
    if UnitId(job, size, o) == UnitId(job, size, p) { UnitIdInjective(job, size, o, p); }
  }

  /** A group covers every nonce of its extranonce2. */
  lemma GroupCovers(job: string, prevhash: string, size: nat, cpuWorkers: nat, generation: nat, kind: Kind,
                    counter: nat, n: nat)
    requires n < NONCE_SPACE
    ensures Remaining(GroupUnits(job, prevhash, size, cpuWorkers, generation, kind, counter), Hex(counter, 2 * size), n)
  {
    hide UnitId, Hex;
    var g := GroupUnits(job, prevhash, size, cpuWorkers, generation, kind, counter);
    var i := 0;
    if kind.Cpu? {
      var count := AtLeastOne(cpuWorkers);
      SliceEnds(count);
      i := SliceOf(n, count, count);
    }
    assert Covers(g[i], Hex(counter, 2 * size), n);
  }

  lemma RemainingAppend(s: seq<WorkUnit>, t: seq<WorkUnit>, ex: string, n: nat)
    ensures Remaining(s + t, ex, n) <==> Remaining(s, ex, n) || Remaining(t, ex, n)
  {
    if Remaining(s, ex, n) {
      var k :| 0 <= k < |s| && Covers(s[k], ex, n);
      assert Covers((s + t)[k], ex, n);
    }
    if Remaining(t, ex, n) {
      var k :| 0 <= k < |t| && Covers(t[k], ex, n);
      assert Covers((s + t)[|s| + k], ex, n);
    }
    if Remaining(s + t, ex, n) {
      var k :| 0 <= k < |s + t| && Covers((s + t)[k], ex, n);
      if k < |s| { assert Covers(s[k], ex, n); } else { assert Covers(t[k - |s|], ex, n); }
    }
  }

  ghost predicate SamePublished(a: Alloc, b: Alloc) {
    forall ex: string, n: nat :: Published(a, ex, n) <==> Published(b, ex, n)
  }

  function WithGroup(a: Alloc, cpuWorkers: nat, generation: nat, kind: Kind): Alloc {
    var m := a.meta;
    Alloc(a.units + GroupUnits(m.lastJobId, m.lastPrevhash, m.extranonce2Size, cpuWorkers, generation, kind,
      m.nextCounter),
          m.(nextCounter := m.nextCounter + 1))
  }

  /** Appending the group of the next counter keeps units apart and publishes nothing. */
  lemma AppendKeepsGood(a: Alloc, cpuWorkers: nat, generation: nat, kind: Kind)
    requires Good(a) && a.meta.nextCounter < Capacity(a.meta.extranonce2Size)
    ensures Good(WithGroup(a, cpuWorkers, generation, kind))
    ensures SamePublished(a, WithGroup(a, cpuWorkers, generation, kind))
  {
    hide UnitId, Hex;
    var b := WithGroup(a, cpuWorkers, generation, kind);
    forall k | 0 <= k < |b.units| ensures UnitOk(b.meta, b.units[k]) {
      AppendedOk(a, cpuWorkers, generation, kind, k);
    }
    var m := a.meta;
    var g := GroupUnits(m.lastJobId, m.lastPrevhash, m.extranonce2Size, cpuWorkers, generation, kind, m.nextCounter);
    forall i, j | 0 <= i < j < |g| ensures Apart(g[i], g[j]) {
      GroupUnitsApart(m.lastJobId, m.lastPrevhash, m.extranonce2Size, cpuWorkers, generation, kind, m.nextCounter, i,
        j);
    }
    forall j, i | 0 <= j < |a.units| && 0 <= i < |g| ensures Apart(a.units[j], g[i]) {
      FreshFromGroup(m, a.units[j], cpuWorkers, generation, kind, i);
    }
    ApartAppend(a.units, g);
    forall ex: string, n: nat ensures Published(a, ex, n) <==> Published(b, ex, n) {
      GroupPublishes(a, cpuWorkers, generation, kind, ex, n);
    }
  }

  lemma AppendedOk(a: Alloc, cpuWorkers: nat, generation: nat, kind: Kind, k: nat)
    requires Good(a) && a.meta.nextCounter < Capacity(a.meta.extranonce2Size)
    requires k < |WithGroup(a, cpuWorkers, generation, kind).units|
    ensures var b := WithGroup(a, cpuWorkers, generation, kind);
      UnitOk(b.meta, b.units[k])
  {
    hide UnitId, Hex;
    var b := WithGroup(a, cpuWorkers, generation, kind);
    if k < |a.units| {
      assert UnitOk(a.meta, b.units[k]);
      OriginGrows(a.meta, b.units[k]);
    } else {
      var m, i := a.meta, k - |a.units|;
      GroupUnitsAt(m.lastJobId, m.lastPrevhash, m.extranonce2Size, cpuWorkers, generation, kind, m.nextCounter, i);
      assert FromOrigin(b.meta, b.units[k], LaterGroup(generation, m.nextCounter, kind, i));
    }
  }

  lemma ApartAppend(s: seq<WorkUnit>, t: seq<WorkUnit>)
    requires AllApart(s) && AllApart(t)
    requires forall j, i :: 0 <= j < |s| && 0 <= i < |t| ==> Apart(s[j], t[i])
    ensures AllApart(s + t)
  {
    forall j, k | 0 <= j < k < |s + t| ensures Apart((s + t)[j], (s + t)[k]) {
      if k < |s| {
        assert Apart(s[j], s[k]);
      } else if j < |s| {
        assert Apart(s[j], t[k - |s|]);
      } else {
        assert Apart(t[j - |s|], t[k - |s|]);
      }
    }
  }

  lemma FreshFromGroup(m: Meta, u: WorkUnit, cpuWorkers: nat, generation: nat, kind: Kind, i: nat)
    requires UnitOk(m, u) && m.nextCounter < Capacity(m.extranonce2Size)
    requires i < |GroupUnits(m.lastJobId, m.lastPrevhash, m.extranonce2Size, cpuWorkers, generation, kind,
      m.nextCounter)|
    ensures Apart(u, GroupUnits(m.lastJobId, m.lastPrevhash, m.extranonce2Size, cpuWorkers, generation, kind,
      m.nextCounter)[i])
  {
    hide UnitId, Hex;
    GroupUnitsAt(m.lastJobId, m.lastPrevhash, m.extranonce2Size, cpuWorkers, generation, kind, m.nextCounter, i);
    FreshApart(m, u, GroupUnits(m.lastJobId, m.lastPrevhash, m.extranonce2Size, cpuWorkers, generation, kind,
      m.nextCounter)[i],
               LaterGroup(generation, m.nextCounter, kind, i));
  }

  lemma OriginGrows(m: Meta, u: WorkUnit)
    requires UnitOk(m, u)
    ensures UnitOk(m.(nextCounter := m.nextCounter + 1), u)
  {
    hide UnitId, Hex;
    var o :| FromOrigin(m, u, o);
    assert FromOrigin(m.(nextCounter := m.nextCounter + 1), u, o);
  }

  lemma FreshApart(m: Meta, u: WorkUnit, v: WorkUnit, p: Origin)
    requires UnitOk(m, u) && m.nextCounter < Capacity(m.extranonce2Size)
    requires p.Counter() == m.nextCounter
    requires v.id == UnitId(m.lastJobId, m.extranonce2Size, p)
      && v.extranonce2 == Hex(m.nextCounter, 2 * m.extranonce2Size)
    ensures Apart(u, v)
  {
    hide UnitId, Hex;
    var o :| FromOrigin(m, u, o);
    if u.id == v.id { UnitIdInjective(m.lastJobId, m.extranonce2Size, o, p); }
    if u.extranonce2 == v.extranonce2 { EncodeInjective(o.Counter(), m.nextCounter, m.extranonce2Size); }
  }

  lemma GroupPublishes(a: Alloc, cpuWorkers: nat, generation: nat, kind: Kind, ex: string, n: nat)
    requires Good(a) && a.meta.nextCounter < Capacity(a.meta.extranonce2Size)
    ensures Published(a, ex, n) <==> Published(WithGroup(a, cpuWorkers, generation, kind), ex, n)
  {
    hide UnitId, Hex;
    var b := WithGroup(a, cpuWorkers, generation, kind);
    var m := a.meta;
    var size, c := m.extranonce2Size, m.nextCounter;
    var g := GroupUnits(m.lastJobId, m.lastPrevhash, size, cpuWorkers, generation, kind, c);
    RemainingAppend(a.units, g, ex, n);
    if Issued(m, ex) {
      var e: nat :| e < c && ex == Hex(e, 2 * size);
      assert e < b.meta.nextCounter;
      if ex == Hex(c, 2 * size) { EncodeInjective(e, c, size); }
      forall k | 0 <= k < |g| ensures !Covers(g[k], ex, n) {
        GroupUnitsAt(m.lastJobId, m.lastPrevhash, size, cpuWorkers, generation, kind, c, k);
      }
    } else if Issued(b.meta, ex) && n < NONCE_SPACE {
      var e: nat :| e < c + 1 && ex == Hex(e, 2 * size);
      assert e == c;
      GroupCovers(m.lastJobId, m.lastPrevhash, size, cpuWorkers, generation, kind, c, n);
    }
  }

  // ----- changing one unit, or the status of all -----

  predicate SameSlice(u: WorkUnit, v: WorkUnit) {
    && v.id == u.id && v.jobId == u.jobId && v.prevhash == u.prevhash && v.extranonce2 == u.extranonce2
    && v.nonceStart == u.nonceStart && v.nonceEnd == u.nonceEnd && v.worker == u.worker
  }

  lemma SameSliceOk(m: Meta, u: WorkUnit, v: WorkUnit)
    requires UnitOk(m, u) && SameSlice(u, v) && v.Open()
    requires v.nonceStart <= v.nonceNext <= v.nonceEnd && v.hashesTested == v.nonceNext - v.nonceStart
    ensures UnitOk(m, v)
  {
    hide UnitId, Hex;
    var o :| FromOrigin(m, u, o);
    assert FromOrigin(m, v, o);
  }

  /** Replacing unit k by a later version of itself publishes exactly the nonces it moved past. */
  lemma ReplaceGood(a: Alloc, k: nat, v: WorkUnit)
    requires Good(a) && k < |a.units| && SameSlice(a.units[k], v) && v.Open()
    requires a.units[k].nonceNext <= v.nonceNext <= v.nonceEnd && v.hashesTested == v.nonceNext - v.nonceStart
    ensures Good(a.(units := a.units[k := v]))
    ensures forall ex: string, n: nat :: Remaining(a.units[k := v], ex, n) <==>
      Remaining(a.units, ex, n) && !(ex == v.extranonce2 && a.units[k].nonceNext <= n < v.nonceNext)
  {
    hide UnitId, Hex;
    var u := a.units[k];
    var after := a.units[k := v];
    assert UnitOk(a.meta, u);
    SameSliceOk(a.meta, u, v);
    forall i, j | 0 <= i < j < |after| ensures Apart(after[i], after[j]) {
      assert Apart(a.units[i], a.units[j]);
    }
    forall ex: string, n: nat
      ensures Remaining(after, ex, n) <==>
        Remaining(a.units, ex, n) && !(ex == v.extranonce2 && u.nonceNext <= n < v.nonceNext)
    {
      ReplaceRemaining(a, k, v, ex, n);
    }
  }

  lemma ReplaceRemaining(a: Alloc, k: nat, v: WorkUnit, ex: string, n: nat)
    requires Good(a) && k < |a.units| && SameSlice(a.units[k], v) && v.Open()
    requires a.units[k].nonceNext <= v.nonceNext <= v.nonceEnd
    ensures Remaining(a.units[k := v], ex, n) <==>
      Remaining(a.units, ex, n) && !(ex == v.extranonce2 && a.units[k].nonceNext <= n < v.nonceNext)
  {
    hide UnitId, Hex;
    var u := a.units[k];
    var after := a.units[k := v];
    assert UnitOk(a.meta, u);
    if Remaining(after, ex, n) {
      var j :| 0 <= j < |after| && Covers(after[j], ex, n);
      assert Covers(a.units[j], ex, n);
      if j != k {
        assert UnitOk(a.meta, a.units[j]);
        assert if j < k then Apart(a.units[j], u) else Apart(u, a.units[j]);
      }
    }
    if Remaining(a.units, ex, n) && !(ex == v.extranonce2 && u.nonceNext <= n < v.nonceNext) {
      var j :| 0 <= j < |a.units| && Covers(a.units[j], ex, n);
      assert Covers(after[j], ex, n);
    }
  }

  lemma ApplyKeepsGood(a: Alloc, change: Change)
    requires Good(a) && !change.MakeStale?
    ensures Good(a.(units := Apply(a.units, change)))
    ensures SamePublished(a, a.(units := Apply(a.units, change)))
    ensures HasCpu(a.units) ==> HasCpu(Apply(a.units, change))
  {
    hide UnitId, Hex;
    ApplyKeepsUnits(a, change);
    assert forall k :: 0 <= k < |a.units| ==> UnitOk(a.meta, a.units[k]);
    forall ex: string, n: nat ensures Remaining(Apply(a.units, change), ex, n) <==> Remaining(a.units, ex, n) {
      ApplyKeepsRemaining(a.units, change, ex, n);
    }
    if HasCpu(a.units) {
      var k :| 0 <= k < |a.units| && a.units[k].worker == Cpu;
      assert Apply(a.units, change)[k].worker == Cpu;
    }
  }

  lemma ApplyKeepsUnits(a: Alloc, change: Change)
    requires Good(a) && !change.MakeStale?
    ensures UnitsOk(a.meta, Apply(a.units, change))
  {
    hide UnitId, Hex;
    var after := Apply(a.units, change);
    forall k | 0 <= k < |after| ensures UnitOk(a.meta, after[k]) {
      assert UnitOk(a.meta, a.units[k]);
      SameSliceOk(a.meta, a.units[k], after[k]);
    }
    ApplyKeepsApart(a.units, change);
  }

  lemma ApplyKeepsApart(units: seq<WorkUnit>, change: Change)
    requires AllApart(units)
    ensures AllApart(Apply(units, change))
  {
    var after := Apply(units, change);
    forall i, j | 0 <= i < j < |after| ensures Apart(after[i], after[j]) {
      assert Apart(units[i], units[j]);
    }
  }

  lemma ApplyKeepsRemaining(units: seq<WorkUnit>, change: Change, ex: string, n: nat)
    requires !change.MakeStale? && forall k :: 0 <= k < |units| ==> units[k].Open()
    ensures Remaining(Apply(units, change), ex, n) <==> Remaining(units, ex, n)
  {
    var after := Apply(units, change);
    if Remaining(after, ex, n) {
      var k :| 0 <= k < |after| && Covers(after[k], ex, n);
      assert Covers(units[k], ex, n);
    }
    if Remaining(units, ex, n) {
      var k :| 0 <= k < |units| && Covers(units[k], ex, n);
      assert Covers(after[k], ex, n);
    }
  }

  lemma DropGood(a: Alloc, k: nat)
    requires Good(a) && k < |a.units| && a.units[k].nonceNext == a.units[k].nonceEnd
    ensures Good(a.(units := Without(a.units, k)))
    ensures SamePublished(a, a.(units := Without(a.units, k)))
  {
    hide UnitId, Hex;
    DropKeepsUnits(a, k);
    forall ex: string, n: nat ensures Remaining(Without(a.units, k), ex, n) <==> Remaining(a.units, ex, n) {
      DropKeepsRemaining(a.units, k, ex, n);
    }
  }

  lemma DropKeepsUnits(a: Alloc, k: nat)
    requires Good(a) && k < |a.units|
    ensures UnitsOk(a.meta, Without(a.units, k))
  {
    hide UnitId, Hex;
    var rest := Without(a.units, k);
    forall j | 0 <= j < |rest| ensures UnitOk(a.meta, rest[j]) {
      assert rest[j] == a.units[if j < k then j else j + 1];
    }
    DropKeepsApart(a.units, k);
  }

  lemma DropKeepsApart(units: seq<WorkUnit>, k: nat)
    requires AllApart(units) && k < |units|
    ensures AllApart(Without(units, k))
  {
    var rest := Without(units, k);
    forall i, j | 0 <= i < j < |rest| ensures Apart(rest[i], rest[j]) {
      assert Apart(units[if i < k then i else i + 1], units[if j < k then j else j + 1]);
    }
  }

  lemma DropKeepsRemaining(units: seq<WorkUnit>, k: nat, ex: string, n: nat)
    requires k < |units| && units[k].nonceNext >= units[k].nonceEnd
    ensures Remaining(Without(units, k), ex, n) <==> Remaining(units, ex, n)
  {
    var rest := Without(units, k);
    if Remaining(rest, ex, n) {
      var j :| 0 <= j < |rest| && Covers(rest[j], ex, n);
      assert Covers(units[if j < k then j else j + 1], ex, n);
    }
    if Remaining(units, ex, n) {
      var j :| 0 <= j < |units| && Covers(units[j], ex, n);
      assert j != k;
      assert Covers(rest[if j < k then j else j - 1], ex, n);
    }
  }
}
