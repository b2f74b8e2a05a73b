// Every run keeps the invariant of MiningRuns, and what follows from it: nothing is lost, no two
// workers share a nonce, and a crash repeats only what the checkpoint file had not recorded.
module MiningSafety {
  import opened Arith
  import opened WorkUnits
  import opened WorkAllocation
  import opened MiningRuns

  // ----- the first layout -----

  lemma InitialUnitsAt(job: Job, cpuWorkers: nat, gpu: bool, generation: nat, i: nat)
    requires job.extranonce2Size > 0 && i < |InitialUnits(job, cpuWorkers, gpu, generation)|
    ensures var u := InitialUnits(job, cpuWorkers, gpu, generation)[i];
      var count := AtLeastOne(cpuWorkers);
      && u == NewUnit(job.id, job.prevhash, job.extranonce2Size,
                      if i < count then FirstLayout(generation, Cpu, i) else FirstLayout(generation, Gpu, 0),
                      u.nonceStart, u.nonceEnd, generation)
      && u.nonceStart <= u.nonceEnd <= NONCE_SPACE
      && (i < count ==> u.nonceStart == SliceStart(i, count) && u.nonceEnd == SliceStart(i + 1, count))
      && (i >= count ==> gpu && i == count && u.nonceStart == 0 && u.nonceEnd == NONCE_SPACE)
  {
    hide UnitId, Hex;
    var count := AtLeastOne(cpuWorkers);
    if i < count { SliceBounds(i, count); }
  }

  lemma InitialUnitsApart(job: Job, cpuWorkers: nat, gpu: bool, generation: nat, i: nat, j: nat)
    requires 1 <= job.extranonce2Size <= 8
    requires i < j < |InitialUnits(job, cpuWorkers, gpu, generation)|
    ensures Apart(InitialUnits(job, cpuWorkers, gpu, generation)[i], InitialUnits(job, cpuWorkers, gpu, generation)[j])
  {
    hide UnitId, Hex;
    var count, size := AtLeastOne(cpuWorkers), job.extranonce2Size;
    var u, v := InitialUnits(job, cpuWorkers, gpu, generation)[i], InitialUnits(job, cpuWorkers, gpu, generation)[j];
    InitialUnitsAt(job, cpuWorkers, gpu, generation, i);
    InitialUnitsAt(job, cpuWorkers, gpu, generation, j);
    CapacityAtLeast(size);
    var o, p := FirstLayout(generation, Cpu, i), if j < count then FirstLayout(generation, Cpu, j)
      else FirstLayout(generation, Gpu, 0);
    DistinctIds(job.id, size, o, p);
    if j < count { SliceMonotone(i + 1, j, count); }
    else if u.extranonce2 == v.extranonce2 { EncodeInjective(0, 1, size); }
  }

  lemma CapacityAtLeast(size: nat)
    requires size > 0
    ensures Capacity(size) >= 256
  {
    PowPositive(256, size - 1);
  }

  lemma InitialCovers(job: Job, cpuWorkers: nat, gpu: bool, generation: nat, e: nat, n: nat)
    requires 1 <= job.extranonce2Size && e < (if gpu then 2 else 1) && n < NONCE_SPACE
    ensures Remaining(InitialUnits(job, cpuWorkers, gpu, generation), Hex(e, 2 * job.extranonce2Size), n)
  {
    hide UnitId, Hex;
    var count := AtLeastOne(cpuWorkers);
    var units := InitialUnits(job, cpuWorkers, gpu, generation);
    var i := count;
    if e == 0 {
      SliceEnds(count);
      i := SliceOf(n, count, count);
    }
    InitialUnitsAt(job, cpuWorkers, gpu, generation, i);
    assert Covers(units[i], Hex(e, 2 * job.extranonce2Size), n);
  }

  lemma RestartGood(job: Job, m: Meta, cpuWorkers: nat, gpu: bool, generation: nat)
    requires 1 <= job.extranonce2Size <= 8
    ensures var a := Alloc(InitialUnits(job, cpuWorkers, gpu, generation),
      Described(m, job, cpuWorkers, gpu, if gpu then 2 else 1));
      && GoodFor(job, a)
      && forall ex: string, n: nat :: !Published(a, ex, n)
  {
    hide UnitId, Hex, InitialUnits;
    var meta := Described(m, job, cpuWorkers, gpu, if gpu then 2 else 1);
    var a := Alloc(InitialUnits(job, cpuWorkers, gpu, generation), meta);
    CapacityAtLeast(job.extranonce2Size);
    InitialUnitsOk(job, m, cpuWorkers, gpu, generation);
    forall ex: string, n: nat ensures !Published(a, ex, n) {
      if Issued(meta, ex) && n < NONCE_SPACE {
        var e: nat :| e < meta.nextCounter && ex == Hex(e, 2 * meta.extranonce2Size);
        InitialCovers(job, cpuWorkers, gpu, generation, e, n);
      }
    }
  }

  lemma InitialUnitsOk(job: Job, m: Meta, cpuWorkers: nat, gpu: bool, generation: nat)
    requires 1 <= job.extranonce2Size <= 8
    ensures UnitsOk(Described(m, job, cpuWorkers, gpu, if gpu then 2 else 1),
      InitialUnits(job, cpuWorkers, gpu, generation))
    ensures HasCpu(InitialUnits(job, cpuWorkers, gpu, generation))
  {
    hide UnitId, Hex, InitialUnits;
    var units := InitialUnits(job, cpuWorkers, gpu, generation);
    var meta := Described(m, job, cpuWorkers, gpu, if gpu then 2 else 1);
    InitialCount(job, cpuWorkers, gpu, generation);
    forall i | 0 <= i < |units| ensures UnitOk(meta, units[i]) {
      InitialUnitsAt(job, cpuWorkers, gpu, generation, i);
      assert FromOrigin(meta, units[i],
        if i < AtLeastOne(cpuWorkers) then FirstLayout(generation, Cpu, i) else FirstLayout(generation, Gpu, 0));
    }
    forall i, j | 0 <= i < j < |units| ensures Apart(units[i], units[j]) {
      InitialUnitsApart(job, cpuWorkers, gpu, generation, i, j);
    }
    InitialUnitsAt(job, cpuWorkers, gpu, generation, 0);
    assert units[0].worker == Cpu;
  }

  lemma InitialCount(job: Job, cpuWorkers: nat, gpu: bool, generation: nat)
    ensures |InitialUnits(job, cpuWorkers, gpu, generation)| == AtLeastOne(cpuWorkers) + if gpu then 1 else 0
  {}

  lemma InitialInv(s: Sys)
    requires Initial(s)
    ensures Inv(s)
  {
    hide UnitId, Hex, Good, Published, HandOk, InHand, Prepare, InitialUnits;
    var a, cpuWorkers, gpu, generation :| StartedFrom(s, a, cpuWorkers, gpu, generation);
    StartedIsRestart(a, s.job, cpuWorkers, gpu, generation);
    RestartGood(s.job, a.meta, cpuWorkers, gpu, generation);
    LiveIsInv(s);
  }

  lemma StartedIsRestart(a: Alloc, job: Job, cpuWorkers: nat, gpu: bool, generation: nat)
    requires 1 <= job.extranonce2Size
    requires Prepare(a, true, job, cpuWorkers, gpu, generation).1 == Started
    ensures Prepare(a, true, job, cpuWorkers, gpu, generation).0
         == Alloc(InitialUnits(job, cpuWorkers, gpu, generation),
           Described(a.meta, job, cpuWorkers, gpu, if gpu then 2 else 1))
  {
    hide UnitId, Hex;
    assert [] + InitialUnits(job, cpuWorkers, gpu, generation) == InitialUnits(job, cpuWorkers, gpu, generation);
  }

  // ----- facts shared by the steps -----

  lemma FilesStay(s: Sys, t: Sys)
    requires FilesOk(s) && PublishedKept(s.alloc, t.alloc)
    requires t.job == s.job && t.stored == s.stored && t.saving == s.saving
    ensures FilesOk(t)
  {
    hide Published, GoodFor, Compatible;
  }

  /** Units in order are units that prepare resumes. */
  lemma GoodIsCompatible(job: Job, a: Alloc)
    requires GoodFor(job, a)
    ensures Compatible(a, job)
  {
    hide UnitId, Hex, Compatible;
    var c :| 0 <= c < |a.units| && a.units[c].worker == Cpu;
    assert UnitOk(a.meta, a.units[c]);
    CompatibleBy(a, job, c);
  }

  lemma LiveIsInv(s: Sys)
    requires Live(s) && !s.exhausted
    ensures Inv(s) && Compatible(s.alloc, s.job)
  {
    hide Live, Foreign;
    LiveIsGood(s);
    GoodIsCompatible(s.job, s.alloc);
  }

  lemma LiveIsGood(s: Sys)
    requires Live(s)
    ensures GoodFor(s.job, s.alloc)
  {}

  lemma AccountsStay(a: Alloc, b: Alloc, held: map<nat, Held>, held': map<nat, Held>, tested: set<Pair>,
                     lost: set<Pair>)
    requires NothingLost(a, tested) && Accounted(a, held, tested, lost)
    requires SamePublished(a, b)
    requires forall ex: string, n: nat :: InHand(held, ex, n) ==> InHand(held', ex, n)
    ensures NothingLost(b, tested) && Accounted(b, held', tested, lost)
  {}

  /** A unit whose cursor stays put publishes nothing. */
  lemma StatusChange(job: Job, a: Alloc, k: nat, v: WorkUnit)
    requires GoodFor(job, a) && k < |a.units| && SameSlice(a.units[k], v) && v.Open()
    requires v.nonceNext == a.units[k].nonceNext && v.hashesTested == a.units[k].hashesTested
    ensures GoodFor(job, a.(units := a.units[k := v])) && SamePublished(a, a.(units := a.units[k := v]))
  {
    assert UnitOk(a.meta, a.units[k]);
    ReplaceGood(a, k, v);
    CpuStays(a.units, k, v);
  }

  lemma CpuStays(units: seq<WorkUnit>, k: nat, v: WorkUnit)
    requires HasCpu(units) && k < |units| && v.worker == units[k].worker
    ensures HasCpu(units[k := v])
  {
    var c :| 0 <= c < |units| && units[c].worker == Cpu;
    assert units[k := v][c].worker == Cpu;
  }

  /** A worker holding another unit does not see a change of unit k. */
  lemma HandStays(units: seq<WorkUnit>, k: nat, v: WorkUnit, h: Held, tested: set<Pair>, tested': set<Pair>)
    requires HandOk(units, h, tested) && tested <= tested'
    requires k < |units| && v.id == units[k].id && h.id != v.id
    ensures HandOk(units[k := v], h, tested')
  {
    var i :| Backed(units, h, i);
    assert Backed(units[k := v], h, i);
  }

  lemma FindHeld(a: Alloc, held: map<nat, Held>, tested: set<Pair>, w: nat) returns (k: nat)
    requires Good(a) && HandsOk(a.units, held, tested) && w in held
    ensures Backed(a.units, held[w], k)
    ensures Find(a.units, WithId(held[w].id)) == Some(k)
    ensures Find(a.units, RunningWithId(held[w].id)) == Some(k)
    ensures UnitOk(a.meta, a.units[k])
  {
    hide UnitId, Hex;
    assert HandOk(a.units, held[w], tested);
    k :| Backed(a.units, held[w], k);
    FindBacked(a.meta, a.units, k);
  }

  lemma InHandUpdate(held: map<nat, Held>, w: nat, h: Held)
    requires w in held ==> forall ex: string, n: nat :: Ahead(held[w], ex, n) ==> Ahead(h, ex, n)
    ensures forall ex: string, n: nat :: InHand(held, ex, n) ==> InHand(held[w := h], ex, n)
  {
    forall ex: string, n: nat | InHand(held, ex, n) ensures InHand(held[w := h], ex, n) {
      var x :| x in held && Ahead(held[x], ex, n);
      assert x in held[w := h] && Ahead(held[w := h][x], ex, n);
    }
  }

  lemma InHandRemove(held: map<nat, Held>, w: nat)
    requires w in held && held[w].pending == 0
    ensures forall ex: string, n: nat :: InHand(held, ex, n) ==> InHand(held - {w}, ex, n)
  {
    forall ex: string, n: nat | InHand(held, ex, n) ensures InHand(held - {w}, ex, n) {
      var x :| x in held && Ahead(held[x], ex, n);
      assert x in held - {w} && Ahead((held - {w})[x], ex, n);
    }
  }

  // ----- the steps of a worker -----

  lemma TakeHands(units: seq<WorkUnit>, k: nat, v: WorkUnit, held: map<nat, Held>, w: nat, h: Held, tested: set<Pair>)
    requires AllApart(units) && HandsOk(units, held, tested)
    requires k < |units| && units[k].status == Pending && v == units[k].(status := InProgress)
    requires w !in held && v.nonceNext <= v.nonceEnd
    requires h == Held(v.id, v.worker, v.extranonce2, v.nonceEnd, v.nonceNext, 0)
    ensures HandsOk(units[k := v], held[w := h], tested)
  {
    forall x | x in held ensures held[x].id != v.id && HandOk(units[k := v], held[x], tested) {
      assert HandOk(units, held[x], tested);
      var i: nat :| Backed(units, held[x], i);
      assert if i < k then Apart(units[i], units[k]) else i == k || Apart(units[k], units[i]);
      HandStays(units, k, v, held[x], tested, tested);
    }
    assert Backed(units[k := v], h, k);
  }

  lemma TakeKeepsLive(s: Sys, w: nat, kind: Kind)
    requires Live(s) && s.ready && w !in s.held && Acquire(s.alloc, kind).1.Some?
    ensures Live(Taken(s, w, kind)) && Taken(s, w, kind).exhausted == s.exhausted
  {
    hide UnitId, Hex, NothingLost, Accounted, FilesOk, HandsOk;
    var k := Find(s.alloc.units, Acquirable(kind)).value;
    var v := s.alloc.units[k].(status := InProgress);
    var h := Held(v.id, v.worker, v.extranonce2, v.nonceEnd, v.nonceNext, 0);
    var b := s.alloc.(units := s.alloc.units[k := v]);
    StatusChange(s.job, s.alloc, k, v);
    FilesStay(s, Taken(s, w, kind));
    TakeHands(s.alloc.units, k, v, s.held, w, h, s.tested);
    InHandUpdate(s.held, w, h);
    AccountsStay(s.alloc, b, s.held, s.held[w := h], s.tested, s.lost);
  }

  lemma HashKeepsLive(s: Sys, w: nat)
    requires Live(s) && MayHash(s, w)
    ensures Live(Hashed(s, w)) && Hashed(s, w).exhausted == s.exhausted
  {
    hide UnitId, Hex, NothingLost, Accounted, FilesOk, HandsOk, Good;
    PendingBehind(s.alloc.units, s.held, w, s.tested);
    HashHands(s.alloc.units, s.held, w, s.tested);
    HashAccounts(s.alloc, s.held, w, s.tested, s.lost);
    FilesStay(s, Hashed(s, w));
  }

  lemma PendingBehind(units: seq<WorkUnit>, held: map<nat, Held>, w: nat, tested: set<Pair>)
    requires HandsOk(units, held, tested) && w in held
    ensures held[w].pending <= held[w].cursor
  {
    assert HandOk(units, held[w], tested);
  }

  lemma HashAccounts(a: Alloc, held: map<nat, Held>, w: nat, tested: set<Pair>, lost: set<Pair>)
    requires NothingLost(a, tested) && Accounted(a, held, tested, lost) && w in held
    requires held[w].pending <= held[w].cursor
    ensures var held', p := held[w := OneFurther(held[w])], NextPair(held[w]);
      NothingLost(a, tested + {p}) && Accounted(a, held', tested + {p}, lost - {p})
  {
    var held' := held[w := OneFurther(held[w])];
    InHandUpdate(held, w, held'[w]);
    assert w in held' && Ahead(held'[w], held[w].extranonce2, held[w].cursor);
    assert InHand(held', held[w].extranonce2, held[w].cursor);
  }

  lemma HashHands(units: seq<WorkUnit>, held: map<nat, Held>, w: nat, tested: set<Pair>)
    requires HandsOk(units, held, tested) && w in held && held[w].cursor < held[w].nonceEnd && HasRoom(held[w])
    ensures HandsOk(units, held[w := OneFurther(held[w])], tested + {NextPair(held[w])})
  {
    hide UnitId, Hex;
    var held' := held[w := OneFurther(held[w])];
    var tested' := tested + {NextPair(held[w])};
    forall x | x in held' ensures HandOk(units, held'[x], tested') {
      assert HandOk(units, held[x], tested);
      var k :| Backed(units, held[x], k);
      assert Backed(units, held'[x], k);
    }
  }

  lemma PublishKeepsLive(s: Sys, w: nat, best: string, bestNonce: Option<nat>)
    requires Live(s) && MayPublish(s, w)
    ensures Live(PublishedBy(s, w, best, bestNonce)) && PublishedBy(s, w, best, bestNonce).exhausted == s.exhausted
  {
    hide UnitId, Hex, NothingLost, Accounted, FilesOk, HandsOk, Good;
    var k := FindHeld(s.alloc, s.held, s.tested, w);
    var v := Progressed(s.alloc.units[k], s.held[w].cursor, s.held[w].pending, best, bestNonce);
    PublishAlloc(s, w, k, v);
    FilesStay(s, PublishedBy(s, w, best, bestNonce));
    PublishHands(s.alloc.units, k, v, s.held, w, s.tested);
  }

  lemma PublishAlloc(s: Sys, w: nat, k: nat, v: WorkUnit)
    requires Live(s) && w in s.held && Backed(s.alloc.units, s.held[w], k) && UnitOk(s.alloc.meta, s.alloc.units[k])
    requires SameSlice(s.alloc.units[k], v) && v.Open() && v.nonceNext == s.held[w].cursor
    requires v.hashesTested == s.alloc.units[k].hashesTested + s.held[w].pending
    ensures var b := s.alloc.(units := s.alloc.units[k := v]);
      && GoodFor(s.job, b) && PublishedKept(s.alloc, b)
      && NothingLost(b, s.tested) && Accounted(b, s.held[w := s.held[w].(pending := 0)], s.tested, s.lost)
  {
    hide UnitId, Hex;
    var b := s.alloc.(units := s.alloc.units[k := v]);
    ReplaceGood(s.alloc, k, v);
    CpuStays(s.alloc.units, k, v);
    PublishPublishes(s.alloc, b, s.held, w, k, v, s.tested, s.lost);
  }

  lemma PublishHands(units: seq<WorkUnit>, k: nat, v: WorkUnit, held: map<nat, Held>, w: nat, tested: set<Pair>)
    requires HandsOk(units, held, tested) && w in held && Backed(units, held[w], k)
    requires SameSlice(units[k], v) && v.status == InProgress && v.nonceNext == held[w].cursor
    ensures HandsOk(units[k := v], held[w := held[w].(pending := 0)], tested)
  {
    var held' := held[w := held[w].(pending := 0)];
    forall x | x in held' ensures HandOk(units[k := v], held'[x], tested) {
      if x == w { assert Backed(units[k := v], held'[w], k); }
      else { assert HandOk(units, held[x], tested); HandStays(units, k, v, held[x], tested, tested); }
    }
  }

  lemma PublishPublishes(a: Alloc, b: Alloc, held: map<nat, Held>, w: nat, k: nat, v: WorkUnit, tested: set<Pair>,
                         lost: set<Pair>)
    requires NothingLost(a, tested) && Accounted(a, held, tested, lost) && HandsOk(a.units, held, tested)
    requires w in held && Backed(a.units, held[w], k) && UnitOk(a.meta, a.units[k])
    requires b == a.(units := a.units[k := v]) && v.extranonce2 == held[w].extranonce2 && v.nonceNext == held[w].cursor
    requires forall ex: string, n: nat :: Remaining(b.units, ex, n) <==>
      Remaining(a.units, ex, n) && !(ex == v.extranonce2 && a.units[k].nonceNext <= n < v.nonceNext)
    ensures NothingLost(b, tested) && PublishedKept(a, b)
    ensures Accounted(b, held[w := held[w].(pending := 0)], tested, lost)
  {
    hide UnitId, Hex;
    var h, u := held[w], a.units[k];
    var held' := held[w := h.(pending := 0)];
    assert HandOk(a.units, h, tested);
    assert Issued(a.meta, u.extranonce2) by {
      var o :| FromOrigin(a.meta, u, o);
      assert u.extranonce2 == Hex(o.Counter(), 2 * a.meta.extranonce2Size);
    }
    forall p | p in tested && InHand(held, p.0, p.1) ensures Published(b, p.0, p.1) || InHand(held', p.0, p.1) {
      var x :| x in held && Ahead(held[x], p.0, p.1);
      if x != w { assert x in held' && Ahead(held'[x], p.0, p.1); }
    }
  }

  lemma GiveBackKeepsLive(s: Sys, w: nat)
    requires Live(s) && MayGiveBack(s, w)
    ensures Live(GivenBack(s, w)) && GivenBack(s, w).exhausted == s.exhausted
  {
    hide UnitId, Hex, NothingLost, Accounted, FilesOk, HandsOk, Good;
    var k := FindHeld(s.alloc, s.held, s.tested, w);
    var v := s.alloc.units[k].(status := Pending);
    var b := s.alloc.(units := s.alloc.units[k := v]);
    StatusChange(s.job, s.alloc, k, v);
    FilesStay(s, GivenBack(s, w));
    GiveBackHands(s.alloc.units, k, v, s.held, w, s.tested);
    InHandRemove(s.held, w);
    AccountsStay(s.alloc, b, s.held, s.held - {w}, s.tested, s.lost);
  }

  lemma GiveBackHands(units: seq<WorkUnit>, k: nat, v: WorkUnit, held: map<nat, Held>, w: nat, tested: set<Pair>)
    requires HandsOk(units, held, tested) && w in held && k < |units|
    requires units[k].id == held[w].id && v.id == units[k].id
    ensures HandsOk(units[k := v], held - {w}, tested)
  {
    forall x | x in held - {w} ensures HandOk(units[k := v], (held - {w})[x], tested) {
      assert HandOk(units, held[x], tested);
      HandStays(units, k, v, held[x], tested, tested);
    }
  }

  // ----- completing a unit -----

  lemma GroupStaysOpen(job: string, prevhash: string, size: nat, cpuWorkers: nat, generation: nat, kind: Kind,
                       counter: nat)
    ensures var g := GroupUnits(job, prevhash, size, cpuWorkers, generation, kind, counter);
      && Filter(g, NotComplete) == g && |g| > 0 && g[0].worker == kind
  {
    hide UnitId, Hex;
    var g := GroupUnits(job, prevhash, size, cpuWorkers, generation, kind, counter);
    forall i | 0 <= i < |g| ensures NotComplete.Keeps(g[i]) {
      GroupUnitsAt(job, prevhash, size, cpuWorkers, generation, kind, counter, i);
    }
    FilterKeepsAll(g, NotComplete);
  }

  ghost predicate Plain(m: Meta, u: WorkUnit) {
    u.jobId == m.lastJobId && u.prevhash == m.lastPrevhash && u.Open()
  }

  lemma GoodIsPlain(a: Alloc)
    requires Good(a)
    ensures forall j :: 0 <= j < |a.units| ==> Plain(a.meta, a.units[j])
  {
    forall j | 0 <= j < |a.units| ensures Plain(a.meta, a.units[j]) {
      assert UnitOk(a.meta, a.units[j]);
    }
  }

  lemma EncodeLive(counter: nat, size: nat)
    requires 1 <= size <= 8 && counter < U64
    ensures EncodeExtranonce2(counter, size)
         == if counter < Capacity(size) then Text(Hex(counter, 2 * size)) else Failed(CounterExhausted)
  {
    CapacityOfEight();
  }

  predicate GroupOpen(a: Alloc, k: nat)
    requires k < |a.units|
  {
    HasOpenInGeneration(a.units[k := Finished(a.units[k])], a.units[k].jobId, a.units[k].worker, a.units[k].generation)
  }

  /** What completing the exhausted unit k does to the list, in each of its three outcomes. */
  lemma CompleteEffect(a: Alloc, k: nat)
    requires 1 <= a.meta.extranonce2Size <= 8 && forall j :: 0 <= j < |a.units| ==> Plain(a.meta, a.units[j])
    requires CounterFits(a) && k < |a.units| && Find(a.units, WithId(a.units[k].id)) == Some(k)
    ensures var (b, outcome) := CompleteUnit(a, true, a.units[k].id);
      var rest := a.(units := Without(a.units, k));
      if GroupOpen(a, k) then b == rest && outcome == Completed
      else if a.meta.nextCounter < Capacity(a.meta.extranonce2Size)
      then b == WithGroup(rest, a.meta.cpuWorkers, a.units[k].generation, a.units[k].worker) && outcome == Completed
      else b == a.(units := a.units[k := Finished(a.units[k])]) && outcome == CompleteFailed(CounterExhausted)
  {
    hide UnitId, Hex;
    var u, m := a.units[k], a.meta;
    assert Plain(m, u);
    FilterDropsOne(a.units, k, Finished(u));
    EncodeLive(m.nextCounter, m.extranonce2Size);
    var g := GroupUnits(m.lastJobId, m.lastPrevhash, m.extranonce2Size, m.cpuWorkers, u.generation, u.worker,
      m.nextCounter);
    FilterWithGroup(a.units[k := Finished(u)], m, m.cpuWorkers, u.generation, u.worker);
  }

  lemma FilterWithGroup(units: seq<WorkUnit>, m: Meta, cpuWorkers: nat, generation: nat, kind: Kind)
    ensures var g := GroupUnits(m.lastJobId, m.lastPrevhash, m.extranonce2Size, cpuWorkers, generation, kind,
      m.nextCounter);
      Filter(units + g, NotComplete) == Filter(units, NotComplete) + g
  {
    hide UnitId, Hex;
    var g := GroupUnits(m.lastJobId, m.lastPrevhash, m.extranonce2Size, cpuWorkers, generation, kind, m.nextCounter);
    GroupStaysOpen(m.lastJobId, m.lastPrevhash, m.extranonce2Size, cpuWorkers, generation, kind, m.nextCounter);
    FilterAppend(units, g, NotComplete);
  }

  lemma CompleteAlloc(job: Job, a: Alloc, k: nat)
    requires GoodFor(job, a) && CounterFits(a) && k < |a.units| && Find(a.units, WithId(a.units[k].id)) == Some(k)
    requires a.units[k].nonceNext == a.units[k].nonceEnd
    ensures var (b, outcome) := CompleteUnit(a, true, a.units[k].id);
      && SamePublished(a, b)
      && (!outcome.CompleteFailed? ==> GoodFor(job, b))
  {
    hide UnitId, Hex;
    var u := a.units[k];
    var rest := a.(units := Without(a.units, k));
    GoodIsPlain(a);
    CompleteEffect(a, k);
    DropGood(a, k);
    if GroupOpen(a, k) {
      CpuLeft(a.units, k);
    } else if a.meta.nextCounter < Capacity(a.meta.extranonce2Size) {
      AppendKeepsGood(rest, a.meta.cpuWorkers, u.generation, u.worker);
      CpuAppended(a, k);
    } else {
      forall ex: string, n: nat ensures Remaining(a.units[k := Finished(u)], ex, n) <==> Remaining(a.units, ex, n) {
        FinishRemaining(a.units, k, ex, n);
      }
    }
  }

  lemma FinishRemaining(units: seq<WorkUnit>, k: nat, ex: string, n: nat)
    requires k < |units| && units[k].nonceNext == units[k].nonceEnd
    ensures Remaining(units[k := Finished(units[k])], ex, n) <==> Remaining(units, ex, n)
  {
    var after := units[k := Finished(units[k])];
    if Remaining(after, ex, n) {
      var j :| 0 <= j < |after| && Covers(after[j], ex, n);
      assert Covers(units[j], ex, n);
    }
    if Remaining(units, ex, n) {
      var j :| 0 <= j < |units| && Covers(units[j], ex, n);
      assert Covers(after[j], ex, n);
    }
  }

  lemma CpuLeft(units: seq<WorkUnit>, k: nat)
    requires HasCpu(units) && k < |units|
    requires HasOpenInGeneration(units[k := Finished(units[k])], units[k].jobId, units[k].worker, units[k].generation)
    ensures HasCpu(Without(units, k))
  {
    hide UnitId, Hex;
    var after, rest := units[k := Finished(units[k])], Without(units, k);
    var v :| v in after && v.worker == units[k].worker && v.Open();
    var j :| 0 <= j < |after| && after[j] == v;
    assert j != k;
    assert rest[if j < k then j else j - 1] == v;
    var c :| 0 <= c < |units| && units[c].worker == Cpu;
    if c != k { assert rest[if c < k then c else c - 1] == units[c]; }
  }

  lemma CpuAppended(a: Alloc, k: nat)
    requires HasCpu(a.units) && k < |a.units|
    ensures HasCpu(WithGroup(a.(units := Without(a.units, k)), a.meta.cpuWorkers, a.units[k].generation,
      a.units[k].worker).units)
  {
    hide UnitId, Hex;
    var u, m := a.units[k], a.meta;
    var rest := Without(a.units, k);
    var b := WithGroup(a.(units := rest), m.cpuWorkers, u.generation, u.worker);
    GroupStaysOpen(m.lastJobId, m.lastPrevhash, m.extranonce2Size, m.cpuWorkers, u.generation, u.worker, m.nextCounter);
    var c :| 0 <= c < |a.units| && a.units[c].worker == Cpu;
    if c == k {
      assert b.units[|rest|].worker == Cpu;
    } else {
      assert rest[if c < k then c else c - 1] == a.units[c];
      assert b.units[if c < k then c else c - 1].worker == Cpu;
    }
  }

  /** Removing the unit of w, and appending units, leaves the other workers' units in the list. */
  lemma FinishHands(units: seq<WorkUnit>, k: nat, more: seq<WorkUnit>, held: map<nat, Held>, w: nat, tested: set<Pair>)
    requires HandsOk(units, held, tested) && w in held && k < |units| && units[k].id == held[w].id
    ensures HandsOk(Without(units, k) + more, held - {w}, tested)
  {
    var after := Without(units, k) + more;
    forall x | x in held - {w} ensures HandOk(after, (held - {w})[x], tested) {
      assert HandOk(units, held[x], tested);
      var i: nat :| Backed(units, held[x], i);
      assert i != k;
      assert Backed(after, held[x], if i < k then i else i - 1);
    }
  }

  lemma FinishKeepsLive(s: Sys, w: nat)
    requires Live(s) && MayFinish(s, w)
    ensures NothingLost(FinishedBy(s, w).alloc, s.tested)
    ensures !FinishedBy(s, w).exhausted ==> Live(FinishedBy(s, w))
  {
    hide UnitId, Hex, NothingLost, Accounted, FilesOk, HandsOk;
    var k := FindHeld(s.alloc, s.held, s.tested, w);
    var u, m := s.alloc.units[k], s.alloc.meta;
    var (b, outcome) := CompleteUnit(s.alloc, true, u.id);
    CompleteAlloc(s.job, s.alloc, k);
    GoodIsPlain(s.alloc);
    CompleteEffect(s.alloc, k);
    InHandRemove(s.held, w);
    AccountsStay(s.alloc, b, s.held, s.held - {w}, s.tested, s.lost);
    if !outcome.CompleteFailed? {
      FilesStay(s, FinishedBy(s, w));
      FinishHands(s.alloc.units, k, [], s.held, w, s.tested);
      assert Without(s.alloc.units, k) + [] == Without(s.alloc.units, k);
      FinishHands(s.alloc.units, k,
                  GroupUnits(m.lastJobId, m.lastPrevhash, m.extranonce2Size, m.cpuWorkers, u.generation, u.worker,
                    m.nextCounter),
                  s.held, w, s.tested);
    }
  }

  // ----- prepare, checkpoint, crash -----

  /** With an open CPU unit and the same job, prepare resumes and appends at most a GPU group. */
  lemma PrepareEffect(job: Job, a: Alloc, cpuWorkers: nat, gpu: bool, generation: nat)
    requires ForJob(job, a.meta) && 1 <= job.extranonce2Size <= 8 && CounterFits(a)
    requires HasCpu(a.units) && forall j :: 0 <= j < |a.units| ==> Plain(a.meta, a.units[j])
    ensures var (b, outcome) := Prepare(a, true, job, cpuWorkers, gpu, generation);
      var armed := a.(units := Apply(a.units, RearmFor(generation)));
      if !gpu || HasOpen(armed.units, job.id, Gpu)
      then outcome == Resumed && b == Noted(job, armed, cpuWorkers, gpu)
      else if a.meta.nextCounter < Capacity(a.meta.extranonce2Size)
      then outcome == Resumed && b == Noted(job, WithGroup(armed, cpuWorkers, generation, Gpu), cpuWorkers, gpu)
      else outcome == PrepareFailed(CounterExhausted) && b == armed
  {
    hide UnitId, Hex, InitialUnits, GroupUnits, Filter, HasOpen;
    PrepareResumes(job, a, generation);
    EncodeLive(a.meta.nextCounter, job.extranonce2Size);
  }

  lemma PrepareResumes(job: Job, a: Alloc, generation: nat)
    requires ForJob(job, a.meta) && HasCpu(a.units)
    requires forall j :: 0 <= j < |a.units| ==> Plain(a.meta, a.units[j])
    ensures Compatible(a, job) && Kept(a, true, job) == a.units
    ensures HasOpen(Apply(a.units, RearmFor(generation)), job.id, Cpu)
  {
    hide UnitId, Hex, Compatible, HasOpen, Kept;
    PlainIsKept(job, a);
    var c :| 0 <= c < |a.units| && a.units[c].worker == Cpu;
    assert Plain(a.meta, a.units[c]);
    CompatibleBy(a, job, c);
    var armed := Apply(a.units, RearmFor(generation));
    assert armed[c] == RearmFor(generation).On(a.units[c]);
    OpenBy(armed, job.id, Cpu, c);
  }

  lemma PlainIsKept(job: Job, a: Alloc)
    requires ForJob(job, a.meta) && forall j :: 0 <= j < |a.units| ==> Plain(a.meta, a.units[j])
    ensures Kept(a, true, job) == a.units
  {
    hide Filter;
    forall j | 0 <= j < |a.units|
      ensures OnResume(job).Keeps(a.units[j])
    {
      assert Plain(a.meta, a.units[j]);
    }
    FilterKeepsAll(a.units, OnResume(job));
  }

  lemma CompatibleBy(a: Alloc, job: Job, c: nat)
    requires ForJob(job, a.meta) && c < |a.units| && a.units[c].jobId == job.id && a.units[c].status != Stale
    ensures Compatible(a, job)
  {
    assert a.units[c] in a.units;
  }

  lemma OpenBy(units: seq<WorkUnit>, job: string, kind: Kind, c: nat)
    requires c < |units| && units[c].jobId == job && units[c].worker == kind && units[c].Open()
    ensures HasOpen(units, job, kind)
  {
    assert units[c] in units;
  }

  function Noted(job: Job, a: Alloc, cpuWorkers: nat, gpu: bool): Alloc {
    a.(meta := Described(a.meta, job, cpuWorkers, gpu, a.meta.nextCounter))
  }

  lemma PrepareAlloc(job: Job, a: Alloc, cpuWorkers: nat, gpu: bool, generation: nat)
    requires GoodFor(job, a) && CounterFits(a)
    ensures var (b, outcome) := Prepare(a, true, job, cpuWorkers, gpu, generation);
      && SamePublished(a, b)
      && (!outcome.PrepareFailed? ==> GoodFor(job, b))
  {
    hide UnitId, Hex;
    GoodIsPlain(a);
    PrepareEffect(job, a, cpuWorkers, gpu, generation);
    ApplyKeepsGood(a, RearmFor(generation));
    var armed := a.(units := Apply(a.units, RearmFor(generation)));
    NotedSame(job, armed, cpuWorkers, gpu);
    if a.meta.nextCounter < Capacity(a.meta.extranonce2Size) {
      GpuGroup(job, armed, cpuWorkers, generation, gpu);
    }
  }

  lemma GpuGroup(job: Job, a: Alloc, cpuWorkers: nat, generation: nat, gpu: bool)
    requires GoodFor(job, a) && a.meta.nextCounter < Capacity(a.meta.extranonce2Size)
    ensures var b := Noted(job, WithGroup(a, cpuWorkers, generation, Gpu), cpuWorkers, gpu);
      GoodFor(job, b) && SamePublished(a, b)
  {
    hide UnitId, Hex;
    AppendKeepsGood(a, cpuWorkers, generation, Gpu);
    var b := WithGroup(a, cpuWorkers, generation, Gpu);
    var c :| 0 <= c < |a.units| && a.units[c].worker == Cpu;
    assert b.units[c].worker == Cpu;
    NotedSame(job, b, cpuWorkers, gpu);
  }

  /** Recording the worker count and GPU flag changes nothing the invariant reads. */
  lemma NotedSame(job: Job, a: Alloc, cpuWorkers: nat, gpu: bool)
    requires GoodFor(job, a)
    ensures GoodFor(job, Noted(job, a, cpuWorkers, gpu)) && SamePublished(a, Noted(job, a, cpuWorkers, gpu))
  {
    hide UnitId, Hex;
    var b := Noted(job, a, cpuWorkers, gpu);
    forall k | 0 <= k < |a.units| ensures UnitOk(b.meta, a.units[k]) {
      assert UnitOk(a.meta, a.units[k]);
      var o :| FromOrigin(a.meta, a.units[k], o);
      assert FromOrigin(b.meta, a.units[k], o);
    }
  }

  lemma PrepareKeepsLive(s: Sys, cpuWorkers: nat, gpu: bool, generation: nat)
    requires Live(s) && s.held == map[] && CounterFits(s.alloc)
    ensures NothingLost(Prepared(s, cpuWorkers, gpu, generation).alloc, s.tested)
    ensures !Prepared(s, cpuWorkers, gpu, generation).exhausted ==> Live(Prepared(s, cpuWorkers, gpu, generation))
  {
    hide UnitId, Hex, NothingLost, Accounted, FilesOk, HandOk, Good;
    var (b, outcome) := Prepare(s.alloc, true, s.job, cpuWorkers, gpu, generation);
    PrepareAlloc(s.job, s.alloc, cpuWorkers, gpu, generation);
    AccountsStay(s.alloc, b, s.held, s.held, s.tested, s.lost);
    FilesStay(s, Prepared(s, cpuWorkers, gpu, generation));
  }

  /** Other work was loaded: prepare starts the job afresh, with its counter reset. */
  lemma PrepareStartsLive(s: Sys, cpuWorkers: nat, gpu: bool, generation: nat)
    requires Foreign(s) && !Compatible(s.alloc, s.job)
    ensures Prepare(s.alloc, true, s.job, cpuWorkers, gpu, generation).1 == Started
    ensures Prepared(s, cpuWorkers, gpu, generation).alloc.meta.nextCounter == if gpu then 2 else 1
    ensures Live(Prepared(s, cpuWorkers, gpu, generation))
  {
    hide UnitId, Hex, Good, Published, HandOk, InHand, InitialUnits, Compatible;
    StartedIsRestart(s.alloc, s.job, cpuWorkers, gpu, generation);
    RestartGood(s.job, s.alloc.meta, cpuWorkers, gpu, generation);
  }

  lemma PrepareKeepsInv(s: Sys, cpuWorkers: nat, gpu: bool, generation: nat)
    requires Inv(s) && Enabled(s, PrepareAgain(cpuWorkers, gpu, generation))
    ensures Inv(Prepared(s, cpuWorkers, gpu, generation))
  {
    hide Live, Foreign, Prepare, Compatible, NothingLost;
    if Compatible(s.alloc, s.job) {
      PrepareKeepsLive(s, cpuWorkers, gpu, generation);
    } else {
      PrepareStartsLive(s, cpuWorkers, gpu, generation);
    }
    if !Prepared(s, cpuWorkers, gpu, generation).exhausted { LiveIsInv(Prepared(s, cpuWorkers, gpu, generation)); }
  }

  lemma LoadedIsCompatible(a: Alloc, job: Job)
    ensures Compatible(Load(a), job) <==> Compatible(a, job)
  {
    var b := Load(a);
    if u :| u in a.units && u.jobId == job.id && u.status != Stale {
      var k :| 0 <= k < |a.units| && a.units[k] == u;
      assert b.units[k] in b.units;
    }
    if v :| v in b.units && v.jobId == job.id && v.status != Stale {
      var k :| 0 <= k < |b.units| && b.units[k] == v;
      assert a.units[k] in a.units;
    }
  }

  lemma CrashKeepsInv(s: Sys)
    requires Inv(s) && !s.exhausted
    ensures Inv(Restarted(s, s.stored))
  {
    hide Compatible, SavedOk, NothingLost, Accounted, HandsOk, UnitsOk, HasCpu;
    LoadedIsCompatible(s.stored, s.job);
    if Compatible(s.stored, s.job) { ReloadIsLive(s); }
  }

  lemma ReloadIsLive(s: Sys)
    requires SavedOk(s.job, s.stored, s.alloc) && Compatible(s.stored, s.job) && NothingLost(s.alloc, s.tested)
    ensures Live(Restarted(s, s.stored)) && Compatible(Load(s.stored), s.job)
  {
    hide UnitId, Hex, Compatible, Good;
    LoadedIsCompatible(s.stored, s.job);
    ApplyKeepsGood(s.stored, Interrupt);
  }

  lemma StepKeepsInv(s: Sys, step: Step)
    requires Inv(s) && Enabled(s, step)
    ensures Inv(After(s, step))
  {
    hide Live, Taken, Hashed, PublishedBy, FinishedBy, GivenBack, Prepared, Restarted, Compatible, Acquire, NothingLost;
    var t := After(s, step);
    HandsAreLive(s);
    match step
    case Take(w, kind) => TakeKeepsLive(s, w, kind); LiveIsInv(t);
    case Hash(w) => HashKeepsLive(s, w); LiveIsInv(t);
    case Publish(w, best, bestNonce) => PublishKeepsLive(s, w, best, bestNonce); LiveIsInv(t);
    case Finish(w) => FinishKeepsInv(s, w);
    case GiveBack(w) => GiveBackKeepsLive(s, w); LiveIsInv(t);
    case PrepareAgain(cpuWorkers, gpu, generation) => PrepareKeepsInv(s, cpuWorkers, gpu, generation);
    case BeginSave => BeginSaveKeepsInv(s);
    case CommitSave => SaveEndsKeepInv(s);
    case FailSave => SaveEndsKeepInv(s);
    case Crash => CrashKeepsInv(s);
  }

  /** Whoever has prepared the job, or holds a unit, is working on the job. */
  lemma HandsAreLive(s: Sys)
    requires Inv(s) && !s.exhausted
    ensures Compatible(s.alloc, s.job) <==> s.ready || Compatible(s.stored, s.job)
    ensures Compatible(s.alloc, s.job) ==> Live(s)
    ensures s.held != map[] ==> s.ready && Live(s)
  {
    hide Compatible, GoodFor, NothingLost, HandsOk, Accounted, FilesOk;
  }

  lemma FinishKeepsInv(s: Sys, w: nat)
    requires Live(s) && s.ready && MayFinish(s, w) && !s.exhausted
    ensures Inv(FinishedBy(s, w))
  {
    hide Live, NothingLost, CompleteUnit;
    FinishKeepsLive(s, w);
    if !FinishedBy(s, w).exhausted { LiveIsInv(FinishedBy(s, w)); }
  }

  lemma BeginSaveKeepsInv(s: Sys)
    requires Inv(s) && !s.exhausted && s.saving == None
    ensures Inv(s.(saving := Some(s.alloc)))
  {
    hide Compatible, GoodFor, HandsOk, Accounted, NothingLost, Published;
  }

  lemma SaveEndsKeepInv(s: Sys)
    requires Inv(s) && !s.exhausted && s.saving.Some?
    ensures Inv(s.(stored := s.saving.value, saving := None)) && Inv(s.(saving := None))
  {
    hide Compatible, GoodFor, HandsOk, Accounted, NothingLost, Published;
  }

  lemma {:induction false} RunKeepsInv(s: Sys, steps: seq<Step>)
    requires Inv(s) && Runs(s, steps)
    ensures Inv(Final(s, steps))
    decreases |steps|
  {
    hide Inv, After, Enabled;
    if steps != [] {
      StepKeepsInv(s, steps[0]);
      RunKeepsInv(After(s, steps[0]), steps[1..]);
    }
  }

  // ----- what every run guarantees -----

  lemma RunIsSound(s: Sys, steps: seq<Step>)
    requires Initial(s) && Runs(s, steps)
    ensures Inv(Final(s, steps))
  {
    InitialInv(s);
    RunKeepsInv(s, steps);
  }

  /** Every nonce of every extranonce2 handed out so far has been hashed or is still scheduled. */
  lemma NoNonceIsLost(s: Sys, steps: seq<Step>, e: nat, n: nat)
    requires Initial(s) && Runs(s, steps)
    requires Final(s, steps).ready || Compatible(Final(s, steps).alloc, s.job)
    ensures var t := Final(s, steps);
      var ex := Hex(e, 2 * t.alloc.meta.extranonce2Size);
      e < t.alloc.meta.nextCounter && n < NONCE_SPACE ==> (ex, n) in t.tested || Remaining(t.alloc.units, ex, n)
  {
    hide UnitId, Hex, GoodFor, HandsOk, Accounted, FilesOk, Compatible;
    RunIsSound(s, steps);
    JobStays(s, steps);
    var t := Final(s, steps);
    var ex := Hex(e, 2 * t.alloc.meta.extranonce2Size);
    if e < t.alloc.meta.nextCounter && n < NONCE_SPACE && !Remaining(t.alloc.units, ex, n) {
      assert Issued(t.alloc.meta, ex);
      assert Published(t.alloc, ex, n);
    }
  }

  lemma {:induction false} JobStays(s: Sys, steps: seq<Step>)
    requires Runs(s, steps)
    ensures Final(s, steps).job == s.job
    decreases |steps|
  {
    if steps != [] {
      JobStays(After(s, steps[0]), steps[1..]);
    }
  }

  /** Unit identifiers are distinct, whatever generations and restarts produced them. */
  lemma IdentifiersDistinct(s: Sys, steps: seq<Step>, j: nat, k: nat)
    requires Initial(s) && Runs(s, steps) && !Final(s, steps).exhausted
    requires Final(s, steps).ready || Compatible(Final(s, steps).alloc, s.job)
    requires j < k < |Final(s, steps).alloc.units|
    ensures Final(s, steps).alloc.units[j].id != Final(s, steps).alloc.units[k].id
  {
    hide UnitId, Hex, HandsOk, Accounted, FilesOk, NothingLost, Compatible;
    RunIsSound(s, steps);
    JobStays(s, steps);
    assert Apart(Final(s, steps).alloc.units[j], Final(s, steps).alloc.units[k]);
  }

  /** Two workers never own a common pair, counting what each has hashed but not yet published. */
  lemma WorkersNeverShare(s: Sys, steps: seq<Step>, v: nat, w: nat, n: nat)
    requires Initial(s) && Runs(s, steps) && !Final(s, steps).exhausted
    requires v != w && v in Final(s, steps).held && w in Final(s, steps).held
    ensures var h, g := Final(s, steps).held[v], Final(s, steps).held[w];
      !(h.extranonce2 == g.extranonce2 && h.cursor - h.pending <= n < h.nonceEnd
        && g.cursor - g.pending <= n < g.nonceEnd)
  {
    hide Live;
    RunIsSound(s, steps);
    HandsAreLive(Final(s, steps));
    HandsDisjoint(Final(s, steps), v, w, n);
  }

  lemma HandsDisjoint(t: Sys, v: nat, w: nat, n: nat)
    requires Live(t) && v != w && v in t.held && w in t.held
    ensures !(t.held[v].extranonce2 == t.held[w].extranonce2
              && t.held[v].cursor - t.held[v].pending <= n < t.held[v].nonceEnd
              && t.held[w].cursor - t.held[w].pending <= n < t.held[w].nonceEnd)
  {
    hide UnitId, Hex;
    var j := FindHeld(t.alloc, t.held, t.tested, v);
    var k := FindHeld(t.alloc, t.held, t.tested, w);
    assert j != k;
    assert if j < k then Apart(t.alloc.units[j], t.alloc.units[k]) else Apart(t.alloc.units[k], t.alloc.units[j]);
  }

  /** A hash step never repeats a published pair, nor one the checkpoint file records as published;
      it repeats a pair at all only when a crash forgot it and nobody hashed it since. */
  lemma HashesAreNew(s: Sys, steps: seq<Step>, w: nat)
    requires Initial(s) && Runs(s, steps) && Enabled(Final(s, steps), Hash(w))
    ensures var t := Final(s, steps);
      var p := NextPair(t.held[w]);
      && !Published(t.alloc, p.0, p.1)
      && (Compatible(t.stored, t.job) ==> !Published(t.stored, p.0, p.1))
      && (p in t.tested ==> p in t.lost)
  {
    RunIsSound(s, steps);
    NextHashIsNew(Final(s, steps), w);
  }

  lemma NextHashIsNew(t: Sys, w: nat)
    requires Inv(t) && Enabled(t, Hash(w))
    ensures var p := NextPair(t.held[w]);
      && !Published(t.alloc, p.0, p.1)
      && (Compatible(t.stored, t.job) ==> !Published(t.stored, p.0, p.1))
      && (p in t.tested ==> p in t.lost)
  {
    hide UnitId, Hex, Compatible;
    HandsAreLive(t);
    var ex, n := t.held[w].extranonce2, t.held[w].cursor;
    var k := FindHeld(t.alloc, t.held, t.tested, w);
    assert Covers(t.alloc.units[k], ex, n);
    if InHand(t.held, ex, n) {
      var x :| x in t.held && Ahead(t.held[x], ex, n);
      assert x != w;
      var j := FindHeld(t.alloc, t.held, t.tested, x);
      HandsDisjoint(t, x, w, n);
      assert false;
    }
  }

  predicate NoCrash(steps: seq<Step>) { forall i :: 0 <= i < |steps| ==> !steps[i].Crash? }

  lemma {:induction false} NothingLostWithoutCrash(s: Sys, steps: seq<Step>)
    requires Runs(s, steps) && NoCrash(steps)
    ensures Final(s, steps).lost <= s.lost
    ensures s.ready ==> Final(s, steps).ready
    decreases |steps|
  {
    if steps != [] {
      assert !steps[0].Crash?;
      NothingLostWithoutCrash(After(s, steps[0]), steps[1..]);
    }
  }

  /** Without a crash no pair is ever hashed twice. */
  lemma NoHashRepeatsWithoutCrash(s: Sys, steps: seq<Step>, w: nat)
    requires Initial(s) && Runs(s, steps) && NoCrash(steps) && Enabled(Final(s, steps), Hash(w))
    ensures NextPair(Final(s, steps).held[w]) !in Final(s, steps).tested
  {
    HashesAreNew(s, steps, w);
    NothingLostWithoutCrash(s, steps);
  }

  // ----- how often a pair is hashed -----

  function Crashes(steps: seq<Step>): nat {
    if steps == [] then 0 else (if steps[0].Crash? then 1 else 0) + Crashes(steps[1..])
  }

  predicate IsHashOf(s: Sys, step: Step, p: Pair) {
    step.Hash? && step.w in s.held && NextPair(s.held[step.w]) == p
  }

  /** How often a run hashes the pair. */
  ghost function TimesHashed(s: Sys, steps: seq<Step>, p: Pair): nat
    requires Runs(s, steps)
    decreases |steps|
  {
    if steps == [] then 0
    else (if IsHashOf(s, steps[0], p) then 1 else 0) + TimesHashed(After(s, steps[0]), steps[1..], p)
  }

  predicate Spent(s: Sys, p: Pair) { p in s.tested && p !in s.lost }

  lemma {:induction false} RepeatsFrom(s: Sys, steps: seq<Step>, p: Pair)
    requires Inv(s) && Runs(s, steps)
    ensures TimesHashed(s, steps, p) + (if Spent(s, p) then 1 else 0) <= 1 + Crashes(steps)
    decreases |steps|
  {
    hide Inv, After, Enabled;
    if steps != [] {
      StepKeepsInv(s, steps[0]);
      StepSpends(s, steps[0], p);
      RepeatsFrom(After(s, steps[0]), steps[1..], p);
    }
  }

  /** A hash step spends a pair that was not spent; only a crash makes a pair available again. */
  lemma StepSpends(s: Sys, step: Step, p: Pair)
    requires Inv(s) && Enabled(s, step)
    ensures IsHashOf(s, step, p) ==> !Spent(s, p) && Spent(After(s, step), p)
    ensures Spent(s, p) && !step.Crash? ==> Spent(After(s, step), p)
  {
    hide Inv;
    if step.Hash? { NextHashIsNew(s, step.w); }
  }

  /** Whatever the interleaving, a run hashes no pair more often than once and once more for each crash. */
  lemma RepeatsNeedCrashes(s: Sys, steps: seq<Step>, p: Pair)
    requires Initial(s) && Runs(s, steps)
    ensures TimesHashed(s, steps, p) <= 1 + Crashes(steps)
  {
    InitialInv(s);
    RepeatsFrom(s, steps, p);
  }

  // ----- the checkpoint file -----

  /** What the checkpoint file records as published stays so for ever, through any crashes. */
  lemma {:induction false} RecordedIsNeverRepeated(s: Sys, steps: seq<Step>, ex: string, n: nat)
    requires Inv(s) && Runs(s, steps) && Compatible(s.stored, s.job) && Published(s.stored, ex, n)
    ensures var t := Final(s, steps);
      && Compatible(t.stored, t.job) && Published(t.stored, ex, n)
      && (!t.exhausted ==> Published(t.alloc, ex, n))
    decreases |steps|
  {
    hide UnitId, Hex, Compatible, After, Enabled;
    if steps != [] {
      StepKeepsInv(s, steps[0]);
      StoredStays(s, steps[0], ex, n);
      RecordedIsNeverRepeated(After(s, steps[0]), steps[1..], ex, n);
    }
  }

  lemma StoredStays(s: Sys, step: Step, ex: string, n: nat)
    requires Inv(s) && Enabled(s, step) && Compatible(s.stored, s.job) && Published(s.stored, ex, n)
    ensures var t := After(s, step);
      Compatible(t.stored, t.job) && Published(t.stored, ex, n)
  {
    hide UnitId, Hex, Compatible;
    HandsAreLive(s);
  }

  /** Reconnecting to the same job resumes, and never resets the counter, as long as this process has
      prepared the job or the checkpoint file records it. Otherwise, after a crash before the first
      checkpoint, it starts afresh: every hash so far has been forgotten. */
  lemma ReconnectResumes(s: Sys, steps: seq<Step>, cpuWorkers: nat, gpu: bool, generation: nat)
    requires Initial(s) && Runs(s, steps)
    requires Enabled(Final(s, steps), PrepareAgain(cpuWorkers, gpu, generation))
    ensures var t := Final(s, steps);
      var (b, outcome) := Prepare(t.alloc, true, t.job, cpuWorkers, gpu, generation);
      if t.ready || Compatible(t.stored, t.job) then
        && outcome != Started
        && b.meta.nextCounter >= t.alloc.meta.nextCounter
        && (outcome.PrepareFailed? <==> gpu && t.alloc.meta.nextCounter == Capacity(t.job.extranonce2Size)
                                        && !HasOpen(Apply(t.alloc.units, RearmFor(generation)), t.job.id, Gpu))
      else
        && outcome == Started
        && b.meta.nextCounter == (if gpu then 2 else 1)
        && t.tested <= t.lost
    ensures NoCrash(steps) ==> Final(s, steps).ready
  {
    hide After, Prepare, UnitId, Hex, HandsOk, Accounted, FilesOk, NothingLost;
    RunIsSound(s, steps);
    if NoCrash(steps) { NothingLostWithoutCrash(s, steps); }
    var t := Final(s, steps);
    HandsAreLive(t);
    if t.ready || Compatible(t.stored, t.job) {
      GoodIsPlain(t.alloc);
      PrepareEffect(t.job, t.alloc, cpuWorkers, gpu, generation);
    } else {
      PrepareStartsLive(t, cpuWorkers, gpu, generation);
    }
  }
}
