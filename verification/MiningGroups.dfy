// The groups that a live run adds: each new extranonce2 is cut into as many equal slices as the last
// prepare announced CPU workers, so that all of them can work on it
// (src/mining/work_allocator.cpp:247-268, src/mining/cpu_miner.cpp:48-49).
module MiningGroups {
  import opened Arith
  import opened WorkUnits
  import opened WorkAllocation
  import opened MiningRuns
  import opened MiningSafety
  import opened MiningProgress

  // ----- a tiling of the nonce space -----

  function Length(u: WorkUnit): int { u.nonceEnd - u.nonceStart }

  /** The units follow each other from the first nonce to the last and differ in length by at most one. */
  ghost predicate Tiles(g: seq<WorkUnit>) {
    && |g| > 0 && g[0].nonceStart == 0 && g[|g| - 1].nonceEnd == NONCE_SPACE
    && (forall i, j :: 0 <= i < j < |g| && j == i + 1 ==> g[i].nonceEnd == g[j].nonceStart)
    && forall i, j :: 0 <= i < |g| && 0 <= j < |g| ==> Length(g[i]) <= Length(g[j]) + 1
  }

  /** From unit m on the list holds the group of counter c, untouched, and nothing of it before. */
  ghost predicate HoldsGroup(a: Alloc, m: nat, c: nat, kind: Kind) {
    && m <= |a.units| && Tiles(a.units[m..])
    && |a.units| - m == (if kind.Cpu? then AtLeastOne(a.meta.cpuWorkers) else 1)
    && (forall i :: m <= i < |a.units| ==> NotStarted(a.units[i], c, kind, a.meta.extranonce2Size))
    && forall i :: 0 <= i < m ==> a.units[i].extranonce2 != Hex(c, 2 * a.meta.extranonce2Size)
  }

  predicate NotStarted(u: WorkUnit, c: nat, kind: Kind, size: nat) {
    u.worker == kind && u.status == Pending && u.nonceNext == u.nonceStart && u.extranonce2 == Hex(c, 2 * size)
  }

  lemma SliceLength(i: nat, count: nat)
    requires count > 0
    ensures NONCE_SPACE / count <= SliceStart(i + 1, count) - SliceStart(i, count) <= NONCE_SPACE / count + 1
  {
    var q, r := NONCE_SPACE / count, NONCE_SPACE % count;
    var x, y := NONCE_SPACE * i, NONCE_SPACE * i % count + r;
    assert NONCE_SPACE * (i + 1) == x + NONCE_SPACE;
    assert NONCE_SPACE == q * count + r && x == x / count * count + x % count;
    MulDistributes(x / count, q, count);
    assert NONCE_SPACE * (i + 1) == (x / count + q) * count + y;
    if y < count {
      DivisionIs(NONCE_SPACE * (i + 1), count, x / count + q, y);
    } else {
      MulDistributes(x / count + q, 1, count);
      DivisionIs(NONCE_SPACE * (i + 1), count, x / count + q + 1, y - count);
    }
  }

  predicate IsSlice(u: WorkUnit, i: nat, count: nat)
    requires count > 0
  {
    u.nonceStart == SliceStart(i, count) && u.nonceEnd == SliceStart(i + 1, count)
  }

  lemma SlicesTile(g: seq<WorkUnit>)
    requires |g| > 0 && forall i :: 0 <= i < |g| ==> IsSlice(g[i], i, |g|)
    ensures Tiles(g)
  {
    hide SliceStart;
    var count := |g|;
    SliceEnds(count);
    assert IsSlice(g[0], 0, count) && IsSlice(g[count - 1], count - 1, count);
    forall i | 0 <= i < count
      ensures NONCE_SPACE / count <= Length(g[i]) <= NONCE_SPACE / count + 1
    {
      assert IsSlice(g[i], i, count);
      SliceLength(i, count);
    }
    forall i, j | 0 <= i < j < count && j == i + 1
      ensures g[i].nonceEnd == g[j].nonceStart
    {
      assert IsSlice(g[i], i, count) && IsSlice(g[j], j, count);
    }
  }

  lemma GroupTiles(job: string, prevhash: string, size: nat, cpuWorkers: nat, generation: nat, kind: Kind,
                   counter: nat)
    ensures var g := GroupUnits(job, prevhash, size, cpuWorkers, generation, kind, counter);
      && Tiles(g) && |g| == (if kind.Cpu? then AtLeastOne(cpuWorkers) else 1)
      && forall i :: 0 <= i < |g| ==> NotStarted(g[i], counter, kind, size)
  {
    hide UnitId, Hex, SliceStart;
    if kind.Cpu? {
      hide Tiles;
      SlicesTile(GroupUnits(job, prevhash, size, cpuWorkers, generation, kind, counter));
    }
  }

  /** The first layout gives the CPU the same tiling, and the GPU the whole space of the next counter. */
  lemma FirstLayoutTiles(job: Job, cpuWorkers: nat, gpu: bool, generation: nat)
    requires job.extranonce2Size > 0
    ensures var units, count := InitialUnits(job, cpuWorkers, gpu, generation), AtLeastOne(cpuWorkers);
      && |units| == count + (if gpu then 1 else 0) && Tiles(units[..count])
      && (forall i :: 0 <= i < count ==> NotStarted(units[i], 0, Cpu, job.extranonce2Size))
      && (gpu ==> Tiles(units[count..]) && NotStarted(units[count], 1, Gpu, job.extranonce2Size))
  {
    hide UnitId, Hex, SliceStart, InitialUnits, Tiles;
    var units, count := InitialUnits(job, cpuWorkers, gpu, generation), AtLeastOne(cpuWorkers);
    InitialCount(job, cpuWorkers, gpu, generation);
    var g := units[..count];
    forall i | 0 <= i < count
      ensures IsSlice(g[i], i, count) && NotStarted(units[i], 0, Cpu, job.extranonce2Size)
    {
      InitialUnitsAt(job, cpuWorkers, gpu, generation, i);
    }
    SlicesTile(g);
    if gpu {
      InitialUnitsAt(job, cpuWorkers, gpu, generation, count);
      WholeTiles(units[count..]);
    }
  }

  /** Without extranonce2 bytes there is one nonce space: the CPU slices, and with a GPU one more of the same length,
      tile it together. */
  lemma SharedLayoutTiles(job: Job, cpuWorkers: nat, gpu: bool, generation: nat)
    requires job.extranonce2Size == 0
    ensures var units, count := InitialUnits(job, cpuWorkers, gpu, generation), AtLeastOne(cpuWorkers);
      && |units| == count + (if gpu then 1 else 0) && Tiles(units)
      && forall i :: 0 <= i < |units| ==> NotStarted(units[i], 0, if i < count then Cpu else Gpu, 0)
  {
    hide UnitId, SliceStart, Tiles;
    var units, count := InitialUnits(job, cpuWorkers, gpu, generation), AtLeastOne(cpuWorkers);
    SliceEnds(|units|);
    forall i | 0 <= i < |units| ensures IsSlice(units[i], i, |units|) {}
    SlicesTile(units);
  }

  lemma WholeTiles(g: seq<WorkUnit>)
    requires |g| == 1 && g[0].nonceStart == 0 && g[0].nonceEnd == NONCE_SPACE
    ensures Tiles(g)
  {}

  /** A run begins with the first layout for the workers its first prepare announced. */
  lemma StartTiles(s: Sys, a: Alloc, cpuWorkers: nat, gpu: bool, generation: nat)
    requires s.job.extranonce2Size > 0 && StartedFrom(s, a, cpuWorkers, gpu, generation)
    ensures var units, count := s.alloc.units, AtLeastOne(cpuWorkers);
      && s.alloc.meta.cpuWorkers == cpuWorkers && s.alloc.meta.nextCounter == (if gpu then 2 else 1)
      && |units| == count + (if gpu then 1 else 0) && Tiles(units[..count])
      && (forall i :: 0 <= i < count ==> NotStarted(units[i], 0, Cpu, s.job.extranonce2Size))
      && (gpu ==> Tiles(units[count..]) && NotStarted(units[count], 1, Gpu, s.job.extranonce2Size))
  {
    hide UnitId, Hex, InitialUnits, Tiles, NotStarted, Prepare;
    StartedIsRestart(a, s.job, cpuWorkers, gpu, generation);
    FirstLayoutTiles(s.job, cpuWorkers, gpu, generation);
  }

  // ----- the steps that add a group -----

  lemma OldIsOther(m: Meta, u: WorkUnit)
    requires UnitOk(m, u) && m.nextCounter < Capacity(m.extranonce2Size)
    ensures u.extranonce2 != Hex(m.nextCounter, 2 * m.extranonce2Size)
  {
    hide UnitId, Hex;
    var o :| FromOrigin(m, u, o);
    if u.extranonce2 == Hex(m.nextCounter, 2 * m.extranonce2Size) {
      EncodeInjective(o.Counter(), m.nextCounter, m.extranonce2Size);
    }
  }

  lemma AddedGroup(a: Alloc, rest: seq<WorkUnit>, b: Alloc, cpuWorkers: nat, generation: nat, kind: Kind)
    requires Good(a) && a.meta.nextCounter < Capacity(a.meta.extranonce2Size)
    requires forall i :: 0 <= i < |rest| ==> rest[i].extranonce2 != Hex(a.meta.nextCounter, 2 * a.meta.extranonce2Size)
    requires b.units == WithGroup(a.(units := rest), cpuWorkers, generation, kind).units
    requires b.meta.extranonce2Size == a.meta.extranonce2Size && (kind.Cpu? ==> b.meta.cpuWorkers == cpuWorkers)
    ensures HoldsGroup(b, |rest|, a.meta.nextCounter, kind)
  {
    hide Good, Hex, Tiles, GroupUnits, Capacity;
    var m := a.meta;
    var g := GroupUnits(m.lastJobId, m.lastPrevhash, m.extranonce2Size, cpuWorkers, generation, kind, m.nextCounter);
    GroupTiles(m.lastJobId, m.lastPrevhash, m.extranonce2Size, cpuWorkers, generation, kind, m.nextCounter);
    assert b.units[|rest|..] == g;
  }

  /** Completing a unit adds at most the group of its kind. */
  lemma FinishAdds(s: Sys, w: nat) returns (m: nat)
    requires Live(s) && MayFinish(s, w) && !FinishedBy(s, w).exhausted
    ensures var t := FinishedBy(s, w);
      t.alloc.meta.nextCounter != s.alloc.meta.nextCounter ==>
        && t.alloc.meta.nextCounter == s.alloc.meta.nextCounter + 1
        && HoldsGroup(t.alloc, m, s.alloc.meta.nextCounter, s.held[w].kind)
  {
    hide UnitId, Hex, Accounted, FilesOk, NothingLost, HandsOk, CompleteUnit, GroupUnits, GroupOpen, HoldsGroup,
      Capacity;
    var k := HeldUnit(s, w);
    var a, u, rest := s.alloc, s.alloc.units[k], Without(s.alloc.units, k);
    m := |rest|;
    GoodIsPlain(a);
    CompleteEffect(a, k);
    if FinishedBy(s, w).alloc.meta.nextCounter != a.meta.nextCounter {
      forall i | 0 <= i < |rest|
        ensures rest[i].extranonce2 != Hex(a.meta.nextCounter, 2 * a.meta.extranonce2Size)
      {
        assert UnitOk(a.meta, a.units[Shifted(k, i)]);
        OldIsOther(a.meta, a.units[Shifted(k, i)]);
      }
      AddedGroup(a, rest, FinishedBy(s, w).alloc, a.meta.cpuWorkers, u.generation, u.worker);
    }
  }

  /** Preparing the job again adds at most a GPU group. */
  lemma PrepareAdds(s: Sys, cpuWorkers: nat, gpu: bool, generation: nat) returns (m: nat)
    requires Live(s) && CounterFits(s.alloc) && !Prepared(s, cpuWorkers, gpu, generation).exhausted
    ensures var t := Prepared(s, cpuWorkers, gpu, generation);
      t.alloc.meta.nextCounter != s.alloc.meta.nextCounter ==>
        && t.alloc.meta.nextCounter == s.alloc.meta.nextCounter + 1
        && HoldsGroup(t.alloc, m, s.alloc.meta.nextCounter, Gpu)
  {
    hide UnitId, Hex, Accounted, FilesOk, NothingLost, HandsOk, Prepare, GroupUnits, HasOpen, HoldsGroup, Capacity;
    var a := s.alloc;
    GoodIsPlain(a);
    PrepareEffect(s.job, a, cpuWorkers, gpu, generation);
    var armed := Apply(a.units, RearmFor(generation));
    m := |armed|;
    if Prepared(s, cpuWorkers, gpu, generation).alloc.meta.nextCounter != a.meta.nextCounter {
      forall i | 0 <= i < |armed|
        ensures armed[i].extranonce2 != Hex(a.meta.nextCounter, 2 * a.meta.extranonce2Size)
      {
        assert UnitOk(a.meta, a.units[i]);
        OldIsOther(a.meta, a.units[i]);
      }
      AddedGroup(a, armed, Prepared(s, cpuWorkers, gpu, generation).alloc, cpuWorkers, generation, Gpu);
    }
  }

  predicate AddsFor(s: Sys, step: Step, kind: Kind) {
    (step.Finish? && step.w in s.held && s.held[step.w].kind == kind) || (step.PrepareAgain? && kind == Gpu)
  }

  lemma StepAdds(s: Sys, step: Step, kind: Kind) returns (m: nat)
    requires Inv(s) && s.ready && Enabled(s, step) && !After(s, step).exhausted && AddsFor(s, step, kind)
    ensures var t := After(s, step);
      t.alloc.meta.nextCounter != s.alloc.meta.nextCounter ==>
        && t.alloc.meta.nextCounter == s.alloc.meta.nextCounter + 1
        && HoldsGroup(t.alloc, m, s.alloc.meta.nextCounter, kind)
  {
    hide Live, Foreign, HoldsGroup, FinishedBy, Prepared, Compatible;
    HandsAreLive(s);
    if step.Finish? { m := FinishAdds(s, step.w); }
    else { m := PrepareAdds(s, step.cpuWorkers, step.gpu, step.generation); }
  }

  /** Only completing a unit and preparing the job again change the counter of a prepared job. */
  lemma OthersAddNothing(s: Sys, step: Step)
    requires Inv(s) && s.ready && Enabled(s, step) && !step.Crash? && !step.Finish? && !step.PrepareAgain?
    ensures After(s, step).alloc.meta == s.alloc.meta
  {
    hide Live, Foreign, Acquire, Compatible;
    match step
    case Take(w, kind) => TakeKeepsMeta(s, w, kind);
    case Publish(w, best, bestNonce) => PublishKeepsMeta(s, w, best, bestNonce);
    case GiveBack(w) => GiveBackKeepsMeta(s, w);
    case _ =>
  }

  // ----- the announced workers -----

  /** The worker count of the last prepare of the run. */
  function Announced(first: nat, steps: seq<Step>): nat
    decreases |steps|
  {
    if steps == [] then first
    else Announced(if steps[0].PrepareAgain? then steps[0].cpuWorkers else first, steps[1..])
  }

  lemma {:induction false} AnnouncedIsKept(s: Sys, steps: seq<Step>, first: nat)
    requires Inv(s) && Tidy(s) && Runs(s, steps) && !Final(s, steps).exhausted
    requires s.ready ==> s.alloc.meta.cpuWorkers == first
    ensures Final(s, steps).ready ==> Final(s, steps).alloc.meta.cpuWorkers == Announced(first, steps)
    decreases |steps|
  {
    hide Inv, Tidy, After, Enabled;
    if steps != [] {
      var u := After(s, steps[0]);
      if u.exhausted { NothingAfterExhaustion(u, steps[1..]); }
      StepKeepsInv(s, steps[0]);
      StepKeepsTidy(s, steps[0]);
      StepKeepsAnnounced(s, steps[0], first);
      AnnouncedIsKept(u, steps[1..], if steps[0].PrepareAgain? then steps[0].cpuWorkers else first);
    }
  }

  lemma StepKeepsAnnounced(s: Sys, step: Step, first: nat)
    requires Inv(s) && Tidy(s) && Enabled(s, step) && !After(s, step).exhausted
    requires s.ready ==> s.alloc.meta.cpuWorkers == first
    ensures var t := After(s, step);
      t.ready ==> t.alloc.meta.cpuWorkers == if step.PrepareAgain? then step.cpuWorkers else first
  {
    hide Live, Foreign, Tidy, Acquire, Compatible, Prepare;
    HandsAreLive(s);
    match step
    case Take(w, kind) => TakeKeepsMeta(s, w, kind);
    case Publish(w, best, bestNonce) => PublishKeepsMeta(s, w, best, bestNonce);
    case Finish(w) => FinishKeepsMeta(s, w);
    case GiveBack(w) => GiveBackKeepsMeta(s, w);
    case PrepareAgain(cpuWorkers, gpu, generation) => PrepareAnnounces(s, cpuWorkers, gpu, generation);
    case _ =>
  }

  lemma PrepareAnnounces(s: Sys, cpuWorkers: nat, gpu: bool, generation: nat)
    requires !Prepared(s, cpuWorkers, gpu, generation).exhausted
    ensures Prepared(s, cpuWorkers, gpu, generation).alloc.meta.cpuWorkers == cpuWorkers
  {
    hide InitialUnits, AppendGroup, Apply, Kept, Compatible;
  }

  // ----- what every run guarantees -----

  /** In every run, crashes included: a step that raises the counter of a prepared job adds exactly one group of
      the old counter's extranonce2, with one untouched slice for each CPU worker that the last prepare announced,
      or one for the GPU; the slices tile the nonce space and differ in length by at most one. */
  lemma EveryGroupTiles(s: Sys, steps: seq<Step>, step: Step, kind: Kind) returns (m: nat)
    requires Initial(s) && Runs(s, steps) && Final(s, steps).ready && Enabled(Final(s, steps), step)
    requires AddsFor(Final(s, steps), step, kind) && !After(Final(s, steps), step).exhausted
    ensures var t, u := Final(s, steps), After(Final(s, steps), step);
      u.alloc.meta.nextCounter != t.alloc.meta.nextCounter ==>
        && u.alloc.meta.nextCounter == t.alloc.meta.nextCounter + 1
        && HoldsGroup(u.alloc, m, t.alloc.meta.nextCounter, kind)
        && u.alloc.meta.cpuWorkers == Announced(s.alloc.meta.cpuWorkers, steps + [step])
  {
    hide Inv, Tidy, After, Enabled, HoldsGroup, Initial;
    var t := Final(s, steps);
    InitialInv(s);
    InitialIsTidy(s);
    RunKeepsInv(s, steps);
    var more := ExtendRun(s, steps, step);
    m := StepAdds(t, step, kind);
    AnnouncedIsKept(s, more, s.alloc.meta.cpuWorkers);
    AddingIsReady(t, step, kind);
  }

  lemma AddingIsReady(t: Sys, step: Step, kind: Kind)
    requires t.ready && Enabled(t, step) && AddsFor(t, step, kind)
    ensures After(t, step).ready
  {}

  // ----- everybody can take one -----

  /** How many units of the kind are on offer. */
  function Offers(units: seq<WorkUnit>, kind: Kind): nat {
    if units == [] then 0
    else Offers(units[..|units| - 1], kind) + if Acquirable(kind).Holds(units[|units| - 1]) then 1 else 0
  }

  lemma {:induction false} OffersUpdate(units: seq<WorkUnit>, k: nat, v: WorkUnit, kind: Kind)
    requires k < |units|
    ensures Offers(units[k := v], kind) + (if Acquirable(kind).Holds(units[k]) then 1 else 0)
         == Offers(units, kind) + (if Acquirable(kind).Holds(v) then 1 else 0)
  {
    var n := |units| - 1;
    if k < n {
      OffersUpdate(units[..n], k, v, kind);
      assert units[k := v][..n] == units[..n][k := v];
    } else {
      assert units[k := v][..n] == units[..n];
    }
  }

  lemma {:induction false} SomeOffer(units: seq<WorkUnit>, kind: Kind) returns (k: nat)
    requires Offers(units, kind) > 0
    ensures k < |units| && Acquirable(kind).Holds(units[k])
  {
    var n := |units| - 1;
    if Acquirable(kind).Holds(units[n]) { k := n; } else { k := SomeOffer(units[..n], kind); }
  }

  lemma {:induction false} OffersFrom(units: seq<WorkUnit>, m: nat, kind: Kind)
    requires m <= |units| && forall i :: m <= i < |units| ==> Acquirable(kind).Holds(units[i])
    ensures Offers(units, kind) >= |units| - m
  {
    if m < |units| { OffersFrom(units[..|units| - 1], m, kind); }
  }

  function Takes(workers: seq<nat>, kind: Kind): seq<Step> {
    if workers == [] then [] else [Take(workers[0], kind)] + Takes(workers[1..], kind)
  }

  /** As many free workers as there are offers can all take a unit, one after the other. */
  lemma {:induction false} AllCanTake(s: Sys, workers: seq<nat>, kind: Kind)
    requires s.ready && !s.exhausted && |workers| <= Offers(s.alloc.units, kind)
    requires forall i :: 0 <= i < |workers| ==> workers[i] !in s.held
    requires forall i, j :: 0 <= i < j < |workers| ==> workers[i] != workers[j]
    ensures Runs(s, Takes(workers, kind))
    decreases |workers|
  {
    if workers != [] {
      var k := SomeOffer(s.alloc.units, kind);
      var f := Find(s.alloc.units, Acquirable(kind)).value;
      OffersUpdate(s.alloc.units, f, s.alloc.units[f].(status := InProgress), kind);
      AllCanTake(Taken(s, workers[0], kind), workers[1..], kind);
      assert Takes(workers, kind)[0] == Take(workers[0], kind)
        && Takes(workers, kind)[1..] == Takes(workers[1..], kind);
    }
  }

  /** A new CPU group has a unit for every announced worker that is free. */
  lemma GroupServesAll(s: Sys, m: nat, c: nat, workers: seq<nat>)
    requires s.ready && !s.exhausted && HoldsGroup(s.alloc, m, c, Cpu) && IsUnsigned(s.alloc.meta.cpuWorkers)
    requires |workers| <= AtLeastOne(s.alloc.meta.cpuWorkers)
    requires forall i :: 0 <= i < |workers| ==> workers[i] !in s.held
    requires forall i, j :: 0 <= i < j < |workers| ==> workers[i] != workers[j]
    ensures Runs(s, Takes(workers, Cpu))
  {
    hide Offers;
    TilesNonempty(s.alloc.units[m..]);
    forall i | m <= i < |s.alloc.units|
      ensures Acquirable(Cpu).Holds(s.alloc.units[i])
    {
      assert s.alloc.units[m..][i - m] == s.alloc.units[i];
      assert NotStarted(s.alloc.units[i], c, Cpu, s.alloc.meta.extranonce2Size);
    }
    OffersFrom(s.alloc.units, m, Cpu);
    AllCanTake(s, workers, Cpu);
  }

  /** No more than 2^32 tiles of nearly equal length are all non-empty. */
  lemma TilesNonempty(g: seq<WorkUnit>)
    requires Tiles(g) && |g| <= NONCE_SPACE
    ensures forall i :: 0 <= i < |g| ==> g[i].nonceStart < g[i].nonceEnd
  {
    forall i | 0 <= i < |g|
      ensures g[i].nonceStart < g[i].nonceEnd
    {
      if Length(g[i]) <= 0 { ShortTiles(g, |g|, i); }
    }
  }

  /** With one tile empty the others have at most one nonce each. */
  lemma {:induction false} ShortTiles(g: seq<WorkUnit>, n: nat, i: nat)
    requires Tiles(g) && 0 < n <= |g| && i < |g| && Length(g[i]) <= 0
    ensures g[n - 1].nonceEnd <= if i < n then n - 1 else n
  {
    assert Length(g[n - 1]) <= Length(g[i]) + 1;
    if n > 1 { ShortTiles(g, n - 1, i); }
  }
}
