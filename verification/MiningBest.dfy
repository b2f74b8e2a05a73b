// The best hash of a unit over whole runs: between two crashes it is the least of the texts published
// for the unit, with the nonce published beside it (src/mining/work_allocator.cpp:313-328,
// src/mining/cpu_miner.cpp:85-101).
module MiningBest {
  import opened Arith
  import opened WorkUnits
  import opened WorkAllocation
  import opened MiningRuns
  import opened MiningSafety
  import opened MiningProgress
  import HashOrders

  // ----- what is published for a unit -----

  /** A displayed hash and its nonce, as a worker publishes them and a unit records them. */
  datatype Report = Report(text: string, nonce: Option<nat>)

  const NOTHING: Report := Report("", None)

  /** The better of two reports; an empty text is none, and the earlier of two equal texts stays. */
  function Better(best: Report, report: Report): Report {
    if report.text != "" && (best.text == "" || TextLess(report.text, best.text)) then report else best
  }

  function BestOf(best: Report, reports: seq<Report>): Report
    decreases |reports|
  {
    if reports == [] then best else BestOf(Better(best, reports[0]), reports[1..])
  }

  /** What a step publishes for the unit, if anything. */
  function ReportOf(s: Sys, step: Step, id: string): seq<Report> {
    if step.Publish? && step.w in s.held && s.held[step.w].id == id then [Report(step.best, step.bestNonce)] else []
  }

  /** What a run publishes for the unit, in order. */
  ghost function Reports(s: Sys, steps: seq<Step>, id: string): seq<Report>
    requires Runs(s, steps)
    decreases |steps|
  {
    if steps == [] then [] else ReportOf(s, steps[0], id) + Reports(After(s, steps[0]), steps[1..], id)
  }

  ghost predicate HasId(units: seq<WorkUnit>, id: string) { exists i: nat :: IdAt(units, i, id) }

  predicate IdAt(units: seq<WorkUnit>, i: nat, id: string) { i < |units| && units[i].id == id }

  /** What the unit records. */
  function Recorded(u: WorkUnit): Report { Report(u.bestHash, u.bestNonce) }

  /** The record of the unit of that name, nothing when there is no such unit. */
  function BestAt(units: seq<WorkUnit>, id: string): Report {
    match Find(units, WithId(id))
    case None => NOTHING
    case Some(k) => Recorded(units[k])
  }

  lemma BestIs(units: seq<WorkUnit>, i: nat)
    requires AllApart(units) && i < |units|
    ensures BestAt(units, units[i].id) == Recorded(units[i])
  {
    var k := Find(units, WithId(units[i].id)).value;
    assert WithId(units[i].id).Holds(units[i]);
    assert k == i || Apart(units[k], units[i]);
  }

  lemma NoBest(units: seq<WorkUnit>, id: string)
    requires !HasId(units, id)
    ensures BestAt(units, id) == NOTHING
  {
    var k := Find(units, WithId(id));
    if k.Some? { assert IdAt(units, k.value, id); }
  }

  // ----- identifiers never come back -----

  /** The identifier belongs to a group handed out so far. */
  ghost predicate Named(m: Meta, id: string) { exists o: Origin :: NamedBy(m, id, o) }

  ghost predicate NamedBy(m: Meta, id: string, o: Origin) {
    o.Counter() < m.nextCounter && id == UnitId(m.lastJobId, m.extranonce2Size, o)
  }

  /** A unit of the new list: one of the old list with its best hash, or a new one without. */
  ghost predicate Inherited(a: Alloc, v: WorkUnit) {
    (Recorded(v) == NOTHING && !Named(a.meta, v.id))
    || exists i: nat :: IdAt(a.units, i, v.id) && Recorded(a.units[i]) == Recorded(v)
  }

  ghost predicate AllInherited(a: Alloc, units: seq<WorkUnit>) {
    forall j: nat :: j < |units| ==> Inherited(a, units[j])
  }

  lemma FromOld(a: Alloc, v: WorkUnit, i: nat)
    requires IdAt(a.units, i, v.id) && Recorded(a.units[i]) == Recorded(v)
    ensures Inherited(a, v)
  {}

  lemma IssuedIsNamed(a: Alloc, i: nat)
    requires Good(a) && i < |a.units|
    ensures Named(a.meta, a.units[i].id)
  {
    hide UnitId, Hex;
    assert UnitOk(a.meta, a.units[i]);
    var o :| FromOrigin(a.meta, a.units[i], o);
    assert NamedBy(a.meta, a.units[i].id, o);
  }

  /** The units of the next group are new. */
  lemma GroupIsNew(a: Alloc, cpuWorkers: nat, generation: nat, kind: Kind, i: nat)
    requires Good(a) && a.meta.nextCounter < Capacity(a.meta.extranonce2Size)
    requires var m := a.meta;
      i < |GroupUnits(m.lastJobId, m.lastPrevhash, m.extranonce2Size, cpuWorkers, generation, kind, m.nextCounter)|
    ensures var m := a.meta;
      var g := GroupUnits(m.lastJobId, m.lastPrevhash, m.extranonce2Size, cpuWorkers, generation, kind, m.nextCounter);
      Inherited(a, g[i])
  {
    hide UnitId, Hex;
    var m := a.meta;
    var g := GroupUnits(m.lastJobId, m.lastPrevhash, m.extranonce2Size, cpuWorkers, generation, kind, m.nextCounter);
    var p := LaterGroup(generation, m.nextCounter, kind, i);
    GroupUnitsAt(m.lastJobId, m.lastPrevhash, m.extranonce2Size, cpuWorkers, generation, kind, m.nextCounter, i);
    if Named(m, g[i].id) {
      var o :| NamedBy(m, g[i].id, o);
      UnitIdInjective(m.lastJobId, m.extranonce2Size, o, p);
    }
  }

  // ----- the steps that publish nothing -----

  lemma SameInherits(a: Alloc)
    ensures AllInherited(a, a.units)
  {
    forall j: nat | j < |a.units| ensures Inherited(a, a.units[j]) { FromOld(a, a.units[j], j); }
  }

  lemma ReplaceInherits(a: Alloc, k: nat, v: WorkUnit)
    requires k < |a.units| && v.id == a.units[k].id && Recorded(v) == Recorded(a.units[k])
    ensures AllInherited(a, a.units[k := v])
  {
    var after := a.units[k := v];
    forall j: nat | j < |after| ensures Inherited(a, after[j]) { FromOld(a, after[j], j); }
  }

  lemma TakeInherits(s: Sys, w: nat, kind: Kind)
    requires Acquire(s.alloc, kind).1.Some?
    ensures AllInherited(s.alloc, Taken(s, w, kind).alloc.units)
  {
    var k := Find(s.alloc.units, Acquirable(kind)).value;
    ReplaceInherits(s.alloc, k, s.alloc.units[k].(status := InProgress));
  }

  lemma GiveBackInherits(s: Sys, w: nat)
    requires Live(s) && MayGiveBack(s, w)
    ensures AllInherited(s.alloc, GivenBack(s, w).alloc.units)
  {
    hide Live, AllInherited;
    var k := HeldUnit(s, w);
    ReplaceInherits(s.alloc, k, s.alloc.units[k].(status := Pending));
  }

  /** Old units, each unchanged in name and best hash, and perhaps the next group. */
  lemma GroupInherits(a: Alloc, rest: seq<WorkUnit>, cpuWorkers: nat, generation: nat, kind: Kind)
    requires Good(a) && a.meta.nextCounter < Capacity(a.meta.extranonce2Size) && AllInherited(a, rest)
    ensures AllInherited(a, WithGroup(a.(units := rest), cpuWorkers, generation, kind).units)
  {
    hide Good, Inherited, GroupUnits, Capacity;
    var m := a.meta;
    var g := GroupUnits(m.lastJobId, m.lastPrevhash, m.extranonce2Size, cpuWorkers, generation, kind, m.nextCounter);
    forall j: nat | j < |rest + g|
      ensures Inherited(a, (rest + g)[j])
    {
      if j >= |rest| { GroupIsNew(a, cpuWorkers, generation, kind, j - |rest|); }
    }
  }

  /** The counter never goes back, and the job stays. */
  ghost predicate Later(m: Meta, n: Meta) {
    n.nextCounter >= m.nextCounter && n.lastJobId == m.lastJobId && n.extranonce2Size == m.extranonce2Size
  }

  lemma FinishInherits(s: Sys, w: nat)
    requires Live(s) && MayFinish(s, w) && !FinishedBy(s, w).exhausted
    ensures AllInherited(s.alloc, FinishedBy(s, w).alloc.units) && Later(s.alloc.meta, FinishedBy(s, w).alloc.meta)
  {
    hide UnitId, Hex, Accounted, FilesOk, NothingLost, HandsOk, CompleteUnit, GroupUnits, GroupOpen, Inherited;
    var k := HeldUnit(s, w);
    var u, rest := s.alloc.units[k], Without(s.alloc.units, k);
    GoodIsPlain(s.alloc);
    CompleteEffect(s.alloc, k);
    forall j: nat | j < |rest|
      ensures Inherited(s.alloc, rest[j])
    {
      FromOld(s.alloc, rest[j], Shifted(k, j));
    }
    if !GroupOpen(s.alloc, k) { GroupInherits(s.alloc, rest, s.alloc.meta.cpuWorkers, u.generation, u.worker); }
  }

  lemma PrepareInherits(s: Sys, cpuWorkers: nat, gpu: bool, generation: nat)
    requires Live(s) && CounterFits(s.alloc) && !Prepared(s, cpuWorkers, gpu, generation).exhausted
    ensures var t := Prepared(s, cpuWorkers, gpu, generation);
      AllInherited(s.alloc, t.alloc.units) && Later(s.alloc.meta, t.alloc.meta)
  {
    hide UnitId, Hex, Accounted, FilesOk, NothingLost, HandsOk, Prepare, GroupUnits, HasOpen, Inherited;
    var a := s.alloc;
    GoodIsPlain(a);
    PrepareEffect(s.job, a, cpuWorkers, gpu, generation);
    var armed := Apply(a.units, RearmFor(generation));
    forall j: nat | j < |armed|
      ensures Inherited(a, armed[j])
    {
      FromOld(a, armed[j], j);
    }
    if a.meta.nextCounter < Capacity(a.meta.extranonce2Size) { GroupInherits(a, armed, cpuWorkers, generation, Gpu); }
  }

  lemma SilentInherits(s: Sys, step: Step)
    requires Inv(s) && s.ready && Enabled(s, step) && !step.Crash? && !step.Publish? && !After(s, step).exhausted
    ensures AllInherited(s.alloc, After(s, step).alloc.units) && Later(s.alloc.meta, After(s, step).alloc.meta)
  {
    hide Live, Foreign, AllInherited, Taken, FinishedBy, GivenBack, Prepared, Acquire, Compatible;
    HandsAreLive(s);
    SameInherits(s.alloc);
    match step
    case Take(w, kind) => TakeInherits(s, w, kind); TakeKeepsMeta(s, w, kind);
    case Hash(w) =>
    case Finish(w) => FinishInherits(s, w);
    case GiveBack(w) => GiveBackInherits(s, w); GiveBackKeepsMeta(s, w);
    case PrepareAgain(cpuWorkers, gpu, generation) => PrepareInherits(s, cpuWorkers, gpu, generation);
    case BeginSave =>
    case CommitSave =>
    case FailSave =>
  }

  // ----- publication -----

  /** A publication makes the text the best of its unit if it is better, and touches no other unit. */
  lemma PublishBest(s: Sys, w: nat, best: string, bestNonce: Option<nat>, id: string)
    requires Live(s) && MayPublish(s, w)
    ensures var t := PublishedBy(s, w, best, bestNonce);
      && t.alloc.meta == s.alloc.meta && (HasId(t.alloc.units, id) <==> HasId(s.alloc.units, id))
      && (HasId(s.alloc.units, id) ==>
           BestAt(t.alloc.units, id)
             == if s.held[w].id == id then Better(BestAt(s.alloc.units, id), Report(best, bestNonce))
                else BestAt(s.alloc.units, id))
  {
    hide UnitId, Hex, Accounted, FilesOk, NothingLost, HandsOk, BestAt;
    PublishKeepsLive(s, w, best, bestNonce);
    var k := HeldUnit(s, w);
    var units, after := s.alloc.units, PublishedBy(s, w, best, bestNonce).alloc.units;
    assert after == units[k := Progressed(units[k], s.held[w].cursor, s.held[w].pending, best, bestNonce)];
    forall i: nat
      ensures IdAt(after, i, id) <==> IdAt(units, i, id)
    {}
    if HasId(units, id) {
      var i: nat :| IdAt(units, i, id);
      BestIs(units, i);
      BestIs(after, i);
      BestIs(units, k);
      BestIs(after, k);
      if i != k { assert if i < k then Apart(units[i], units[k]) else Apart(units[k], units[i]); }
    }
  }

  /** One step: the best of a unit that is there afterwards is the best it had and the text published
      for it, and a unit that was there before and is gone never had its name given again. */
  lemma StepBest(s: Sys, step: Step, id: string)
    requires Inv(s) && s.ready && Enabled(s, step) && !step.Crash? && !After(s, step).exhausted
    requires HasId(s.alloc.units, id) || !Named(s.alloc.meta, id)
    ensures var t := After(s, step);
      && (HasId(t.alloc.units, id) ==>
            BestAt(t.alloc.units, id) == BestOf(BestAt(s.alloc.units, id), ReportOf(s, step, id)))
      && (!HasId(s.alloc.units, id) ==> ReportOf(s, step, id) == [])
  {
    hide Live, Foreign, Taken, PublishedBy, FinishedBy, GivenBack, Prepared, Acquire, Compatible, BestAt, Better,
      HasId, Named, Inv, After, Enabled;
    var t := After(s, step);
    ReadyIsLive(s, step);
    if !HasId(s.alloc.units, id) { NoReportFor(s, step, id); }
    if step.Publish? {
      PublishStep(s, step, id);
    } else {
      SilentInherits(s, step);
      StepKeepsInv(s, step);
      if HasId(t.alloc.units, id) {
        AfterIsGood(s, step);
        InheritedBest(s.alloc, t.alloc, id);
      }
    }
  }

  lemma ReadyIsLive(s: Sys, step: Step)
    requires Inv(s) && s.ready && Enabled(s, step)
    ensures Live(s) && Good(s.alloc)
  {
    hide Compatible, Accounted, FilesOk, NothingLost, HandsOk, Good;
    HandsAreLive(s);
  }

  lemma AfterIsGood(s: Sys, step: Step)
    requires Inv(s) && s.ready && Enabled(s, step) && !step.Crash? && !After(s, step).exhausted
    ensures Good(After(s, step).alloc)
  {
    hide Inv, Good, Live;
    StepKeepsInv(s, step);
    ReadyStays(s, step);
    LiveWhenReady(After(s, step));
    LiveIsGood(After(s, step));
  }

  lemma NoReportFor(s: Sys, step: Step, id: string)
    requires Live(s) && !HasId(s.alloc.units, id)
    ensures ReportOf(s, step, id) == []
  {
    hide Live;
    if step.Publish? && step.w in s.held {
      var k := HeldUnit(s, step.w);
      assert IdAt(s.alloc.units, k, s.held[step.w].id);
    }
  }

  lemma PublishStep(s: Sys, step: Step, id: string)
    requires Live(s) && step.Publish? && Enabled(s, step)
    ensures var t := After(s, step);
      && (HasId(t.alloc.units, id) ==>
            BestAt(t.alloc.units, id) == BestOf(BestAt(s.alloc.units, id), ReportOf(s, step, id)))
  {
    hide Live, BestAt, HasId, Better;
    PublishBest(s, step.w, step.best, step.bestNonce, id);
    assert [Report(step.best, step.bestNonce)][1..] == [];
  }

  lemma InheritedBest(a: Alloc, b: Alloc, id: string)
    requires Good(a) && Good(b) && AllInherited(a, b.units) && HasId(b.units, id)
    requires HasId(a.units, id) || !Named(a.meta, id)
    ensures BestAt(b.units, id) == BestAt(a.units, id)
  {
    hide UnitId, Hex, BestAt, Named, UnitOk;
    var j: nat :| IdAt(b.units, j, id);
    BestIs(b.units, j);
    if i: nat :| IdAt(a.units, i, id) && Recorded(a.units[i]) == Recorded(b.units[j]) {
      BestIs(a.units, i);
    } else {
      if i: nat :| IdAt(a.units, i, id) { IssuedIsNamed(a, i); }
      NoBest(a.units, id);
    }
  }

  // ----- whole runs -----

  lemma {:induction false} BestOfAppend(best: Report, first: seq<Report>, second: seq<Report>)
    ensures BestOf(best, first + second) == BestOf(BestOf(best, first), second)
    decreases |first|
  {
    if first == [] {
      assert first + second == second;
    } else {
      assert (first + second)[1..] == first[1..] + second;
      BestOfAppend(Better(best, first[0]), first[1..], second);
    }
  }

  /** A name that is taken and not in the list never comes back. */
  lemma {:induction false} NeverAgain(s: Sys, steps: seq<Step>, id: string)
    requires Inv(s) && Tidy(s) && s.ready && Runs(s, steps) && NoCrash(steps) && !Final(s, steps).exhausted
    requires Named(s.alloc.meta, id) && !HasId(s.alloc.units, id)
    ensures !HasId(Final(s, steps).alloc.units, id)
    decreases |steps|
  {
    hide Inv, Tidy, After, Enabled, Named, HasId;
    if steps != [] {
      var u := After(s, steps[0]);
      assert !steps[0].Crash? && NoCrash(steps[1..]);
      if u.exhausted { NothingAfterExhaustion(u, steps[1..]); }
      ReadyStays(s, steps[0]);
      StepKeepsInv(s, steps[0]);
      StepKeepsTidy(s, steps[0]);
      StepForgets(s, steps[0], id);
      NeverAgain(u, steps[1..], id);
    }
  }

  lemma StepForgets(s: Sys, step: Step, id: string)
    requires Inv(s) && s.ready && Enabled(s, step) && !step.Crash? && !After(s, step).exhausted
    requires Named(s.alloc.meta, id) && !HasId(s.alloc.units, id)
    ensures Named(After(s, step).alloc.meta, id) && !HasId(After(s, step).alloc.units, id)
  {
    hide Inv, Live, After, Enabled, Acquire;
    ReadyIsLive(s, step);
    if step.Publish? {
      PublishKeepsNames(s, step, id);
    } else {
      SilentInherits(s, step);
      NamesStay(s.alloc.meta, After(s, step).alloc.meta, id);
    }
  }

  lemma PublishKeepsNames(s: Sys, step: Step, id: string)
    requires Live(s) && step.Publish? && Enabled(s, step)
    ensures After(s, step).alloc.meta == s.alloc.meta
    ensures HasId(After(s, step).alloc.units, id) <==> HasId(s.alloc.units, id)
  {
    hide Live, BestAt, HasId, Better;
    PublishBest(s, step.w, step.best, step.bestNonce, id);
  }

  lemma NamesStay(m: Meta, n: Meta, id: string)
    requires Named(m, id) && Later(m, n)
    ensures Named(n, id)
  {
    hide UnitId;
    var o :| NamedBy(m, id, o);
    assert NamedBy(n, id, o);
  }

  /** Between crashes the best hash of every unit is the best of what it was and of all the texts
      published for it; a unit created on the way starts with none. */
  lemma {:induction false} BestOverRun(s: Sys, steps: seq<Step>, id: string)
    requires Inv(s) && Tidy(s) && s.ready && Runs(s, steps) && NoCrash(steps) && !Final(s, steps).exhausted
    requires HasId(Final(s, steps).alloc.units, id)
    ensures BestAt(Final(s, steps).alloc.units, id) == BestOf(BestAt(s.alloc.units, id), Reports(s, steps, id))
    decreases |steps|
  {
    hide Inv, Tidy, After, Enabled, Named, HasId, BestAt, ReportOf;
    if !HasId(s.alloc.units, id) && Named(s.alloc.meta, id) { NeverAgain(s, steps, id); }
    if steps != [] {
      var u := After(s, steps[0]);
      assert !steps[0].Crash? && NoCrash(steps[1..]);
      if u.exhausted { NothingAfterExhaustion(u, steps[1..]); }
      ReadyStays(s, steps[0]);
      StepKeepsInv(s, steps[0]);
      StepKeepsTidy(s, steps[0]);
      BestOverRun(u, steps[1..], id);
      StepBest(s, steps[0], id);
      if !HasId(u.alloc.units, id) { StillUnnamed(s, steps[0], steps[1..], id); }
      BestOfAppend(BestAt(s.alloc.units, id), ReportOf(s, steps[0], id), Reports(u, steps[1..], id));
    }
  }

  /** A unit that is not there yet after a step was not there before it either, or it would never return. */
  lemma StillUnnamed(s: Sys, step: Step, rest: seq<Step>, id: string)
    requires Inv(s) && s.ready && Enabled(s, step) && !step.Crash? && !After(s, step).exhausted
    requires Inv(After(s, step)) && Tidy(After(s, step)) && After(s, step).ready
    requires Runs(After(s, step), rest) && NoCrash(rest) && !Final(After(s, step), rest).exhausted
    requires !HasId(After(s, step).alloc.units, id) && HasId(Final(After(s, step), rest).alloc.units, id)
    ensures BestAt(After(s, step).alloc.units, id) == NOTHING == BestAt(s.alloc.units, id)
    ensures ReportOf(s, step, id) == []
  {
    hide Inv, Tidy, After, Enabled, Named, HasId, BestAt, ReportOf, Live, Runs, Final;
    var u := After(s, step);
    ReadyIsLive(s, step);
    if HasId(s.alloc.units, id) {
      HeldNameStays(s, step, id);
      NeverAgain(u, rest, id);
    }
    NoReportFor(s, step, id);
    NoBest(s.alloc.units, id);
    NoBest(u.alloc.units, id);
  }

  lemma HeldNameStays(s: Sys, step: Step, id: string)
    requires Inv(s) && s.ready && Enabled(s, step) && !step.Crash? && !After(s, step).exhausted
    requires HasId(s.alloc.units, id)
    ensures Named(After(s, step).alloc.meta, id)
  {
    hide Inv, Live, After, Enabled, Acquire, Named, Good;
    ReadyIsLive(s, step);
    var i: nat :| IdAt(s.alloc.units, i, id);
    IssuedIsNamed(s.alloc, i);
    if step.Publish? {
      PublishKeepsNames(s, step, id);
    } else {
      SilentInherits(s, step);
      NamesStay(s.alloc.meta, After(s, step).alloc.meta, id);
    }
  }

  // ----- the least number -----

  /** Reports that display digests read as numbers, each with its nonce. */
  function Displays(numbers: seq<nat>, nonces: seq<Option<nat>>): (r: seq<Report>)
    requires |numbers| == |nonces|
    ensures |r| == |numbers| && forall i :: 0 <= i < |r| ==> r[i] == Report(Hex(numbers[i], 64), nonces[i])
  {
    seq(|numbers|, i requires 0 <= i < |numbers| => Report(Hex(numbers[i], 64), nonces[i]))
  }

  /** Number j is the first of the least ones. */
  predicate FirstLeast(numbers: seq<nat>, j: nat) {
    && j < |numbers|
    && (forall i :: 0 <= i < |numbers| ==> numbers[j] <= numbers[i])
    && forall i :: 0 <= i < j ==> numbers[j] < numbers[i]
  }

  /** The best of displayed digests is the first display of the least. */
  lemma {:induction false} BestIsLeast(numbers: seq<nat>, nonces: seq<Option<nat>>) returns (j: nat)
    requires |numbers| == |nonces| > 0 && forall i :: 0 <= i < |numbers| ==> numbers[i] < Pow(16, 64)
    ensures FirstLeast(numbers, j)
    ensures BestOf(NOTHING, Displays(numbers, nonces)) == Report(Hex(numbers[j], 64), nonces[j])
  {
    hide Hex, TextLess, Pow;
    var n := |numbers| - 1;
    var reports := Displays(numbers, nonces);
    var last := reports[n];
    assert reports == Displays(numbers[..n], nonces[..n]) + [last];
    BestOfAppend(NOTHING, reports[..n], [last]);
    assert [last][1..] == [];
    HexLength(numbers[n], 64);
    if n == 0 {
      assert reports[..n] == [];
      return 0;
    }
    j := BestIsLeast(numbers[..n], nonces[..n]);
    HexLength(numbers[j], 64);
    HashOrders.HexOrder(numbers[n], numbers[j], 64);
    if numbers[n] < numbers[j] { j := n; }
  }

  /** Of the digests published for it the unit records the first least one, and nothing when there is none. */
  ghost predicate RecordsLeast(u: WorkUnit, numbers: seq<nat>, nonces: seq<Option<nat>>)
    requires |numbers| == |nonces|
  {
    if numbers == [] then u.bestHash == "" && u.bestNonce == None
    else exists j: nat :: FirstLeast(numbers, j) && u.bestHash == Hex(numbers[j], 64) && u.bestNonce == nonces[j]
  }

  /** In every run without a crash, a unit records the least of the digests published for it, with the nonce of
      its first publication, and nothing before the first. */
  lemma BestIsLeastPublished(s: Sys, steps: seq<Step>, k: nat, numbers: seq<nat>, nonces: seq<Option<nat>>)
    requires Initial(s) && Runs(s, steps) && NoCrash(steps) && !Final(s, steps).exhausted
    requires k < |Final(s, steps).alloc.units| && |numbers| == |nonces|
    requires Reports(s, steps, Final(s, steps).alloc.units[k].id) == Displays(numbers, nonces)
    requires forall i :: 0 <= i < |numbers| ==> numbers[i] < Pow(16, 64)
    ensures RecordsLeast(Final(s, steps).alloc.units[k], numbers, nonces)
  {
    hide Inv, Tidy, After, Enabled, BestAt, Reports, Runs, Final, Initial, Live, Hex, TextLess, Good, HasId, Pow,
      FirstLeast, BestOf;
    InitialInv(s);
    InitialIsTidy(s);
    FreshStart(s);
    RunIsSteady(s, steps, Cpu);
    var t := Final(s, steps);
    LiveWhenReady(t);
    var id := t.alloc.units[k].id;
    HasUnit(t.alloc.units, k);
    BestOverRun(s, steps, id);
    UnitBest(t, k);
    NoBestAtFirst(s, id);
    if numbers == [] { NothingPublished(nonces); } else { var j := BestIsLeast(numbers, nonces); }
  }

  lemma NothingPublished(nonces: seq<Option<nat>>)
    requires nonces == []
    ensures BestOf(NOTHING, Displays([], nonces)) == NOTHING
  {}

  lemma HasUnit(units: seq<WorkUnit>, k: nat)
    requires k < |units|
    ensures HasId(units, units[k].id)
  {
    assert IdAt(units, k, units[k].id);
  }

  lemma UnitBest(t: Sys, k: nat)
    requires Live(t) && k < |t.alloc.units|
    ensures BestAt(t.alloc.units, t.alloc.units[k].id) == Recorded(t.alloc.units[k])
  {
    hide UnitOk, BestAt, Accounted, FilesOk, NothingLost, HandsOk;
    BestIs(t.alloc.units, k);
  }

  /** The units of a first prepare have no best hash. */
  lemma NoBestAtFirst(s: Sys, id: string)
    requires Initial(s)
    ensures BestAt(s.alloc.units, id) == NOTHING
  {
    hide UnitId, Hex, Prepare, Compatible, InitialUnits, SliceStart;
    var a, cpuWorkers, gpu, generation :| StartedFrom(s, a, cpuWorkers, gpu, generation);
    StartedIsRestart(a, s.job, cpuWorkers, gpu, generation);
    forall i | 0 <= i < |s.alloc.units|
      ensures Recorded(s.alloc.units[i]) == NOTHING
    {
      InitialUnitsAt(s.job, cpuWorkers, gpu, generation, i);
    }
  }
}
