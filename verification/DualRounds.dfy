// Predicting whole rounds of a candidate execution from a recorded reference execution, the cost
// ledger, and the oracle that checks each prediction (tools/research_dual_domain_analysis.py).
module DualRounds {
  import opened Sha256
  import opened DualWords

  datatype Identity = Identity(sha: nat, compression: nat, round: nat)

  /** One recorded round. */
  datatype RoundRecord = RoundRecord(identity: Identity, k: Word, w: Word, sum0: Word, sum1: Word, choice: Word,
                                     majority: Word, temp1: Word, temp2: Word, newA: Word, newE: Word,
                                     before: Vars, after: Vars)

  /** The record of a round that was really executed. */
  function TrueRecord(identity: Identity, k: Word, w: Word, v: Vars): RoundRecord {
    RoundRecord(identity, k, w, BigSigma0(v.a), BigSigma1(v.e), Ch(v.e, v.f, v.g), Maj(v.a, v.b, v.c),
                Temp1(v, k, w), Temp2(v), Plus(Temp1(v, k, w), Temp2(v)), Plus(v.d, Temp1(v, k, w)), v, Step(v, k, w))
  }

  /** recorded_reference_components: the record must be one of a real round. */
  function CheckReference(r: RoundRecord, identity: Identity): Result<()> {
    var v := r.before;
    var t1 := Plus(Plus(Plus(Plus(v.h, BigSigma1(v.e)), Ch(v.e, v.f, v.g)), r.k), r.w);
    var t2 := Plus(BigSigma0(v.a), Maj(v.a, v.b, v.c));
    if r.identity != identity then Err(BadIdentity)
    else if r.sum0 != BigSigma0(v.a) || r.sum1 != BigSigma1(v.e)
      || r.choice != Ch(v.e, v.f, v.g) || r.majority != Maj(v.a, v.b, v.c) then Err(PrimitiveMismatch)
    else if r.temp1 != t1 || r.temp2 != t2 || r.newA != Plus(t1, t2) || r.newE != Plus(v.d, t1)
      then Err(AdditionMismatch)
    else if r.after != Vars(r.newA, v.a, v.b, v.c, r.newE, v.e, v.f, v.g) then Err(OutputMismatch)
    else Ok(())
  }

  /** The check accepts exactly the records of real rounds. */
  lemma ReferenceCheckIsExact(r: RoundRecord, identity: Identity)
    ensures CheckReference(r, identity).Ok? <==> r == TrueRecord(identity, r.k, r.w, r.before)
  {
    hide Plus, BigSigma0, BigSigma1, Ch, Maj;
  }

  // ----- states of dual words -----

  datatype DualVars = DualVars(a: DualWord, b: DualWord, c: DualWord, d: DualWord,
                               e: DualWord, f: DualWord, g: DualWord, h: DualWord)

  function ReferenceState(s: DualVars): Vars {
    Vars(s.a.reference, s.b.reference, s.c.reference, s.d.reference,
         s.e.reference, s.f.reference, s.g.reference, s.h.reference)
  }

  function CandidateState(s: DualVars): Vars {
    Vars(s.a.candidate, s.b.candidate, s.c.candidate, s.d.candidate,
         s.e.candidate, s.f.candidate, s.g.candidate, s.h.candidate)
  }

  /** The one represented state of two absolute states. */
  function DualState(r: Vars, c: Vars): DualVars {
    DualVars(Dual(r.a, c.a), Dual(r.b, c.b), Dual(r.c, c.c), Dual(r.d, c.d),
             Dual(r.e, c.e), Dual(r.f, c.f), Dual(r.g, c.g), Dual(r.h, c.h))
  }

  predicate Represented(s: DualVars) { s == DualState(ReferenceState(s), CandidateState(s)) }

  lemma DualIsConsistent(r: Word, c: Word)
    ensures Consistent(Dual(r, c))
  {
    hide Xor, Plus, Minus;
    ConsistentIsDual(Dual(r, c));
  }

  // ----- the operations of a round -----

  datatype Operations = Operations(sum0: Prediction, sum1: Prediction, choice: Prediction, majority: Prediction,
                                   temp1: Prediction, temp2: Prediction, newA: Prediction, newE: Prediction)

  datatype RoundPrediction = RoundPrediction(identity: Identity, k: Word, input: DualVars, w: DualWord,
                                             operations: Operations, output: DualVars, cost: nat)

  function Temp1Operands(input: DualVars, sum1: Prediction, choice: Prediction, k: DualWord, w: DualWord)
    : seq<DualWord>
  {
    [input.h, sum1.value, choice.value, k, w]
  }

  /** The eight predictions of a round, in the order they are made; a failing one stops the round. */
  method PredictOperations(r: RoundRecord, input: DualVars, k: DualWord, w: DualWord) returns (res: Result<Operations>)
    ensures res == OperationsOf(r, input, k, w)
  {
    hide PredictSigma, PredictBoolean, PredictAddition;
    var sum0 := PredictSigma(Sum0, input.a, r.sum0);
    if sum0.Err? { return Err(sum0.error); }
    var sum1 := PredictSigma(Sum1, input.e, r.sum1);
    if sum1.Err? { return Err(sum1.error); }
    var choice := PredictBoolean(Choice, input.e, input.f, input.g, r.choice);
    if choice.Err? { return Err(choice.error); }
    var majority := PredictBoolean(Majority, input.a, input.b, input.c, r.majority);
    if majority.Err? { return Err(majority.error); }
    var temp1 := PredictAddition(Temp1Operands(input, sum1.value, choice.value, k, w), r.temp1);
    if temp1.Err? { return Err(temp1.error); }
    var temp2 := PredictAddition([sum0.value.value, majority.value.value], r.temp2);
    if temp2.Err? { return Err(temp2.error); }
    var newA := PredictAddition([temp1.value.value, temp2.value.value], r.newA);
    if newA.Err? { return Err(newA.error); }
    var newE := PredictAddition([input.d, temp1.value.value], r.newE);
    if newE.Err? { return Err(newE.error); }
    res := Ok(Operations(sum0.value, sum1.value, choice.value, majority.value,
                         temp1.value, temp2.value, newA.value, newE.value));
  }

  function OperationsOf(r: RoundRecord, input: DualVars, k: DualWord, w: DualWord): Result<Operations> {
    match PredictSigma(Sum0, input.a, r.sum0) case Err(e) => Err(e) case Ok(sum0) =>
    match PredictSigma(Sum1, input.e, r.sum1) case Err(e) => Err(e) case Ok(sum1) =>
    match PredictBoolean(Choice, input.e, input.f, input.g, r.choice) case Err(e) => Err(e) case Ok(choice) =>
    match PredictBoolean(Majority, input.a, input.b, input.c, r.majority) case Err(e) => Err(e) case Ok(majority) =>
    match PredictAddition(Temp1Operands(input, sum1, choice, k, w), r.temp1) case Err(e) => Err(e) case Ok(temp1) =>
    match PredictAddition([sum0.value, majority.value], r.temp2) case Err(e) => Err(e) case Ok(temp2) =>
    match PredictAddition([temp1.value, temp2.value], r.newA) case Err(e) => Err(e) case Ok(newA) =>
    match PredictAddition([input.d, temp1.value], r.newE) case Err(e) => Err(e) case Ok(newE) =>
    Ok(Operations(sum0, sum1, choice, majority, temp1, temp2, newA, newE))
  }

  /** What an exact round predicts. */
  ghost predicate ExactOperations(o: Operations, reference: RoundRecord, candidate: RoundRecord) {
    && Exact(o.sum0, reference.sum0, candidate.sum0, 7) && Exact(o.sum1, reference.sum1, candidate.sum1, 7)
    && Exact(o.choice, reference.choice, candidate.choice, 6)
      && Exact(o.majority, reference.majority, candidate.majority, 7)
    && Exact(o.temp1, reference.temp1, candidate.temp1, 6) && Exact(o.temp2, reference.temp2, candidate.temp2, 3)
    && Exact(o.newA, reference.newA, candidate.newA, 3) && Exact(o.newE, reference.newE, candidate.newE, 3)
  }

  /** The two true values, by a valid route that costs no more than the direct one. */
  ghost predicate Exact(p: Prediction, reference: Word, candidate: Word, direct: nat) {
    p.value == Dual(reference, candidate) && Chosen(p).Ok? && Cost(p) <= direct
  }

  function Cost(p: Prediction): nat {
    if Chosen(p).Ok? then Chosen(p).value.breakdown.Total() else 0
  }

  lemma SigmaExact(f: Sigma, r: Word, c: Word)
    ensures var p := PredictSigma(f, Dual(r, c), f.Apply(r)); p.Ok? && Exact(p.value, f.Apply(r), f.Apply(c), 7)
  {
    hide PredictSigma, Dual, Chosen, Sigma.Apply;
    DualIsConsistent(r, c);
    DualParts(r, c);
    SigmaPredicted(f, Dual(r, c), f.Apply(r));
  }

  lemma DualParts(r: Word, c: Word)
    ensures Dual(r, c).reference == r && Dual(r, c).candidate == c
  {}

  lemma BooleanExact(f: Boolean, x: Word, y: Word, z: Word, cx: Word, cy: Word, cz: Word)
    ensures var p := PredictBoolean(f, Dual(x, cx), Dual(y, cy), Dual(z, cz), f.Apply(x, y, z));
      p.Ok? && Exact(p.value, f.Apply(x, y, z), f.Apply(cx, cy, cz), f.DirectBreakdown().Total())
  {
    hide PredictBoolean, Dual, Chosen, Boolean.Apply;
    DualIsConsistent(x, cx);
    DualIsConsistent(y, cy);
    DualIsConsistent(z, cz);
    DualParts(x, cx);
    DualParts(y, cy);
    DualParts(z, cz);
    BooleanPredicted(f, Dual(x, cx), Dual(y, cy), Dual(z, cz), f.Apply(x, y, z));
  }

  lemma TwoTermSums(x: Word, y: Word)
    ensures SumOf([x, y]) == Plus(x, y)
  {
    hide Plus;
    assert [x, y][..1] == [x] && [x][..0] == [];
    assert SumOf([x]) == Plus(SumOf([]), x);
    NeutralZero(x);
  }

  lemma FiveTermSums(h: Word, s: Word, c: Word, k: Word, w: Word)
    ensures SumOf([h, s, c, k, w]) == Plus(Plus(Plus(Plus(h, s), c), k), w)
  {
    hide Plus;
    TwoTermSums(h, s);
    assert [h, s, c][..2] == [h, s] && [h, s, c, k][..3] == [h, s, c] && [h, s, c, k, w][..4] == [h, s, c, k];
    assert SumOf([h, s, c]) == Plus(SumOf([h, s]), c);
    assert SumOf([h, s, c, k]) == Plus(SumOf([h, s, c]), k);
  }

  lemma PairExact(x: Word, y: Word, cx: Word, cy: Word)
    ensures var p := PredictAddition([Dual(x, cx), Dual(y, cy)], Plus(x, y));
      p.Ok? && Exact(p.value, Plus(x, y), Plus(cx, cy), 3)
  {
    hide PredictAddition, Dual, Chosen, Plus, SumOf, NonzeroDeltas, Consistent;
    var operands := [Dual(x, cx), Dual(y, cy)];
    DualIsConsistent(x, cx);
    DualIsConsistent(y, cy);
    DualParts(x, cx);
    DualParts(y, cy);
    assert References(operands) == [x, y] && Candidates(operands) == [cx, cy];
    TwoTermSums(x, y);
    TwoTermSums(cx, cy);
    AdditionPredicted(operands, Plus(x, y));
  }

  /** The five operands of temp1; k is the same in both executions, so at most four deltas are nonzero. */
  lemma Temp1Exact(h: Word, s: Word, c: Word, k: Word, w: Word, ch: Word, cs: Word, cc: Word, cw: Word)
    ensures var p := PredictAddition([Dual(h, ch), Dual(s, cs), Dual(c, cc), Dual(k, k), Dual(w, cw)],
                                     Plus(Plus(Plus(Plus(h, s), c), k), w));
      p.Ok? && Exact(p.value, Plus(Plus(Plus(Plus(h, s), c), k), w), Plus(Plus(Plus(Plus(ch, cs), cc), k), cw), 6)
  {
    hide PredictAddition, Dual, Chosen, Plus, SumOf, NonzeroDeltas, Consistent;
    var operands := [Dual(h, ch), Dual(s, cs), Dual(c, cc), Dual(k, k), Dual(w, cw)];
    DualIsConsistent(h, ch);
    DualIsConsistent(s, cs);
    DualIsConsistent(c, cc);
    DualIsConsistent(k, k);
    DualIsConsistent(w, cw);
    DualParts(h, ch);
    DualParts(s, cs);
    DualParts(c, cc);
    DualParts(k, k);
    DualParts(w, cw);
    assert References(operands) == [h, s, c, k, w] && Candidates(operands) == [ch, cs, cc, k, cw];
    FiveTermSums(h, s, c, k, w);
    FiveTermSums(ch, cs, cc, k, cw);
    AdditionPredicted(operands, Plus(Plus(Plus(Plus(h, s), c), k), w));
  }

  /** On a represented state and a true reference record no check of any operation can fail, and
      every prediction is the pair of true values. */
  lemma OperationsExact(identity: Identity, k: Word, rw: Word, cw: Word, r: Vars, c: Vars)
    ensures var reference, candidate := TrueRecord(identity, k, rw, r), TrueRecord(identity, k, cw, c);
      var o := OperationsOf(reference, DualState(r, c), Dual(k, k), Dual(rw, cw));
      o.Ok? && ExactOperations(o.value, reference, candidate)
  {
    hide PredictSigma, PredictBoolean, PredictAddition, Dual, Plus, Ch, Maj, BigSigma0, BigSigma1, Chosen, Cost,
      Breakdown.Total;
    SigmaExact(Sum0, r.a, c.a);
    SigmaExact(Sum1, r.e, c.e);
    BooleanExact(Choice, r.e, r.f, r.g, c.e, c.f, c.g);
    BooleanExact(Majority, r.a, r.b, r.c, c.a, c.b, c.c);
    BooleanCosts();
    Temp1Exact(r.h, BigSigma1(r.e), Ch(r.e, r.f, r.g), k, rw, c.h, BigSigma1(c.e), Ch(c.e, c.f, c.g), cw);
    PairExact(BigSigma0(r.a), Maj(r.a, r.b, r.c), BigSigma0(c.a), Maj(c.a, c.b, c.c));
    PairExact(Temp1(r, k, rw), Temp2(r), Temp1(c, k, cw), Temp2(c));
    PairExact(r.d, Temp1(r, k, rw), c.d, Temp1(c, k, cw));
  }

  lemma BooleanCosts()
    ensures Choice.DirectBreakdown().Total() == 6 && Majority.DirectBreakdown().Total() == 7
  {}

  // ----- the ledger -----

  const DIRECT_DUAL_PER_ROUND: nat := 42

  function Sum(a: Breakdown, b: Breakdown): Breakdown {
    Breakdown(a.rotr + b.rotr, a.shr + b.shr, a.xor + b.xor, a.and + b.and, a.not + b.not, a.add + b.add, a.sub + b.sub)
  }

  /** What the external candidate word costs to materialize. */
  function WBreakdown(w: DualWord): Breakdown {
    if w.xor == 0 then NOTHING else Breakdown(0, 0, 1, 0, 0, 0, 1)
  }

  lemma SumTotal(a: Breakdown, b: Breakdown)
    ensures Sum(a, b).Total() == a.Total() + b.Total()
  {}

  class RoundLedger {
    var counts: Breakdown
    var conversions: nat
    var shortcuts: nat
    var externalOps: nat

    constructor ()
      ensures counts == NOTHING && conversions == 0 && shortcuts == 0 && externalOps == 0
    {
      counts, conversions, shortcuts, externalOps := NOTHING, 0, 0, 0;
    }

    method AddExternalW(w: DualWord)
      modifies this
      ensures counts == Sum(old(counts), WBreakdown(w)) && shortcuts == old(shortcuts)
      ensures counts.Total() == old(counts).Total() + WBreakdown(w).Total()
      ensures externalOps == old(externalOps) + WBreakdown(w).Total()
      ensures conversions == old(conversions) + if w.xor == 0 then 0 else 2
    {
      hide Sum, Breakdown.Total, WBreakdown;
      SumTotal(counts, WBreakdown(w));
      counts := Sum(counts, WBreakdown(w));
      externalOps := externalOps + WBreakdown(w).Total();
      conversions := conversions + if w.xor == 0 then 0 else 2;
    }

    /** Adds the chosen route; the checks of the choice are made here. */
    method AddOperation(p: Prediction) returns (r: Result<()>)
      modifies this
      ensures r.Ok? <==> Chosen(p).Ok?
      ensures r.Ok? ==> counts == Sum(old(counts), Chosen(p).value.breakdown)
      ensures r.Ok? ==> counts.Total() == old(counts).Total() + Cost(p)
      ensures r.Ok? ==> conversions == old(conversions) + p.conversions
      ensures r.Ok? ==> shortcuts == old(shortcuts) + (if p.shortcut then 1 else 0)
      ensures externalOps == old(externalOps)
    {
      hide Chosen, Sum, Breakdown.Total;
      var chosen := Chosen(p);
      if chosen.Err? { return Err(chosen.error); }
      SumTotal(counts, chosen.value.breakdown);
      counts := Sum(counts, chosen.value.breakdown);
      conversions := conversions + p.conversions;
      if p.shortcut { shortcuts := shortcuts + 1; }
      r := Ok(());
    }
  }

  function List(o: Operations): (ps: seq<Prediction>)
    ensures |ps| == 8
  {
    [o.sum0, o.sum1, o.choice, o.majority, o.temp1, o.temp2, o.newA, o.newE]
  }

  /** The cost of the first n predictions. */
  function TotalCost(ps: seq<Prediction>, n: nat): nat
    requires n <= |ps|
  {
    if n == 0 then 0 else TotalCost(ps, n - 1) + Cost(ps[n - 1])
  }

  predicate AllChosen(ps: seq<Prediction>) { forall i :: 0 <= i < |ps| ==> Chosen(ps[i]).Ok? }

  /** The total of a fresh ledger after a round's operations. */
  method LedgerTotal(w: DualWord, ps: seq<Prediction>) returns (r: Result<nat>)
    ensures r.Ok? <==> AllChosen(ps)
    ensures r.Ok? ==> r.value == WBreakdown(w).Total() + TotalCost(ps, |ps|)
  {
    hide Chosen, Cost, Breakdown.Total, WBreakdown;
    var ledger := new RoundLedger();
    NothingCosts();
    ledger.AddExternalW(w);
    for i := 0 to |ps|
      invariant forall j :: 0 <= j < i ==> Chosen(ps[j]).Ok?
      invariant fresh(ledger) && ledger.counts.Total() == WBreakdown(w).Total() + TotalCost(ps, i)
    {
      var added := ledger.AddOperation(ps[i]);
      if added.Err? { return Err(added.error); }
    }
    r := Ok(ledger.counts.Total());
  }

  lemma NothingCosts()
    ensures NOTHING.Total() == 0
  {}

  lemma EightCosts(o: Operations)
    ensures TotalCost(List(o), 8) == Cost(o.sum0) + Cost(o.sum1) + Cost(o.choice) + Cost(o.majority)
      + Cost(o.temp1) + Cost(o.temp2) + Cost(o.newA) + Cost(o.newE)
  {
    hide Cost;
    var ps := List(o);
    assert TotalCost(ps, 1) == Cost(o.sum0);
    assert TotalCost(ps, 2) == Cost(o.sum0) + Cost(o.sum1);
    assert TotalCost(ps, 4) == TotalCost(ps, 2) + Cost(o.choice) + Cost(o.majority);
    assert TotalCost(ps, 6) == TotalCost(ps, 4) + Cost(o.temp1) + Cost(o.temp2);
  }

  // ----- predict_round -----

  function OutputState(input: DualVars, o: Operations): DualVars {
    DualVars(o.newA.value, input.a, input.b, input.c, o.newE.value, input.e, input.f, input.g)
  }

  /** The cost of a round: two operations for a word that differs, and what its eight predictions cost. */
  function RoundCost(w: DualWord, o: Operations): nat {
    (if w.xor == 0 then 0 else 2) + Cost(o.sum0) + Cost(o.sum1) + Cost(o.choice) + Cost(o.majority)
    + Cost(o.temp1) + Cost(o.temp2) + Cost(o.newA) + Cost(o.newE)
  }

  /** The prediction of a round: both next states, exactly, at its true cost, which is no more than the direct one. */
  ghost predicate ExactRound(p: RoundPrediction, reference: RoundRecord, candidate: RoundRecord) {
    && p.identity == reference.identity && p.k == reference.k && p.w == Dual(reference.w, candidate.w)
    && p.input == DualState(reference.before, candidate.before)
    && p.output == DualState(reference.after, candidate.after)
    && ExactOperations(p.operations, reference, candidate)
    && p.cost == RoundCost(p.w, p.operations) <= DIRECT_DUAL_PER_ROUND + 2
  }

  /** The word of two absolute values; its constructor never refuses. */
  method Materialize(reference: Word, candidate: Word) returns (w: DualWord)
    ensures w == Dual(reference, candidate)
  {
    hide Make;
    DomainsAgree(reference, candidate);
    w := FromAbsolute(reference, candidate).value;
  }

  method PredictRound(r: RoundRecord, input: DualVars, externalW: Word, identity: Identity)
    returns (res: Result<RoundPrediction>)
    ensures CheckReference(r, identity).Err? ==> res.Err?
    ensures res.Ok? ==> res.value.identity == identity
    ensures Represented(input) ==> (res.Ok? <==> (CheckReference(r, identity).Ok? && ReferenceState(input) == r.before))
    ensures Represented(input) && res.Ok? ==>
      ExactRound(res.value, r, TrueRecord(identity, r.k, externalW, CandidateState(input)))
  {
    hide CheckReference, OperationsOf, ReferenceState, CandidateState, DualState, TrueRecord, Chosen, AllChosen,
      TotalCost,
      Make, Dual, Plus, Xor, Minus, ExactOperations, ExactRound, List, WBreakdown, Breakdown.Total;
    var checked := CheckReference(r, identity);
    if checked.Err? { return Err(checked.error); }
    if ReferenceState(input) != r.before { return Err(InputDiscontinuous); }
    var w := Materialize(r.w, externalW);
    var k := Materialize(r.k, r.k);
    var o := PredictOperations(r, input, k, w);
    if Represented(input) { RoundExact(r, input, externalW, identity, 0); }
    if o.Err? { return Err(o.error); }
    var output := OutputState(input, o.value);
    if ReferenceState(output) != r.after { return Err(OutputInconsistent); }
    var cost := LedgerTotal(w, List(o.value));
    if cost.Err? { return Err(cost.error); }
    if Represented(input) { RoundExact(r, input, externalW, identity, cost.value); }
    res := Ok(RoundPrediction(identity, r.k, input, w, o.value, output, cost.value));
  }

  lemma RoundExact(r: RoundRecord, input: DualVars, externalW: Word, identity: Identity, cost: nat)
    requires CheckReference(r, identity).Ok? && Represented(input) && ReferenceState(input) == r.before
    ensures var w := Dual(r.w, externalW);
      var o := OperationsOf(r, input, Dual(r.k, r.k), w);
      && o.Ok? && ReferenceState(OutputState(input, o.value)) == r.after
      && AllChosen(List(o.value))
      && (cost == WBreakdown(w).Total() + TotalCost(List(o.value), 8) ==>
        ExactRound(RoundPrediction(identity, r.k, input, w, o.value, OutputState(input, o.value), cost), r,
                   TrueRecord(identity, r.k, externalW, CandidateState(input))))
  {
    hide CheckReference, OperationsOf, Chosen, Dual, Plus, Ch, Maj, BigSigma0, BigSigma1, TotalCost, Temp1, Temp2,
      Breakdown.Total, Cost, WBreakdown, ReferenceState, CandidateState;
    var c := CandidateState(input);
    ReferenceCheckIsExact(r, identity);
    OperationsExact(identity, r.k, r.w, externalW, r.before, c);
    var o := OperationsOf(r, input, Dual(r.k, r.k), Dual(r.w, externalW)).value;
    EightCosts(o);
    WCost(Dual(r.w, externalW));
    OutputIsDual(r, input, externalW, identity, o);
    DualStateParts(r.after, TrueRecord(identity, r.k, externalW, c).after);
  }

  lemma WCost(w: DualWord)
    ensures WBreakdown(w).Total() == if w.xor == 0 then 0 else 2
  {}

  lemma DualStateParts(r: Vars, c: Vars)
    ensures ReferenceState(DualState(r, c)) == r && CandidateState(DualState(r, c)) == c
  {}

  lemma OutputIsDual(r: RoundRecord, input: DualVars, externalW: Word, identity: Identity, o: Operations)
    requires r == TrueRecord(identity, r.k, r.w, r.before) && Represented(input) && ReferenceState(input) == r.before
    requires ExactOperations(o, r, TrueRecord(identity, r.k, externalW, CandidateState(input)))
    ensures OutputState(input, o)
      == DualState(r.after, TrueRecord(identity, r.k, externalW, CandidateState(input)).after)
  {
    hide Chosen, Dual, Plus, Ch, Maj, BigSigma0, BigSigma1, Temp1, Temp2, Cost;
  }
}
