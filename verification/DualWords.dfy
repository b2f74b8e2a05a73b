// Words predicted in three domains at once, absolute, XOR difference and modular difference, and
// the prediction of single operations (tools/research_dual_domain_analysis.py).
module DualWords {
  import opened Sha256

  datatype Failure =
    | XorReconstruction | ModularReconstruction | SigmaIdentity | BooleanIdentity | RoutesDisagree
    | TooFewOperands | ReferenceSum | ModularIdentity
    | RouteAbsentOrDuplicated | RouteInvalid | RouteNotMinimal
    | BadIdentity | PrimitiveMismatch | AdditionMismatch | OutputMismatch
    | InputDiscontinuous | OutputInconsistent
    | RoundNotUnique | ScheduleMismatch | TrajectoryDiscontinuous
    | OracleReused | WNotAuthorized | BeforeMismatch | AfterMismatch | WChanged | KDiffers | IntermediateMismatch
    | DiffusionNotUnique | DiffusionMismatch

  datatype Result<+T> = Ok(value: T) | Err(error: Failure)

  // ----- word identities -----

  lemma XorIs(x: Word, y: Word)
    ensures Xor(x, y) == x ^ y
  {}

  lemma MinusIs(x: Word, y: Word)
    ensures Minus(x, y) == x - y
  {}

  lemma XorUndoesRaw(x: Word, y: Word)
    ensures Xor(x, x ^ y) == y
  {}

  lemma XorUndoes(x: Word, y: Word)
    ensures Xor(x, Xor(x, y)) == y
  {
    hide Xor;
    XorIs(x, y);
    XorUndoesRaw(x, y);
  }

  lemma PlusUndoesRaw(x: Word, y: Word)
    ensures Plus(x, y - x) == y
  {}

  lemma PlusUndoes(x: Word, y: Word)
    ensures Plus(x, Minus(y, x)) == y && Minus(Plus(x, y), x) == y
  {
    hide Plus, Minus;
    MinusIs(y, x);
    PlusIs(x, y);
    PlusUndoesRaw(x, y);
    SumMinus(x, y);
  }

  lemma SelfDelta(x: Word)
    ensures Xor(x, x) == 0 && Minus(x, x) == 0
  {}

  lemma ZeroDelta(x: Word, y: Word)
    ensures Xor(x, y) == 0 <==> x == y
    ensures Minus(y, x) == 0 <==> x == y
  {
    hide Xor, Minus, Plus;
    SelfDelta(x);
    XorUndoes(x, y);
    PlusUndoes(x, y);
    if Xor(x, y) == 0 { NeutralZero(x); }
    if Minus(y, x) == 0 { NeutralZero(x); }
  }

  lemma NeutralZero(x: Word)
    ensures Xor(x, 0) == x && Plus(x, 0) == x && Plus(0, x) == x
  {}

  // ----- DualDomainWord -----

  datatype DualWord = DualWord(reference: Word, candidate: Word, xor: Word, modular: Word)

  predicate Consistent(w: DualWord) {
    w.candidate == Xor(w.reference, w.xor) && w.candidate == Plus(w.reference, w.modular)
  }

  /** The constructor and its two reconstruction checks. */
  function Make(reference: Word, candidate: Word, xor: Word, modular: Word): Result<DualWord> {
    if candidate != Xor(reference, xor) then Err(XorReconstruction)
    else if candidate != Plus(reference, modular) then Err(ModularReconstruction)
    else Ok(DualWord(reference, candidate, xor, modular))
  }

  function FromAbsolute(reference: Word, candidate: Word): Result<DualWord> {
    Make(reference, candidate, Xor(reference, candidate), Minus(candidate, reference))
  }

  function FromXor(reference: Word, xor: Word): Result<DualWord> {
    var candidate := Xor(reference, xor);
    Make(reference, candidate, xor, Minus(candidate, reference))
  }

  function FromModular(reference: Word, modular: Word): Result<DualWord> {
    var candidate := Plus(reference, modular);
    Make(reference, candidate, Xor(reference, candidate), modular)
  }

  /** The one consistent word of two absolute values. */
  function Dual(reference: Word, candidate: Word): DualWord {
    DualWord(reference, candidate, Xor(reference, candidate), Minus(candidate, reference))
  }

  lemma ConsistentIsDual(w: DualWord)
    ensures Consistent(w) <==> w == Dual(w.reference, w.candidate)
  {
    hide Xor, Plus, Minus;
    XorUndoes(w.reference, w.candidate);
    XorUndoes(w.reference, w.xor);
    PlusUndoes(w.reference, w.candidate);
    PlusUndoes(w.reference, w.modular);
  }

  /** Every domain determines the word: the three constructors agree and never refuse. */
  lemma DomainsAgree(reference: Word, candidate: Word)
    ensures FromAbsolute(reference, candidate) == Ok(Dual(reference, candidate))
    ensures FromXor(reference, Xor(reference, candidate)) == Ok(Dual(reference, candidate))
    ensures FromModular(reference, Minus(candidate, reference)) == Ok(Dual(reference, candidate))
  {
    hide Xor, Plus, Minus;
    XorUndoes(reference, candidate);
    PlusUndoes(reference, candidate);
  }

  // ----- routes and their costs -----

  datatype RouteName = ZeroReferenceReuse | DirectAbsolute | XorDifferential | ModularDifferential

  datatype Breakdown = Breakdown(rotr: nat, shr: nat, xor: nat, and: nat, not: nat, add: nat, sub: nat)
  {
    function Total(): nat { rotr + shr + xor + and + not + add + sub }
  }

  const NOTHING: Breakdown := Breakdown(0, 0, 0, 0, 0, 0, 0)

  datatype Route = Route(name: RouteName, valid: bool, breakdown: Breakdown)

  datatype Prediction = Prediction(value: DualWord, routes: seq<Route>, chosen: RouteName, conversions: nat,
    shortcut: bool)

  function Named(routes: seq<Route>, name: RouteName): seq<Route> {
    if routes == [] then []
    else (if routes[0].name == name then [routes[0]] else []) + Named(routes[1..], name)
  }

  predicate MinimalAmong(cost: nat, routes: seq<Route>) {
    forall i :: 0 <= i < |routes| && routes[i].valid ==> cost <= routes[i].breakdown.Total()
  }

  /** OperationPrediction.chosen and its checks. */
  function Chosen(p: Prediction): Result<Route> {
    var matches := Named(p.routes, p.chosen);
    if |matches| != 1 then Err(RouteAbsentOrDuplicated)
    else if !matches[0].valid then Err(RouteInvalid)
    else if !MinimalAmong(matches[0].breakdown.Total(), p.routes) then Err(RouteNotMinimal)
    else Ok(matches[0])
  }

  /** The prediction is exact, its route is admissible and minimal, and takes these operations; without any it is a
      shortcut, otherwise two conversions belong to it. */
  predicate Predicts(r: Result<Prediction>, reference: Word, candidate: Word, operations: Breakdown) {
    && r.Ok? && r.value.value == Dual(reference, candidate)
    && Chosen(r.value).Ok? && Chosen(r.value).value.breakdown == operations
    && (r.value.shortcut <==> operations == NOTHING)
    && r.value.conversions == if operations == NOTHING then 0 else 2
  }

  lemma ThreeRoutes(p: Prediction, r: Route, s: Route, t: Route)
    requires p.routes == [r, s, t] && r.name != s.name && r.name != t.name && s.name != t.name
    ensures p.chosen == r.name ==> Named(p.routes, p.chosen) == [r]
    ensures p.chosen == s.name ==> Named(p.routes, p.chosen) == [s]
    ensures p.chosen == t.name ==> Named(p.routes, p.chosen) == [t]
  {
    var n := p.chosen;
    assert p.routes[1..] == [s, t] && [s, t][1..] == [t] && [t][1..] == [];
    assert Named([t], n) == if t.name == n then [t] else [];
    assert Named([s, t], n) == (if s.name == n then [s] else []) + Named([t], n);
    assert Named(p.routes, n) == (if r.name == n then [r] else []) + Named([s, t], n);
  }

  // ----- predict_sigma -----

  datatype Sigma = Sum0 | Sum1
  {
    function Apply(x: Word): Word { if Sum0? then BigSigma0(x) else BigSigma1(x) }
  }

  function SigmaRoutes(zero: bool): seq<Route> {
    [ Route(ZeroReferenceReuse, zero, NOTHING),
      Route(DirectAbsolute, true, Breakdown(3, 0, 3, 0, 0, 0, 1)),
      Route(XorDifferential, true, Breakdown(3, 0, 3, 0, 0, 0, 1)) ]
  }

  /** Every delta is zero: the reference output is the candidate's. */
  function Reuse(reference: Word, routes: seq<Route>): Result<Prediction> {
    match FromAbsolute(reference, reference)
    case Err(e) => Err(e)
    case Ok(value) => Ok(Prediction(value, routes, ZeroReferenceReuse, 0, true))
  }

  function PredictSigma(f: Sigma, input: DualWord, referenceOutput: Word): Result<Prediction> {
    var delta := f.Apply(input.xor);
    var direct := f.Apply(input.candidate);
    if delta != Xor(referenceOutput, direct) then Err(SigmaIdentity)
    else
      match (FromAbsolute(referenceOutput, direct), FromXor(referenceOutput, delta))
      case (Err(e), _) => Err(e)
      case (_, Err(e)) => Err(e)
      case (Ok(directValue), Ok(differentialValue)) =>
        if directValue != differentialValue then Err(RoutesDisagree)
        else if input.xor == 0 then Reuse(referenceOutput, SigmaRoutes(true))
        else Ok(Prediction(differentialValue, SigmaRoutes(false), XorDifferential, 2, false))
  }

  lemma RotationsLinear0(x: Word, y: Word)
    ensures Xor(x.RotateRight(2) ^ x.RotateRight(13) ^ x.RotateRight(22),
      y.RotateRight(2) ^ y.RotateRight(13) ^ y.RotateRight(22))
      == BigSigma0(x ^ y)
  {}

  lemma RotationsLinear1(x: Word, y: Word)
    ensures Xor(x.RotateRight(6) ^ x.RotateRight(11) ^ x.RotateRight(25),
      y.RotateRight(6) ^ y.RotateRight(11) ^ y.RotateRight(25))
      == BigSigma1(x ^ y)
  {}

  lemma BigSigma0Is(x: Word)
    ensures BigSigma0(x) == x.RotateRight(2) ^ x.RotateRight(13) ^ x.RotateRight(22)
  {}

  lemma BigSigma1Is(x: Word)
    ensures BigSigma1(x) == x.RotateRight(6) ^ x.RotateRight(11) ^ x.RotateRight(25)
  {}

  lemma Sum0Linear(x: Word, y: Word)
    ensures Xor(BigSigma0(x), BigSigma0(y)) == BigSigma0(x ^ y)
  {
    hide Xor, BigSigma0;
    BigSigma0Is(x);
    BigSigma0Is(y);
    RotationsLinear0(x, y);
  }

  lemma Sum1Linear(x: Word, y: Word)
    ensures Xor(BigSigma1(x), BigSigma1(y)) == BigSigma1(x ^ y)
  {
    hide Xor, BigSigma1;
    BigSigma1Is(x);
    BigSigma1Is(y);
    RotationsLinear1(x, y);
  }

  /** Both large sigmas are linear over XOR. */
  lemma SigmaLinear(f: Sigma, x: Word, y: Word)
    ensures Xor(f.Apply(x), f.Apply(y)) == f.Apply(Xor(x, y))
  {
    hide Xor, BigSigma0, BigSigma1;
    XorIs(x, y);
    Sum0Linear(x, y);
    Sum1Linear(x, y);
  }

  /** predict_sigma refuses exactly a wrong reference output; otherwise it is exact. */
  lemma SigmaPredicted(f: Sigma, input: DualWord, referenceOutput: Word)
    requires Consistent(input)
    ensures PredictSigma(f, input, referenceOutput).Ok? <==> referenceOutput == f.Apply(input.reference)
    ensures referenceOutput == f.Apply(input.reference) ==>
      Predicts(PredictSigma(f, input, referenceOutput), referenceOutput, f.Apply(input.candidate),
               if input.reference == input.candidate then NOTHING else Breakdown(3, 0, 3, 0, 0, 0, 1))
  {
    hide Xor, Plus, Minus, BigSigma0, BigSigma1, Sigma.Apply, Make;
    var direct := f.Apply(input.candidate);
    ConsistentIsDual(input);
    ZeroDelta(input.reference, input.candidate);
    SigmaLinear(f, input.reference, input.candidate);
    DomainsAgree(referenceOutput, direct);
    DomainsAgree(referenceOutput, referenceOutput);
    XorInjective(referenceOutput, f.Apply(input.reference), direct);
    var r := PredictSigma(f, input, referenceOutput);
    if referenceOutput == f.Apply(input.reference) {
      SigmaChosen(r.value, input.xor == 0);
    }
  }

  lemma SigmaChosen(p: Prediction, zero: bool)
    requires p.routes == SigmaRoutes(zero) && p.chosen == if zero then ZeroReferenceReuse else XorDifferential
    ensures Chosen(p).Ok? && Chosen(p).value.breakdown == if zero then NOTHING else Breakdown(3, 0, 3, 0, 0, 0, 1)
  {
    hide Chosen, Named;
    ThreeRoutes(p, p.routes[0], p.routes[1], p.routes[2]);
    ChosenUnlessZero(p, zero, p.routes[2], p.routes[0], p.routes[1], p.routes[2]);
  }

  /** The reuse route when every delta is zero, otherwise the cheaper of the other two. */
  lemma ChosenUnlessZero(p: Prediction, zero: bool, c: Route, r: Route, d: Route, x: Route)
    requires p.routes == [r, d, x] && (zero <==> r.valid) && c.valid && r.breakdown == NOTHING
    requires c.breakdown.Total() <= d.breakdown.Total() && c.breakdown.Total() <= x.breakdown.Total()
    requires Named(p.routes, p.chosen) == if zero then [r] else [c]
    ensures Chosen(p) == Ok(if zero then r else c)
  {
    hide Chosen, Named, MinimalAmong, Breakdown.Total;
    NothingIsLeast(d.breakdown);
    NothingIsLeast(x.breakdown);
    if zero { ChosenOfThree(p, r, r, d, x); } else { ChosenOfThree(p, c, r, d, x); }
  }

  lemma NothingIsLeast(b: Breakdown)
    ensures NOTHING.Total() <= b.Total()
  {}

  lemma XorInjective(x: Word, y: Word, z: Word)
    ensures Xor(x, z) == Xor(y, z) <==> x == y
  {
    hide Xor;
    XorCommutes(x, z);
    XorCommutes(y, z);
    XorUndoes(z, x);
    XorUndoes(z, y);
  }

  lemma XorCommutes(x: Word, y: Word)
    ensures Xor(x, y) == Xor(y, x)
  {}

  // ----- predict_boolean -----

  datatype Boolean = Choice | Majority
  {
    function Apply(x: Word, y: Word, z: Word): Word { if Choice? then Ch(x, y, z) else Maj(x, y, z) }

    /** choice_differential and majority_differential */
    function Differential(x: Word, y: Word, z: Word, dx: Word, dy: Word, dz: Word): Word {
      if Choice? then dz ^ (x & (dy ^ dz)) ^ (dx & (y ^ z)) ^ (dx & (dy ^ dz))
      else (x & dy) ^ (y & dx) ^ (dx & dy) ^ (z & (dx ^ dy)) ^ (dz & (x ^ y)) ^ (dz & (dx ^ dy))
    }

    function DirectBreakdown(): Breakdown {
      if Choice? then Breakdown(0, 0, 2, 2, 1, 0, 1) else Breakdown(0, 0, 3, 3, 0, 0, 1)
    }

    function DifferentialBreakdown(): Breakdown {
      if Choice? then Breakdown(0, 0, 6, 3, 0, 0, 1) else Breakdown(0, 0, 8, 6, 0, 0, 1)
    }
  }

  function BooleanRoutes(f: Boolean, zero: bool): seq<Route> {
    [ Route(ZeroReferenceReuse, zero, NOTHING),
      Route(DirectAbsolute, true, f.DirectBreakdown()),
      Route(XorDifferential, true, f.DifferentialBreakdown()) ]
  }

  function PredictBoolean(f: Boolean, x: DualWord, y: DualWord, z: DualWord, referenceOutput: Word)
    : Result<Prediction>
  {
    var zero := x.xor == 0 && y.xor == 0 && z.xor == 0;
    var direct := f.Apply(x.candidate, y.candidate, z.candidate);
    var delta := f.Differential(x.reference, y.reference, z.reference, x.xor, y.xor, z.xor);
    if delta != Xor(referenceOutput, direct) then Err(BooleanIdentity)
    else
      match (FromAbsolute(referenceOutput, direct), FromXor(referenceOutput, delta))
      case (Err(e), _) => Err(e)
      case (_, Err(e)) => Err(e)
      case (Ok(directValue), Ok(differentialValue)) =>
        if directValue != differentialValue then Err(RoutesDisagree)
        else if zero then Reuse(referenceOutput, BooleanRoutes(f, true))
        else Ok(Prediction(directValue, BooleanRoutes(f, false), DirectAbsolute, 2, false))
  }

  // Changing the first input alone, then the other two: each step is small.

  lemma ChoiceFirst(x: Word, y: Word, z: Word, dx: Word)
    ensures Xor(Ch(x, y, z), Ch(x ^ dx, y, z)) == dx & (y ^ z)
  {}

  lemma ChoiceRest(u: Word, y: Word, z: Word, dy: Word, dz: Word)
    ensures Xor(Ch(u, y, z), Ch(u, y ^ dy, z ^ dz)) == dz ^ (u & (dy ^ dz))
  {}

  lemma ChoiceCollects(x: Word, y: Word, z: Word, dx: Word, dy: Word, dz: Word)
    ensures Xor(dx & (y ^ z), dz ^ ((x ^ dx) & (dy ^ dz))) == Choice.Differential(x, y, z, dx, dy, dz)
  {
    AndDistributes(x, dx, dy ^ dz);
  }

  lemma AndDistributes(x: Word, y: Word, u: Word)
    ensures (x ^ y) & u == (x & u) ^ (y & u)
  {}

  function MajorityPair(x: Word, y: Word, z: Word, dx: Word, dy: Word): Word {
    (x & dy) ^ (y & dx) ^ (dx & dy) ^ (z & (dx ^ dy))
  }

  function MajorityLast(u: Word, v: Word, dz: Word): Word { dz & (u ^ v) }

  lemma MajorityFirst(x: Word, y: Word, z: Word, dx: Word, dy: Word)
    ensures Xor(Maj(x, y, z), Maj(x ^ dx, y ^ dy, z)) == MajorityPair(x, y, z, dx, dy)
  {}

  lemma MajorityRest(u: Word, v: Word, z: Word, dz: Word)
    ensures Xor(Maj(u, v, z), Maj(u, v, z ^ dz)) == MajorityLast(u, v, dz)
  {}

  lemma MajorityCollects(x: Word, y: Word, z: Word, dx: Word, dy: Word, dz: Word)
    ensures Xor(MajorityPair(x, y, z, dx, dy), MajorityLast(x ^ dx, y ^ dy, dz))
      == Majority.Differential(x, y, z, dx, dy, dz)
  {
    hide Xor, Boolean.Differential;
    AndOfFour(x, y, dx, dy, dz);
    MajorityTerms(x, y, z, dx, dy, dz);
  }

  lemma AndOfFour(x: Word, y: Word, dx: Word, dy: Word, dz: Word)
    ensures dz & ((x ^ dx) ^ (y ^ dy)) == (dz & (x ^ y)) ^ (dz & (dx ^ dy))
  {}

  lemma MajorityTerms(x: Word, y: Word, z: Word, dx: Word, dy: Word, dz: Word)
    ensures Xor((x & dy) ^ (y & dx) ^ (dx & dy) ^ (z & (dx ^ dy)), (dz & (x ^ y)) ^ (dz & (dx ^ dy)))
      == Majority.Differential(x, y, z, dx, dy, dz)
  {}

  lemma XorChain(p: Word, q: Word, r: Word)
    ensures Xor(Xor(p, q), Xor(q, r)) == Xor(p, r)
  {
    hide Xor;
    XorIs(p, q);
    XorIs(q, r);
    XorChainRaw(p, q, r);
  }

  lemma XorChainRaw(p: Word, q: Word, r: Word)
    ensures Xor(p ^ q, q ^ r) == Xor(p, r)
  {}

  /** The differential formulas are exact. */
  lemma DifferentialExact(f: Boolean, x: Word, y: Word, z: Word, dx: Word, dy: Word, dz: Word)
    ensures f.Differential(x, y, z, dx, dy, dz) == Xor(f.Apply(x, y, z), f.Apply(x ^ dx, y ^ dy, z ^ dz))
  {
    hide Xor, Ch, Maj, Boolean.Differential;
    if f.Choice? {
      ChoiceExact(x, y, z, dx, dy, dz);
    } else {
      MajorityExact(x, y, z, dx, dy, dz);
    }
  }

  lemma ChoiceExact(x: Word, y: Word, z: Word, dx: Word, dy: Word, dz: Word)
    ensures Choice.Differential(x, y, z, dx, dy, dz) == Xor(Ch(x, y, z), Ch(x ^ dx, y ^ dy, z ^ dz))
  {
    hide Xor, Ch, Boolean.Differential;
    ChoiceFirst(x, y, z, dx);
    ChoiceRest(x ^ dx, y, z, dy, dz);
    ChoiceCollects(x, y, z, dx, dy, dz);
    XorChain(Ch(x, y, z), Ch(x ^ dx, y, z), Ch(x ^ dx, y ^ dy, z ^ dz));
  }

  lemma MajorityExact(x: Word, y: Word, z: Word, dx: Word, dy: Word, dz: Word)
    ensures Majority.Differential(x, y, z, dx, dy, dz) == Xor(Maj(x, y, z), Maj(x ^ dx, y ^ dy, z ^ dz))
  {
    hide Xor, Maj, MajorityPair, MajorityLast, Boolean.Differential;
    MajorityFirst(x, y, z, dx, dy);
    MajorityRest(x ^ dx, y ^ dy, z, dz);
    MajorityCollects(x, y, z, dx, dy, dz);
    XorChain(Maj(x, y, z), Maj(x ^ dx, y ^ dy, z), Maj(x ^ dx, y ^ dy, z ^ dz));
  }

  /** predict_boolean refuses exactly a wrong reference output; otherwise it is exact. */
  lemma BooleanPredicted(f: Boolean, x: DualWord, y: DualWord, z: DualWord, referenceOutput: Word)
    requires Consistent(x) && Consistent(y) && Consistent(z)
    ensures var truth := f.Apply(x.reference, y.reference, z.reference);
      && (PredictBoolean(f, x, y, z, referenceOutput).Ok? <==> referenceOutput == truth)
      && (referenceOutput == truth ==>
        Predicts(PredictBoolean(f, x, y, z, referenceOutput), truth, f.Apply(x.candidate, y.candidate, z.candidate),
                 if x.reference == x.candidate && y.reference == y.candidate && z.reference == z.candidate then NOTHING
                 else if f.Choice? then Breakdown(0, 0, 2, 2, 1, 0, 1) else Breakdown(0, 0, 3, 3, 0, 0, 1)))
  {
    hide Xor, Plus, Minus, Boolean.Apply, Boolean.Differential, Make;
    var truth, direct := f.Apply(x.reference, y.reference, z.reference), f.Apply(x.candidate, y.candidate, z.candidate);
    BooleanDelta(f, x, y, z);
    ZeroDelta(x.reference, x.candidate);
    ZeroDelta(y.reference, y.candidate);
    ZeroDelta(z.reference, z.candidate);
    DomainsAgree(referenceOutput, direct);
    DomainsAgree(referenceOutput, referenceOutput);
    XorInjective(referenceOutput, truth, direct);
    if referenceOutput == truth {
      BooleanChosen(f, PredictBoolean(f, x, y, z, referenceOutput).value, x.xor == 0 && y.xor == 0 && z.xor == 0);
    }
  }

  lemma BooleanDelta(f: Boolean, x: DualWord, y: DualWord, z: DualWord)
    requires Consistent(x) && Consistent(y) && Consistent(z)
    ensures f.Differential(x.reference, y.reference, z.reference, x.xor, y.xor, z.xor)
      == Xor(f.Apply(x.reference, y.reference, z.reference), f.Apply(x.candidate, y.candidate, z.candidate))
    ensures x == Dual(x.reference, x.candidate) && y == Dual(y.reference, y.candidate)
      && z == Dual(z.reference, z.candidate)
  {
    hide Xor, Plus, Minus, Boolean.Apply, Boolean.Differential;
    ConsistentIsDual(x);
    ConsistentIsDual(y);
    ConsistentIsDual(z);
    XorIs(x.reference, x.xor);
    XorIs(y.reference, y.xor);
    XorIs(z.reference, z.xor);
    DifferentialExact(f, x.reference, y.reference, z.reference, x.xor, y.xor, z.xor);
  }

  lemma BooleanChosen(f: Boolean, p: Prediction, zero: bool)
    requires p.routes == BooleanRoutes(f, zero) && p.chosen == if zero then ZeroReferenceReuse else DirectAbsolute
    ensures Chosen(p).Ok? && Chosen(p).value.breakdown == if zero then NOTHING else f.DirectBreakdown()
  {
    hide Chosen, Named;
    ThreeRoutes(p, p.routes[0], p.routes[1], p.routes[2]);
    ChosenUnlessZero(p, zero, p.routes[1], p.routes[0], p.routes[1], p.routes[2]);
  }

  // ----- predict_addition -----

  /** A sum modulo 2^32. */
  function SumOf(s: seq<Word>): Word {
    if s == [] then 0 else Plus(SumOf(s[..|s| - 1]), s[|s| - 1])
  }

  function References(s: seq<DualWord>): (r: seq<Word>)
    ensures |r| == |s| && forall i :: 0 <= i < |s| ==> r[i] == s[i].reference
  {
    seq(|s|, i requires 0 <= i < |s| => s[i].reference)
  }

  function Candidates(s: seq<DualWord>): (r: seq<Word>)
    ensures |r| == |s| && forall i :: 0 <= i < |s| ==> r[i] == s[i].candidate
  {
    seq(|s|, i requires 0 <= i < |s| => s[i].candidate)
  }

  function NonzeroDeltas(s: seq<DualWord>): (r: seq<Word>)
    ensures |r| <= |s|
  {
    if s == [] then []
    else
      var last := s[|s| - 1].modular;
      NonzeroDeltas(s[..|s| - 1]) + (if last != 0 then [last] else [])
  }

  predicate AllConsistent(s: seq<DualWord>) { forall i :: 0 <= i < |s| ==> Consistent(s[i]) }

  predicate AllEqual(s: seq<DualWord>) { forall i :: 0 <= i < |s| ==> s[i].reference == s[i].candidate }

  function ReuseRoute(k: nat): Route { Route(ZeroReferenceReuse, k == 0, NOTHING) }

  function DirectRoute(n: nat): Route
    requires n >= 1
  {
    Route(DirectAbsolute, true, Breakdown(0, 0, 1, 0, 0, n - 1, 1))
  }

  function ModularRoute(k: nat): Route {
    Route(ModularDifferential, k >= 1, if k == 0 then NOTHING else Breakdown(0, 0, 1, 0, 0, k, 0))
  }

  function AdditionRoutes(n: nat, k: nat): seq<Route>
    requires n >= 1
  {
    [ReuseRoute(k), DirectRoute(n), ModularRoute(k)]
  }

  function AdditionChoice(n: nat, k: nat): RouteName {
    if k == 0 then ZeroReferenceReuse else if k + 1 < n + 1 then ModularDifferential else DirectAbsolute
  }

  function PredictAddition(operands: seq<DualWord>, referenceResult: Word): Result<Prediction> {
    if |operands| < 2 then Err(TooFewOperands)
    else if SumOf(References(operands)) != referenceResult then Err(ReferenceSum)
    else
      var direct := SumOf(Candidates(operands));
      var nonzero := NonzeroDeltas(operands);
      var k := |nonzero|;
      match (FromModular(referenceResult, SumOf(nonzero)), FromAbsolute(referenceResult, direct))
      case (Err(e), _) => Err(e)
      case (_, Err(e)) => Err(e)
      case (Ok(modularValue), Ok(directValue)) =>
        if directValue != modularValue then Err(ModularIdentity)
        else if k == 0 then Reuse(referenceResult, AdditionRoutes(|operands|, 0))
        else Ok(Prediction(if k + 1 < |operands| + 1 then modularValue else directValue, AdditionRoutes(|operands|, k),
                           AdditionChoice(|operands|, k), 2, false))
  }

  lemma Exchange(a: Word, b: Word, c: Word, d: Word)
    ensures Plus(Plus(a, b), Plus(c, d)) == Plus(Plus(a, c), Plus(b, d))
  {
    hide Plus;
    PlusAssociates(a, b, Plus(c, d));
    PlusAssociates(b, c, d);
    PlusCommutes(b, c);
    PlusAssociates(c, b, d);
    PlusAssociates(a, c, Plus(b, d));
  }

  /** The sum of the candidates is the sum of the references plus the sum of the nonzero deltas. */
  lemma {:induction false} DeltasAdd(s: seq<DualWord>)
    requires AllConsistent(s)
    ensures SumOf(Candidates(s)) == Plus(SumOf(References(s)), SumOf(NonzeroDeltas(s)))
    ensures NonzeroDeltas(s) == [] <==> AllEqual(s)
  {
    hide Plus, Xor, Minus, Consistent, SumOf, NonzeroDeltas, AllEqual;
    if s == [] {
      NothingToAdd(s);
    } else {
      var rest, last := s[..|s| - 1], s[|s| - 1];
      DeltasAdd(rest);
      LastTerm(Candidates(s));
      LastTerm(References(s));
      assert Candidates(s)[..|s| - 1] == Candidates(rest) && References(s)[..|s| - 1] == References(rest);
      LastDelta(last, NonzeroDeltas(rest));
      DeltasSplit(s);
      Exchange(SumOf(References(rest)), last.reference, SumOf(NonzeroDeltas(rest)), last.modular);
      EqualSplits(s);
    }
  }

  lemma NothingToAdd(s: seq<DualWord>)
    requires s == []
    ensures SumOf(Candidates(s)) == Plus(SumOf(References(s)), SumOf(NonzeroDeltas(s)))
    ensures NonzeroDeltas(s) == [] && AllEqual(s)
  {
    hide Plus;
    NeutralZero(0);
  }

  lemma LastTerm(s: seq<Word>)
    requires s != []
    ensures SumOf(s) == Plus(SumOf(s[..|s| - 1]), s[|s| - 1])
  {
    hide Plus;
  }

  lemma DeltasSplit(s: seq<DualWord>)
    requires s != []
    ensures var last := s[|s| - 1].modular;
      NonzeroDeltas(s) == NonzeroDeltas(s[..|s| - 1]) + if last != 0 then [last] else []
  {}

  lemma EqualSplits(s: seq<DualWord>)
    requires s != []
    ensures AllEqual(s) <==> AllEqual(s[..|s| - 1]) && s[|s| - 1].reference == s[|s| - 1].candidate
  {}

  lemma LastDelta(w: DualWord, deltas: seq<Word>)
    requires Consistent(w)
    ensures w.candidate == Plus(w.reference, w.modular) && (w.modular == 0 <==> w.reference == w.candidate)
    ensures SumOf(deltas + if w.modular != 0 then [w.modular] else []) == Plus(SumOf(deltas), w.modular)
  {
    hide Plus, Xor, Minus;
    ConsistentIsDual(w);
    ZeroDelta(w.reference, w.candidate);
    NeutralZero(SumOf(deltas));
    assert (deltas + [w.modular])[..|deltas|] == deltas;
    assert deltas + [] == deltas;
  }

  /** predict_addition refuses exactly too few operands or a wrong reference result; otherwise it is
      exact, at one operation more than the nonzero deltas. */
  lemma AdditionPredicted(operands: seq<DualWord>, referenceResult: Word)
    requires AllConsistent(operands)
    ensures PredictAddition(operands, referenceResult).Ok? <==>
      |operands| >= 2 && referenceResult == SumOf(References(operands))
    ensures PredictAddition(operands, referenceResult).Ok? ==>
      var k := |NonzeroDeltas(operands)|;
      Predicts(PredictAddition(operands, referenceResult), referenceResult, SumOf(Candidates(operands)),
               if k == 0 then NOTHING else if k < |operands| then Breakdown(0, 0, 1, 0, 0, k, 0)
               else Breakdown(0, 0, 1, 0, 0, k - 1, 1))
  {
    hide Xor, Plus, Minus, SumOf, References, Candidates, NonzeroDeltas, Make, Consistent;
    var deltas, direct := SumOf(NonzeroDeltas(operands)), SumOf(Candidates(operands));
    DeltasAdd(operands);
    DomainsAgree(referenceResult, direct);
    DomainsAgree(referenceResult, referenceResult);
    PlusUndoes(referenceResult, deltas);
    if |operands| >= 2 && referenceResult == SumOf(References(operands)) {
      var k := |NonzeroDeltas(operands)|;
      if k == 0 { NoDeltas(NonzeroDeltas(operands), referenceResult); }
      AdditionChosen(PredictAddition(operands, referenceResult).value, |operands|, k);
    }
  }

  lemma NoDeltas(deltas: seq<Word>, x: Word)
    requires deltas == []
    ensures Plus(x, SumOf(deltas)) == x
  {
    hide Plus;
    NeutralZero(x);
  }

  lemma AdditionChosen(p: Prediction, n: nat, k: nat)
    requires n >= 2 && k <= n && p.routes == AdditionRoutes(n, k) && p.chosen == AdditionChoice(n, k)
    ensures Chosen(p).Ok? && Chosen(p).value.breakdown ==
      if k == 0 then NOTHING else if k < n then Breakdown(0, 0, 1, 0, 0, k, 0) else Breakdown(0, 0, 1, 0, 0, k - 1, 1)
  {
    hide Named, Breakdown.Total, Chosen, MinimalAmong;
    ReuseCost(k);
    DirectCost(n);
    ModularCost(k);
    var r, s, t := ReuseRoute(k), DirectRoute(n), ModularRoute(k);
    ThreeRoutes(p, r, s, t);
    if k == 0 {
      ChosenOfThree(p, r, r, s, t);
    } else if k < n {
      ChosenOfThree(p, t, r, s, t);
    } else {
      ChosenOfThree(p, s, r, s, t);
    }
  }

  lemma ChosenOfThree(p: Prediction, c: Route, r: Route, s: Route, t: Route)
    requires p.routes == [r, s, t] && Named(p.routes, p.chosen) == [c] && c.valid
    requires r.valid ==> c.breakdown.Total() <= r.breakdown.Total()
    requires s.valid ==> c.breakdown.Total() <= s.breakdown.Total()
    requires t.valid ==> c.breakdown.Total() <= t.breakdown.Total()
    ensures Chosen(p) == Ok(c)
  {
    hide Breakdown.Total, Named;
    MinimalOfThree(c.breakdown.Total(), r, s, t);
  }

  lemma MinimalOfThree(cost: nat, r: Route, s: Route, t: Route)
    requires r.valid ==> cost <= r.breakdown.Total()
    requires s.valid ==> cost <= s.breakdown.Total()
    requires t.valid ==> cost <= t.breakdown.Total()
    ensures MinimalAmong(cost, [r, s, t])
  {
    hide Breakdown.Total;
  }

  lemma ReuseCost(k: nat)
    ensures var r := ReuseRoute(k); r.name == ZeroReferenceReuse && (r.valid <==> k == 0) && r.breakdown.Total() == 0
  {}

  lemma DirectCost(n: nat)
    requires n >= 1
    ensures var r := DirectRoute(n); r.name == DirectAbsolute && r.valid && r.breakdown.Total() == n + 1
  {}

  lemma ModularCost(k: nat)
    ensures var r := ModularRoute(k);
      r.name == ModularDifferential && (r.valid <==> k >= 1) && (k >= 1 ==> r.breakdown.Total() == k + 1)
  {}
}
