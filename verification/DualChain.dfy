// Predicting a range of rounds from one represented state, with the candidate's words as the only
// outside input, and validating every prediction against the recorded candidate
// (tools/research_dual_domain_analysis.py).
module DualChain {
  import opened Sha256
  import opened DualWords
  import opened DualRounds
  import opened NonceDiffusion
  import opened DualDiffusion

  /** The recorded rounds of a compression and its message schedule by round number. */
  datatype Compression = Compression(rounds: seq<RoundRecord>, schedule: map<nat, Word>)

  function Matching(rounds: seq<RoundRecord>, n: nat): seq<RoundRecord> {
    if rounds == [] then []
    else
      var last := rounds[|rounds| - 1];
      Matching(rounds[..|rounds| - 1], n) + (if last.identity.round == n then [last] else [])
  }

  /** find_round: exactly one record may have the number. */
  function FindRound(c: Compression, n: nat): Result<RoundRecord> {
    var matches := Matching(c.rounds, n);
    if |matches| == 1 then Ok(matches[0]) else Err(RoundNotUnique)
  }

  lemma {:induction false} NoRound(rounds: seq<RoundRecord>, n: nat)
    requires forall i :: 0 <= i < |rounds| ==> !(rounds[i].identity.round == n)
    ensures Matching(rounds, n) == []
  {
    if rounds != [] { NoRound(rounds[..|rounds| - 1], n); }
  }

  lemma {:induction false} OneRound(rounds: seq<RoundRecord>, n: nat, i: nat)
    requires i < |rounds| && rounds[i].identity.round == n
    requires forall j :: 0 <= j < |rounds| && j != i ==> !(rounds[j].identity.round == n)
    ensures Matching(rounds, n) == [rounds[i]]
  {
    var k := |rounds| - 1;
    if i < k { OneRound(rounds[..k], n, i); } else { NoRound(rounds[..k], n); }
  }

  lemma {:induction false} TwoRounds(rounds: seq<RoundRecord>, n: nat, i: nat, j: nat)
    requires i < j < |rounds| && rounds[i].identity.round == n && rounds[j].identity.round == n
    ensures |Matching(rounds, n)| >= 2
  {
    var k := |rounds| - 1;
    if j < k { TwoRounds(rounds[..k], n, i, j); } else { SomeRound(rounds[..k], n, i); }
  }

  lemma {:induction false} SomeRound(rounds: seq<RoundRecord>, n: nat, i: nat)
    requires i < |rounds| && rounds[i].identity.round == n
    ensures |Matching(rounds, n)| >= 1
  {
    var k := |rounds| - 1;
    if i < k { SomeRound(rounds[..k], n, i); }
  }

  /** The only record of the round. */
  predicate OnlyRound(c: Compression, n: nat, i: nat) {
    i < |c.rounds| && c.rounds[i].identity.round == n
    && forall j :: 0 <= j < |c.rounds| && j != i ==> c.rounds[j].identity.round != n
  }

  /** A record is found exactly when it is the only one of its round. */
  lemma FindsOnlyRound(c: Compression, n: nat)
    ensures FindRound(c, n).Ok? <==> exists i: nat :: OnlyRound(c, n, i)
    ensures forall i: nat :: OnlyRound(c, n, i) ==> FindRound(c, n) == Ok(c.rounds[i])
  {
    hide Matching;
    forall i: nat | OnlyRound(c, n, i)
      ensures FindRound(c, n) == Ok(c.rounds[i])
    {
      OneRound(c.rounds, n, i);
    }
    if i: nat :| i < |c.rounds| && c.rounds[i].identity.round == n {
      if j: nat :| j < |c.rounds| && c.rounds[j].identity.round == n && j != i {
        TwoRounds(c.rounds, n, if i < j then i else j, if i < j then j else i);
      } else {
        assert OnlyRound(c, n, i);
      }
    } else {
      NoRound(c.rounds, n);
    }
  }

  // ----- genuine traces -----

  /** The working variables after i rounds over the words ws. */
  function StateAt(v: Vars, ws: seq<Word>, i: nat): Vars
    requires i <= |ws| <= 64
  {
    if i == 0 then v else Step(StateAt(v, ws, i - 1), K(i - 1), ws[i - 1])
  }

  function TrueRound(v: Vars, ws: seq<Word>, sha: nat, compression: nat, i: nat): RoundRecord
    requires i < |ws| <= 64
  {
    TrueRecord(Identity(sha, compression, i + 1), K(i), ws[i], StateAt(v, ws, i))
  }

  /** The records of a compression that was really executed. */
  ghost predicate Genuine(c: Compression, v: Vars, ws: seq<Word>, sha: nat, compression: nat) {
    && |c.rounds| == |ws| == 64
    && (forall i :: 0 <= i < 64 ==> c.rounds[i] == TrueRound(v, ws, sha, compression, i))
    && (forall i :: 0 <= i < 64 ==> i + 1 in c.schedule && c.schedule[i + 1] == ws[i])
  }

  /** The traced rounds of a block are genuine: the states are the working variables of SHA-256. */
  lemma {:induction false} WorkingIsGenuine(s: seq<Word>, block: seq<Octet>, ws: seq<Word>, i: nat)
    requires IsState(s) && IsBlock(block) && i <= |ws| == 64 && forall t :: 0 <= t < 64 ==> ws[t] == W(block, t)
    ensures StateAt(Load(s), ws, i) == Working(s, block, i)
  {
    hide Step, K, W, Load;
    if i > 0 { WorkingIsGenuine(s, block, ws, i - 1); }
  }

  lemma {:induction false} MatchingOf(rounds: seq<RoundRecord>, n: nat)
    requires forall i :: 0 <= i < |rounds| ==> rounds[i].identity.round == i + 1
    ensures Matching(rounds, n) == if 1 <= n <= |rounds| then [rounds[n - 1]] else []
  {
    if rounds != [] { MatchingOf(rounds[..|rounds| - 1], n); }
  }

  lemma FoundInGenuine(c: Compression, v: Vars, ws: seq<Word>, sha: nat, compression: nat, n: nat)
    requires Genuine(c, v, ws, sha, compression) && 1 <= n <= 64
    ensures FindRound(c, n) == Ok(TrueRound(v, ws, sha, compression, n - 1))
    ensures n in c.schedule && c.schedule[n] == ws[n - 1]
  {
    hide StateAt, K;
    forall i | 0 <= i < 64
      ensures c.rounds[i].identity.round == i + 1
    {
      assert c.rounds[i] == TrueRound(v, ws, sha, compression, i);
    }
    MatchingOf(c.rounds, n);
    assert n - 1 + 1 in c.schedule;
  }

  // ----- the oracle -----

  /** The recorded candidate values of a prediction's operations. */
  predicate OperationsMatch(o: Operations, c: RoundRecord) {
    && o.sum0.value.candidate == c.sum0 && o.sum1.value.candidate == c.sum1
    && o.choice.value.candidate == c.choice && o.majority.value.candidate == c.majority
    && o.temp1.value.candidate == c.temp1 && o.temp2.value.candidate == c.temp2
    && o.newA.value.candidate == c.newA && o.newE.value.candidate == c.newE
  }

  /** Every comparison of a prediction with the recorded candidate round. */
  predicate Confirms(c: Compression, p: RoundPrediction, w: Word) {
    var found := FindRound(c, p.identity.round);
    && found.Ok?
    && var r := found.value;
    && r.identity == p.identity && r.before == CandidateState(p.input) && r.after == CandidateState(p.output)
    && r.w == w && p.identity.round in c.schedule && c.schedule[p.identity.round] == r.w
    && r.k == p.k && OperationsMatch(p.operations, r)
  }

  /** On a genuine trace exactly those predictions are confirmed whose candidate values, word and position are those of
      a round of SHA-256: its state before and after, its eight intermediate values and its constant. */
  lemma ConfirmsOnlyTheTruth(c: Compression, v: Vars, ws: seq<Word>, sha: nat, compression: nat, p: RoundPrediction,
                             w: Word)
    requires Genuine(c, v, ws, sha, compression) && 1 <= p.identity.round <= 64
    ensures var n, o := p.identity.round, p.operations;
      var s, t := StateAt(v, ws, n - 1), StateAt(v, ws, n);
      Confirms(c, p, w) <==>
        && p.identity == Identity(sha, compression, n) && p.k == K(n - 1) && w == ws[n - 1]
        && CandidateState(p.input) == s && CandidateState(p.output) == t
        && o.sum0.value.candidate == BigSigma0(s.a) && o.sum1.value.candidate == BigSigma1(s.e)
        && o.choice.value.candidate == Ch(s.e, s.f, s.g) && o.majority.value.candidate == Maj(s.a, s.b, s.c)
        && o.temp1.value.candidate == Plus(Plus(Plus(Plus(s.h, BigSigma1(s.e)), Ch(s.e, s.f, s.g)), K(n - 1)), w)
        && o.temp2.value.candidate == Plus(BigSigma0(s.a), Maj(s.a, s.b, s.c))
        && o.newA.value.candidate == t.a && o.newE.value.candidate == t.e
  {
    hide FindRound, Genuine, K, Plus, BigSigma0, BigSigma1, Ch, Maj, StateAt, TrueRound, CandidateState;
    var n := p.identity.round;
    FoundInGenuine(c, v, ws, sha, compression, n);
    assert |ws| == 64 by { GenuineLength(c, v, ws, sha, compression); }
    TrueRoundParts(v, ws, sha, compression, n - 1);
  }

  lemma TrueRoundParts(v: Vars, ws: seq<Word>, sha: nat, compression: nat, i: nat)
    requires i < |ws| == 64
    ensures var r, s, t := TrueRound(v, ws, sha, compression, i), StateAt(v, ws, i), StateAt(v, ws, i + 1);
      && r.identity == Identity(sha, compression, i + 1) && r.k == K(i) && r.w == ws[i]
      && r.before == s && r.after == t && r.newA == t.a && r.newE == t.e
      && r.sum0 == BigSigma0(s.a) && r.sum1 == BigSigma1(s.e)
      && r.choice == Ch(s.e, s.f, s.g) && r.majority == Maj(s.a, s.b, s.c)
      && r.temp1 == Plus(Plus(Plus(Plus(s.h, BigSigma1(s.e)), Ch(s.e, s.f, s.g)), K(i)), ws[i])
      && r.temp2 == Plus(BigSigma0(s.a), Maj(s.a, s.b, s.c))
  {
    hide K, Plus, BigSigma0, BigSigma1, Ch, Maj;
  }

  lemma GenuineLength(c: Compression, v: Vars, ws: seq<Word>, sha: nat, compression: nat)
    requires Genuine(c, v, ws, sha, compression)
    ensures |ws| == 64
  {}

  class CandidateOracle {
    const compression: Compression
    var externalW: set<nat>
    var validated: set<nat>
    var bootstrapped: set<nat>

    constructor (c: Compression)
      ensures compression == c && externalW == {} && validated == {} && bootstrapped == {}
    {
      compression, externalW, validated, bootstrapped := c, {}, {}, {};
    }

    method ExternalW(n: nat) returns (r: Result<Word>)
      modifies this
      ensures r == (if FindRound(compression, n).Ok? then Ok(FindRound(compression, n).value.w)
        else Err(RoundNotUnique))
      ensures externalW == old(externalW) + (if r.Ok? then {n} else {})
      ensures validated == old(validated) && bootstrapped == old(bootstrapped)
    {
      var found := FindRound(compression, n);
      if found.Err? { return Err(RoundNotUnique); }
      externalW := externalW + {n};
      r := Ok(found.value.w);
    }

    method BootstrapBefore(n: nat) returns (r: Result<Vars>)
      modifies this
      ensures r == (if FindRound(compression, n).Ok? then Ok(FindRound(compression, n).value.before)
        else Err(RoundNotUnique))
      ensures bootstrapped == old(bootstrapped) + (if r.Ok? then {n} else {})
      ensures validated == old(validated) && externalW == old(externalW)
    {
      var found := FindRound(compression, n);
      if found.Err? { return Err(RoundNotUnique); }
      bootstrapped := bootstrapped + {n};
      r := Ok(found.value.before);
    }

    /** A round is confirmed once, after its word was handed out, and only if everything matches. */
    method ValidateRound(p: RoundPrediction, w: Word) returns (r: Result<()>)
      modifies this
      ensures r.Ok? <==>
        p.identity.round !in old(validated) && p.identity.round in old(externalW) && Confirms(compression, p, w)
      ensures validated == old(validated) + (if r.Ok? then {p.identity.round} else {})
      ensures externalW == old(externalW) && bootstrapped == old(bootstrapped)
    {
      var n := p.identity.round;
      if n in validated { return Err(OracleReused); }
      if n !in externalW { return Err(WNotAuthorized); }
      var found := FindRound(compression, n);
      if found.Err? { return Err(found.error); }
      var c := found.value;
      if c.identity != p.identity { return Err(BadIdentity); }
      if c.before != CandidateState(p.input) { return Err(BeforeMismatch); }
      if c.after != CandidateState(p.output) { return Err(AfterMismatch); }
      if c.w != w { return Err(WChanged); }
      if n !in compression.schedule || compression.schedule[n] != c.w { return Err(ScheduleMismatch); }
      if c.k != p.k { return Err(KDiffers); }
      if !OperationsMatch(p.operations, c) { return Err(IntermediateMismatch); }
      validated := validated + {n};
      r := Ok(());
    }
  }

  /** The state of two recorded BEFORE states. */
  method DualOfRecorded(r: Vars, c: Vars) returns (s: DualVars)
    ensures s == DualState(r, c)
  {
    s := DualState(r, c);
  }

  /** initial_prediction_state: equal states for the strict start, the recorded candidate only when allowed. */
  method InitialState(reference: RoundRecord, oracle: CandidateOracle, start: nat, strict: bool, allowBootstrap: bool)
    returns (res: Result<DualVars>)
    modifies oracle
    ensures oracle.validated == old(oracle.validated) && oracle.externalW == old(oracle.externalW)
    ensures strict ==> (res.Ok? <==> !allowBootstrap)
    ensures strict && res.Ok? ==> res.value == DualState(reference.before, reference.before)
    ensures strict ==> oracle.bootstrapped == old(oracle.bootstrapped)
    ensures !strict ==> (res.Ok? <==> allowBootstrap && FindRound(oracle.compression, start).Ok?)
    ensures !strict && res.Ok? ==>
      res.value == DualState(reference.before, FindRound(oracle.compression, start).value.before)
  {
    hide DualState, FindRound;
    if strict {
      if allowBootstrap { return Err(InputDiscontinuous); }
      var same := DualOfRecorded(reference.before, reference.before);
      return Ok(same);
    }
    if !allowBootstrap { return Err(InputDiscontinuous); }
    var candidate := oracle.BootstrapBefore(start);
    if candidate.Err? { return Err(candidate.error); }
    var both := DualOfRecorded(reference.before, candidate.value);
    res := Ok(both);
  }

  // ----- one round of the loop -----

  lemma ExactIsConfirmed(c: Compression, p: RoundPrediction, reference: RoundRecord, candidate: RoundRecord)
    requires FindRound(c, candidate.identity.round) == Ok(candidate) && candidate.identity == reference.identity
    requires candidate.identity.round in c.schedule && c.schedule[candidate.identity.round] == candidate.w
    requires candidate.k == reference.k && ExactRound(p, reference, candidate)
    ensures Confirms(c, p, candidate.w)
  {
    hide FindRound, Chosen, Cost, Xor, Minus;
    DualStateParts(reference.before, candidate.before);
    DualStateParts(reference.after, candidate.after);
  }

  lemma GenuineStep(v: Vars, ws: seq<Word>, sha: nat, compression: nat, i: nat)
    requires i < |ws| == 64
    ensures TrueRound(v, ws, sha, compression, i).after == StateAt(v, ws, i + 1)
    ensures TrueRound(v, ws, sha, compression, i).before == StateAt(v, ws, i)
    ensures CheckReference(TrueRound(v, ws, sha, compression, i), Identity(sha, compression, i + 1)).Ok?
  {
    hide K, Step, CheckReference, Plus, Temp1, Temp2, BigSigma0, BigSigma1, Ch, Maj;
    ReferenceCheckIsExact(TrueRound(v, ws, sha, compression, i), Identity(sha, compression, i + 1));
  }

  lemma DualIsRepresented(r: Vars, c: Vars)
    ensures Represented(DualState(r, c))
  {
    hide Dual;
    DualStateParts(r, c);
  }

  /** Everything one genuine round needs. */
  lemma GenuineRound(reference: Compression, candidate: Compression, rv: Vars, cv: Vars, rws: seq<Word>, cws: seq<Word>,
                     sha: nat, compression: nat, n: nat, p: RoundPrediction)
    requires |rws| == 64 && |cws| == 64
    requires 1 <= n <= 64 && Genuine(reference, rv, rws, sha, compression)
      && Genuine(candidate, cv, cws, sha, compression)
    ensures FindRound(reference, n) == Ok(TrueRound(rv, rws, sha, compression, n - 1))
    ensures FindRound(candidate, n) == Ok(TrueRound(cv, cws, sha, compression, n - 1))
    ensures n in reference.schedule && reference.schedule[n] == rws[n - 1]
    ensures ExactRound(p, TrueRound(rv, rws, sha, compression, n - 1), TrueRound(cv, cws, sha, compression, n - 1)) ==>
      Confirms(candidate, p, cws[n - 1]) && p.output == DualState(StateAt(rv, rws, n), StateAt(cv, cws, n))
  {
    hide FindRound, Genuine, StateAt, K, Confirms, ExactOperations, DualState, Step, Temp1, Temp2;
    FoundInGenuine(reference, rv, rws, sha, compression, n);
    FoundInGenuine(candidate, cv, cws, sha, compression, n);
    GenuineStep(rv, rws, sha, compression, n - 1);
    GenuineStep(cv, cws, sha, compression, n - 1);
    var r, c := TrueRound(rv, rws, sha, compression, n - 1), TrueRound(cv, cws, sha, compression, n - 1);
    if ExactRound(p, r, c) { ExactIsConfirmed(candidate, p, r, c); }
  }

  /** The distances recorded for a round are those between the two true rounds. */
  ghost predicate TrueDistances(diffusion: seq<DiffusionRound>, rv: Vars, cv: Vars, rws: seq<Word>, cws: seq<Word>,
                                sha: nat, compression: nat, n: nat)
    requires |rws| == |cws| == 64 && 1 <= n <= 64
  {
    FindDiffusion(diffusion, Identity(sha, compression, n))
      == Ok(Compared(TrueRound(rv, rws, sha, compression, n - 1), TrueRound(cv, cws, sha, compression, n - 1)))
  }

  /** Genuine traces and distances, a round the oracle has not confirmed yet, and a state that holds both
      true states. */
  ghost predicate ReadyFor(reference: Compression, oracle: CandidateOracle, diffusion: seq<DiffusionRound>,
                           state: DualVars, previous: seq<Vars>, rv: Vars, cv: Vars, rws: seq<Word>, cws: seq<Word>,
                           sha: nat, compression: nat, n: nat)
    requires |rws| == |cws| == 64 && 1 <= n <= 64
    reads oracle
  {
    && Genuine(reference, rv, rws, sha, compression) && Genuine(oracle.compression, cv, cws, sha, compression)
    && TrueDistances(diffusion, rv, cv, rws, cws, sha, compression, n)
    && n !in oracle.validated && state == DualState(StateAt(rv, rws, n - 1), StateAt(cv, cws, n - 1))
    && (previous == [] || previous == [StateAt(rv, rws, n - 1)])
  }

  ghost predicate ExactAt(p: RoundPrediction, rv: Vars, cv: Vars, rws: seq<Word>, cws: seq<Word>,
                          sha: nat, compression: nat, i: nat)
    requires |rws| == |cws| == 64 && i < 64
  {
    ExactRound(p, TrueRound(rv, rws, sha, compression, i), TrueRound(cv, cws, sha, compression, i))
  }

  /** One iteration: look the round up, predict it without the oracle, let the oracle compare, and compare the
      recorded distances. */
  method AnalyzeRound(reference: Compression, oracle: CandidateOracle, diffusion: seq<DiffusionRound>,
                      state: DualVars, previous: seq<Vars>, sha: nat, compression: nat, n: nat,
                      ghost rv: Vars, ghost cv: Vars, ghost rws: seq<Word>, ghost cws: seq<Word>)
    returns (res: Result<RoundPrediction>, after: seq<Vars>)
    requires |rws| == |cws| == 64 && 1 <= n <= 64
    modifies oracle
    ensures oracle.validated <= old(oracle.validated) + {n}
    ensures old(ReadyFor(reference, oracle, diffusion, state, previous, rv, cv, rws, cws, sha, compression, n)) ==>
      res.Ok? && after == [StateAt(rv, rws, n)]
        && res.value.output == DualState(StateAt(rv, rws, n), StateAt(cv, cws, n))
    ensures old(ReadyFor(reference, oracle, diffusion, state, previous, rv, cv, rws, cws, sha, compression, n)) ==>
      ExactAt(res.value, rv, cv, rws, cws, sha, compression, n - 1)
  {
    hide FindRound, Genuine, Confirms, ExactRound, StateAt, DualState, CheckReference, ReferenceState, CandidateState,
      Represented, TrueRecord, FindDiffusion, Compared, Recomputed;
    ghost var genuine := ReadyFor(reference, oracle, diffusion, state, previous, rv, cv, rws, cws, sha, compression, n);
    after := [];
    var r := FindRound(reference, n);
    if genuine { StartOfRound(reference, oracle.compression, state, rv, cv, rws, cws, sha, compression, n); }
    if r.Err? { return Err(r.error), after; }
    if previous != [] && r.value.before != previous[0] { return Err(TrajectoryDiscontinuous), after; }
    if n !in reference.schedule || reference.schedule[n] != r.value.w { return Err(ScheduleMismatch), after; }
    var w := oracle.ExternalW(n);
    if w.Err? { return Err(w.error), after; }
    var p := PredictRound(r.value, state, w.value, Identity(sha, compression, n));
    if p.Err? { return Err(p.error), after; }
    if genuine {
      GenuineRound(reference, oracle.compression, rv, cv, rws, cws, sha, compression, n, p.value);
    }
    var checked := oracle.ValidateRound(p.value, w.value);
    if checked.Err? { return Err(checked.error), after; }
    var recorded := FindDiffusion(diffusion, Identity(sha, compression, n));
    if recorded.Err? { return Err(recorded.error), after; }
    if genuine {
      DiffusionAgrees(p.value, TrueRound(rv, rws, sha, compression, n - 1),
        TrueRound(cv, cws, sha, compression, n - 1));
    }
    var agreed := ValidateDiffusion(p.value, recorded.value);
    if agreed.Err? { return Err(agreed.error), after; }
    res, after := p, [r.value.after];
  }

  /** On a genuine start the lookups succeed and the record of the candidate is the one predicted. */
  lemma StartOfRound(reference: Compression, candidate: Compression, state: DualVars, rv: Vars, cv: Vars,
                     rws: seq<Word>, cws: seq<Word>, sha: nat, compression: nat, n: nat)
    requires |rws| == 64 && |cws| == 64
    requires 1 <= n <= 64 && Genuine(reference, rv, rws, sha, compression)
      && Genuine(candidate, cv, cws, sha, compression)
    requires state == DualState(StateAt(rv, rws, n - 1), StateAt(cv, cws, n - 1))
    ensures var r, c := TrueRound(rv, rws, sha, compression, n - 1), TrueRound(cv, cws, sha, compression, n - 1);
      && FindRound(reference, n) == Ok(r) && FindRound(candidate, n) == Ok(c)
      && n in reference.schedule && reference.schedule[n] == r.w
      && CheckReference(r, Identity(sha, compression, n)).Ok?
      && Represented(state) && ReferenceState(state) == r.before == StateAt(rv, rws, n - 1) && r.identity.round == n
      && r.after == StateAt(rv, rws, n) && c.w == cws[n - 1]
      && c == TrueRecord(Identity(sha, compression, n), r.k, c.w, CandidateState(state))
  {
    hide FindRound, Genuine, StateAt, K, CheckReference, DualState, Step, Temp1, Temp2, Represented, ReferenceState,
      CandidateState;
    FoundInGenuine(reference, rv, rws, sha, compression, n);
    FoundInGenuine(candidate, cv, cws, sha, compression, n);
    GenuineStep(rv, rws, sha, compression, n - 1);
    DualIsRepresented(StateAt(rv, rws, n - 1), StateAt(cv, cws, n - 1));
    DualStateParts(StateAt(rv, rws, n - 1), StateAt(cv, cws, n - 1));
  }

  // ----- the loop -----

  ghost predicate CanStart(reference: Compression, oracle: CandidateOracle, diffusion: seq<DiffusionRound>,
                           initial: DualVars, rv: Vars, cv: Vars,
                           rws: seq<Word>, cws: seq<Word>, sha: nat, compression: nat, start: nat, end: nat)
    requires |rws| == |cws| == 64 && 1 <= start <= end <= 64
    reads oracle
  {
    && Genuine(reference, rv, rws, sha, compression) && Genuine(oracle.compression, cv, cws, sha, compression)
    && (forall n :: start <= n <= end ==>
          n !in oracle.validated && TrueDistances(diffusion, rv, cv, rws, cws, sha, compression, n))
    && initial == DualState(StateAt(rv, rws, start - 1), StateAt(cv, cws, start - 1))
  }

  /** Chaining the predictions simulates the candidate: on genuine traces no check fails in any
      range of rounds, and every prediction holds the two true states. */
  method AnalyzeRounds(reference: Compression, oracle: CandidateOracle, diffusion: seq<DiffusionRound>,
                       initial: DualVars, sha: nat, compression: nat,
                       start: nat, end: nat, ghost rv: Vars, ghost cv: Vars, ghost rws: seq<Word>, ghost cws: seq<Word>)
    returns (res: Result<seq<RoundPrediction>>)
    requires 1 <= start <= end <= 64 && |rws| == |cws| == 64
    modifies oracle
    ensures old(CanStart(reference, oracle, diffusion, initial, rv, cv, rws, cws, sha, compression, start, end)) ==>
      res.Ok? && |res.value| == end - start + 1
    ensures old(CanStart(reference, oracle, diffusion, initial, rv, cv, rws, cws, sha, compression, start, end)) ==>
      forall i :: 0 <= i < |res.value| ==> ExactAt(res.value[i], rv, cv, rws, cws, sha, compression, start - 1 + i)
  {
    hide Genuine, StateAt, DualState, TrueRound, ExactRound, FindRound, TrueDistances;
    ghost var genuine := CanStart(reference, oracle, diffusion, initial, rv, cv, rws, cws, sha, compression, start,
                                  end);
    var state, previous := initial, [];
    var predictions: seq<RoundPrediction> := [];
    for n := start to end + 1
      invariant |predictions| == n - start
      invariant genuine ==> forall m :: n <= m <= end ==> m !in oracle.validated
      invariant genuine ==> state == DualState(StateAt(rv, rws, n - 1), StateAt(cv, cws, n - 1))
      invariant genuine ==> previous == [] || previous == [StateAt(rv, rws, n - 1)]
      invariant genuine ==> forall i :: 0 <= i < n - start ==>
        ExactAt(predictions[i], rv, cv, rws, cws, sha, compression, start - 1 + i)
    {
      var p, after := AnalyzeRound(reference, oracle, diffusion, state, previous, sha, compression, n, rv, cv, rws,
        cws);
      if p.Err? { return Err(p.error); }
      predictions := predictions + [p.value];
      state, previous := p.value.output, after;
    }
    res := Ok(predictions);
  }

  // ----- the run over two nonces -----

  function WordsOf(block: seq<Octet>): (ws: seq<Word>)
    requires IsBlock(block)
    ensures |ws| == 64 && forall t :: 0 <= t < 64 ==> ws[t] == W(block, t)
  {
    seq(64, t requires 0 <= t < 64 => W(block, t))
  }

  /** The recorded second compressions of two nonces over one 76-byte prefix, the distances recorded between
      them, and an unused oracle. */
  ghost predicate NonceTraces(reference: Compression, oracle: CandidateOracle, diffusion: seq<DiffusionRound>,
                              prefix: Prefix, a: Word, b: Word, sha: nat, compression: nat)
    reads oracle
  {
    var v, rws, cws := Load(FirstState(prefix)), WordsOf(SecondBlock(prefix, a)), WordsOf(SecondBlock(prefix, b));
    && Genuine(reference, v, rws, sha, compression) && Genuine(oracle.compression, v, cws, sha, compression)
    && (forall n :: 1 <= n <= 64 ==> TrueDistances(diffusion, v, v, rws, cws, sha, compression, n))
    && oracle.validated == {}
  }

  /** Before round 4 the two nonces have left no difference. */
  lemma SameBeforeRoundFour(prefix: Prefix, a: Word, b: Word)
    ensures var v, p, q := Load(FirstState(prefix)), SecondBlock(prefix, a), SecondBlock(prefix, b);
      StateAt(v, WordsOf(p), 3) == StateAt(v, WordsOf(q), 3)
  {
    hide W, SecondBlock, FirstState, Working, StateAt;
    var s, p, q := FirstState(prefix), SecondBlock(prefix, a), SecondBlock(prefix, b);
    forall t | 0 <= t < 3
      ensures W(p, t) == W(q, t)
    {
      DirectWords(prefix, a, b, t);
    }
    SameWorking(s, p, q, 3);
    WorkingIsGenuine(s, p, WordsOf(p), 3);
    WorkingIsGenuine(s, q, WordsOf(q), 3);
  }

  /** Equal states are a true start at round 4, and the two recorded states are one at any round. */
  lemma StartIsTrue(reference: Compression, oracle: CandidateOracle, diffusion: seq<DiffusionRound>,
                    prefix: Prefix, a: Word, b: Word, sha: nat, compression: nat, start: nat, end: nat)
    requires NonceTraces(reference, oracle, diffusion, prefix, a, b, sha, compression) && 1 <= start <= end <= 64
    ensures var v, rws, cws := Load(FirstState(prefix)), WordsOf(SecondBlock(prefix, a)),
      WordsOf(SecondBlock(prefix, b));
      var r, c := FindRound(reference, start), FindRound(oracle.compression, start);
      && r.Ok? && c.Ok?
      && CanStart(reference, oracle, diffusion, DualState(r.value.before, c.value.before), v, v, rws, cws,
        sha, compression, start, end)
      && (start == 4 ==> r.value.before == c.value.before)
  {
    hide FindRound, Genuine, StateAt, K, DualState, FirstState, SecondBlock, WordsOf, TrueDistances;
    var v, rws, cws := Load(FirstState(prefix)), WordsOf(SecondBlock(prefix, a)), WordsOf(SecondBlock(prefix, b));
    FoundInGenuine(reference, v, rws, sha, compression, start);
    FoundInGenuine(oracle.compression, v, cws, sha, compression, start);
    if start == 4 { SameBeforeRoundFour(prefix, a, b); }
  }

  /** Traces of two nonces, with the strict start at round 4 or a permitted bootstrap. */
  ghost predicate Proper(reference: Compression, oracle: CandidateOracle, diffusion: seq<DiffusionRound>,
                         prefix: Prefix, a: Word, b: Word, sha: nat, compression: nat, start: nat,
                         strict: bool, allowBootstrap: bool)
    reads oracle
  {
    && NonceTraces(reference, oracle, diffusion, prefix, a, b, sha, compression)
    && strict != allowBootstrap && (strict ==> start == 4)
  }

  /** The whole analysis: the initial state, then the rounds. On the traces of two nonces no check fails,
      neither from the strict start at round 4 nor from a permitted bootstrap at any round, and every
      prediction holds the two true states. */
  method Analyze(reference: Compression, oracle: CandidateOracle, diffusion: seq<DiffusionRound>, sha: nat,
                 compression: nat, start: nat, end: nat, strict: bool, allowBootstrap: bool,
                 ghost prefix: Prefix, ghost a: Word, ghost b: Word)
    returns (res: Result<seq<RoundPrediction>>)
    requires 1 <= start <= end <= 64
    modifies oracle
    ensures strict == allowBootstrap ==> res.Err?
    ensures old(Proper(reference, oracle, diffusion, prefix, a, b, sha, compression, start, strict, allowBootstrap)) ==>
      res.Ok? && |res.value| == end - start + 1
    ensures old(Proper(reference, oracle, diffusion, prefix, a, b, sha, compression, start, strict, allowBootstrap)) ==>
      var v, rws, cws := Load(FirstState(prefix)), WordsOf(SecondBlock(prefix, a)), WordsOf(SecondBlock(prefix, b));
      forall i :: 0 <= i < |res.value| ==> ExactAt(res.value[i], v, v, rws, cws, sha, compression, start - 1 + i)
  {
    hide FindRound, Genuine, StateAt, DualState, FirstState, SecondBlock, ExactRound, TrueRound, TrueDistances;
    if NonceTraces(reference, oracle, diffusion, prefix, a, b, sha, compression) {
      StartIsTrue(reference, oracle, diffusion, prefix, a, b, sha, compression, start, end);
    }
    var first := FindRound(reference, start);
    if first.Err? { return Err(first.error); }
    var initial := InitialState(first.value, oracle, start, strict, allowBootstrap);
    if initial.Err? { return Err(initial.error); }
    res := AnalyzeRounds(reference, oracle, diffusion, initial.value, sha, compression, start, end,
                         Load(FirstState(prefix)), Load(FirstState(prefix)),
                         WordsOf(SecondBlock(prefix, a)), WordsOf(SecondBlock(prefix, b)));
  }
}
