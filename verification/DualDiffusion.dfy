// The Hamming distances recorded between two traces, and their comparison with the distances that a
// prediction implies (research_diffusion_json in src/mining/mining_controller.cpp; find_diffusion_round and
// validate_diffusion in tools/research_dual_domain_analysis.py).
module DualDiffusion {
  import opened Sha256
  import opened DualWords
  import opened DualRounds
  import NonceDiffusion

  /** The distances of the eight registers and their sum. */
  datatype Distances = Distances(registers: seq<nat>, total: nat)

  datatype Metrics = Metrics(
    w: nat, rotr2A: nat, rotr13A: nat, rotr22A: nat, sum0: nat, rotr6E: nat, rotr11E: nat, rotr25E: nat, sum1: nat,
    choice: nat, majority: nat, temp1: nat, temp2: nat, before: Distances, after: Distances)

  datatype DiffusionRound = DiffusionRound(identity: Identity, metrics: Metrics)

  /** The number of bits in which two words differ. */
  function Distance(x: Word, y: Word): nat { NonceDiffusion.Ones(Xor(x, y)) }

  type Amount = n: nat | n in {2, 6, 11, 13, 22, 25} witness 2

  function Turned(x: Word, n: Amount): Word {
    if n == 2 then x.RotateRight(2) else if n == 6 then x.RotateRight(6) else if n == 11 then x.RotateRight(11)
    else if n == 13 then x.RotateRight(13) else if n == 22 then x.RotateRight(22) else x.RotateRight(25)
  }

  /** Turning is a rotation to the right: what falls out at one end comes in at the other. */
  lemma TurnIsRotation(x: Word)
    ensures Turned(x, 2) == (x >> 2) | (x << 30) && Turned(x, 6) == (x >> 6) | (x << 26)
    ensures Turned(x, 11) == (x >> 11) | (x << 21) && Turned(x, 13) == (x >> 13) | (x << 19)
    ensures Turned(x, 22) == (x >> 22) | (x << 10) && Turned(x, 25) == (x >> 25) | (x << 7)
  {
    Rotation2(x);
    Rotation6(x);
    Rotation11(x);
    Rotation13(x);
    Rotation22(x);
    Rotation25(x);
  }

  lemma Rotation2(x: Word)
    ensures x.RotateRight(2) == (x >> 2) | (x << 30)
  {}

  lemma Rotation6(x: Word)
    ensures x.RotateRight(6) == (x >> 6) | (x << 26)
  {}

  lemma Rotation11(x: Word)
    ensures x.RotateRight(11) == (x >> 11) | (x << 21)
  {}

  lemma Rotation13(x: Word)
    ensures x.RotateRight(13) == (x >> 13) | (x << 19)
  {}

  lemma Rotation22(x: Word)
    ensures x.RotateRight(22) == (x >> 22) | (x << 10)
  {}

  lemma Rotation25(x: Word)
    ensures x.RotateRight(25) == (x >> 25) | (x << 7)
  {}

  function Sum(s: seq<nat>): nat {
    if s == [] then 0 else Sum(s[..|s| - 1]) + s[|s| - 1]
  }

  function Registers(v: Vars): seq<Word> { [v.a, v.b, v.c, v.d, v.e, v.f, v.g, v.h] }

  function DualRegisters(v: DualVars): seq<DualWord> { [v.a, v.b, v.c, v.d, v.e, v.f, v.g, v.h] }

  // ----- what the trace comparison records -----

  function StateDistances(r: Vars, c: Vars): Distances {
    var registers := seq(8, i requires 0 <= i < 8 => Distance(Registers(r)[i], Registers(c)[i]));
    Distances(registers, Sum(registers))
  }

  /** The total is that of the eight registers. */
  lemma TotalOfRegisters(r: Vars, c: Vars)
    ensures StateDistances(r, c).total
      == Distance(r.a, c.a) + Distance(r.b, c.b) + Distance(r.c, c.c) + Distance(r.d, c.d)
        + Distance(r.e, c.e) + Distance(r.f, c.f) + Distance(r.g, c.g) + Distance(r.h, c.h)
  {
    hide Distance, Sum;
    var s := StateDistances(r, c).registers;
    forall k | 0 <= k < 8 ensures Sum(s[..k + 1]) == Sum(s[..k]) + s[k] { SumNext(s, k); }
    assert s[..8] == s && Sum(s[..0]) == 0 by { SumEmpty(); }
    assert s[0] == Distance(r.a, c.a) && s[1] == Distance(r.b, c.b) && s[2] == Distance(r.c, c.c);
    assert s[3] == Distance(r.d, c.d) && s[4] == Distance(r.e, c.e) && s[5] == Distance(r.f, c.f);
    assert s[6] == Distance(r.g, c.g) && s[7] == Distance(r.h, c.h);
  }

  lemma SumNext(s: seq<nat>, k: nat)
    requires k < |s|
    ensures Sum(s[..k + 1]) == Sum(s[..k]) + s[k]
  {
    var t := s[..k + 1];
    assert t[..|t| - 1] == s[..k] && t[|t| - 1] == s[k];
  }

  lemma SumEmpty()
    ensures Sum([]) == 0
  {}

  /** compare_round: the distances between two recorded rounds. */
  function Compared(r: RoundRecord, c: RoundRecord): Metrics {
    Metrics(Distance(r.w, c.w),
            Distance(Turned(r.before.a, 2), Turned(c.before.a, 2)),
            Distance(Turned(r.before.a, 13), Turned(c.before.a, 13)),
            Distance(Turned(r.before.a, 22), Turned(c.before.a, 22)),
            Distance(r.sum0, c.sum0),
            Distance(Turned(r.before.e, 6), Turned(c.before.e, 6)),
            Distance(Turned(r.before.e, 11), Turned(c.before.e, 11)),
            Distance(Turned(r.before.e, 25), Turned(c.before.e, 25)),
            Distance(r.sum1, c.sum1), Distance(r.choice, c.choice), Distance(r.majority, c.majority),
            Distance(r.temp1, c.temp1), Distance(r.temp2, c.temp2),
            StateDistances(r.before, c.before), StateDistances(r.after, c.after))
  }

  // ----- what the prediction implies -----

  function DeltaOnes(w: DualWord): nat { NonceDiffusion.Ones(w.xor) }

  function DualDistances(v: DualVars): Distances {
    var registers := seq(8, i requires 0 <= i < 8 => DeltaOnes(DualRegisters(v)[i]));
    Distances(registers, Sum(registers))
  }

  /** The distances by the XOR differences of a prediction alone. */
  function Recomputed(p: RoundPrediction): Metrics {
    var a, e, o := p.input.a.xor, p.input.e.xor, p.operations;
    Metrics(DeltaOnes(p.w),
            NonceDiffusion.Ones(Turned(a, 2)), NonceDiffusion.Ones(Turned(a, 13)),
            NonceDiffusion.Ones(Turned(a, 22)), DeltaOnes(o.sum0.value),
            NonceDiffusion.Ones(Turned(e, 6)), NonceDiffusion.Ones(Turned(e, 11)),
            NonceDiffusion.Ones(Turned(e, 25)), DeltaOnes(o.sum1.value),
            DeltaOnes(o.choice.value), DeltaOnes(o.majority.value), DeltaOnes(o.temp1.value), DeltaOnes(o.temp2.value),
            DualDistances(p.input), DualDistances(p.output))
  }

  // ----- they agree -----

  lemma TurnedDelta(x: Word, y: Word, n: Amount)
    ensures Turned(Xor(x, y), n) == Xor(Turned(x, n), Turned(y, n))
  {
    if n == 2 { By2(x, y); } else if n == 6 { By6(x, y); } else if n == 11 { By11(x, y); }
    else if n == 13 { By13(x, y); } else if n == 22 { By22(x, y); } else { By25(x, y); }
  }

  lemma By2(x: Word, y: Word)
    ensures (x ^ y).RotateRight(2) == x.RotateRight(2) ^ y.RotateRight(2)
  {}

  lemma By6(x: Word, y: Word)
    ensures (x ^ y).RotateRight(6) == x.RotateRight(6) ^ y.RotateRight(6)
  {}

  lemma By11(x: Word, y: Word)
    ensures (x ^ y).RotateRight(11) == x.RotateRight(11) ^ y.RotateRight(11)
  {}

  lemma By13(x: Word, y: Word)
    ensures (x ^ y).RotateRight(13) == x.RotateRight(13) ^ y.RotateRight(13)
  {}

  lemma By22(x: Word, y: Word)
    ensures (x ^ y).RotateRight(22) == x.RotateRight(22) ^ y.RotateRight(22)
  {}

  lemma By25(x: Word, y: Word)
    ensures (x ^ y).RotateRight(25) == x.RotateRight(25) ^ y.RotateRight(25)
  {}

  lemma DeltaIsDistance(r: Word, c: Word)
    ensures Dual(r, c).xor == Xor(r, c) && DeltaOnes(Dual(r, c)) == Distance(r, c)
  {
    hide Xor, Minus;
  }

  lemma DualIsDistances(r: Vars, c: Vars)
    ensures DualDistances(DualState(r, c)) == StateDistances(r, c)
  {
    hide DeltaOnes, Distance, Dual;
    var x, y := DualDistances(DualState(r, c)).registers, StateDistances(r, c).registers;
    forall i | 0 <= i < 8
      ensures x[i] == y[i]
    {
      DeltaIsDistance(Registers(r)[i], Registers(c)[i]);
    }
    assert x == y;
  }

  /** An exact prediction implies exactly the distances the trace comparison records. */
  lemma DiffusionAgrees(p: RoundPrediction, r: RoundRecord, c: RoundRecord)
    requires ExactRound(p, r, c)
    ensures Recomputed(p) == Compared(r, c)
  {
    hide Dual, Xor, Turned, DualDistances, StateDistances, DeltaOnes, Chosen, Cost, NonceDiffusion.Ones;
    DualIsDistances(r.before, c.before);
    DualIsDistances(r.after, c.after);
    DeltaIsDistance(r.before.a, c.before.a);
    DeltaIsDistance(r.before.e, c.before.e);
    TurnedDelta(r.before.a, c.before.a, 2);
    TurnedDelta(r.before.a, c.before.a, 13);
    TurnedDelta(r.before.a, c.before.a, 22);
    TurnedDelta(r.before.e, c.before.e, 6);
    TurnedDelta(r.before.e, c.before.e, 11);
    TurnedDelta(r.before.e, c.before.e, 25);
    DeltaIsDistance(r.w, c.w);
    DeltaIsDistance(r.sum0, c.sum0);
    DeltaIsDistance(r.sum1, c.sum1);
    DeltaIsDistance(r.choice, c.choice);
    DeltaIsDistance(r.majority, c.majority);
    DeltaIsDistance(r.temp1, c.temp1);
    DeltaIsDistance(r.temp2, c.temp2);
  }

  // ----- the checks of the analysis -----

  function MatchingDiffusion(rounds: seq<DiffusionRound>, identity: Identity): seq<DiffusionRound> {
    if rounds == [] then []
    else
      var last := rounds[|rounds| - 1];
      MatchingDiffusion(rounds[..|rounds| - 1], identity) + (if last.identity == identity then [last] else [])
  }

  /** find_diffusion_round: exactly one record may have the position. */
  function FindDiffusion(rounds: seq<DiffusionRound>, identity: Identity): Result<Metrics> {
    var matches := MatchingDiffusion(rounds, identity);
    if |matches| == 1 then Ok(matches[0].metrics) else Err(DiffusionNotUnique)
  }

  lemma {:induction false} NoMatch(rounds: seq<DiffusionRound>, identity: Identity)
    requires forall i :: 0 <= i < |rounds| ==> !(rounds[i].identity == identity)
    ensures MatchingDiffusion(rounds, identity) == []
  {
    if rounds != [] { NoMatch(rounds[..|rounds| - 1], identity); }
  }

  lemma {:induction false} OneMatch(rounds: seq<DiffusionRound>, identity: Identity, i: nat)
    requires i < |rounds| && rounds[i].identity == identity
    requires forall j :: 0 <= j < |rounds| && j != i ==> !(rounds[j].identity == identity)
    ensures MatchingDiffusion(rounds, identity) == [rounds[i]]
  {
    var k := |rounds| - 1;
    if i < k { OneMatch(rounds[..k], identity, i); } else { NoMatch(rounds[..k], identity); }
  }

  lemma {:induction false} TwoMatches(rounds: seq<DiffusionRound>, identity: Identity, i: nat, j: nat)
    requires i < j < |rounds| && rounds[i].identity == identity && rounds[j].identity == identity
    ensures |MatchingDiffusion(rounds, identity)| >= 2
  {
    var k := |rounds| - 1;
    if j < k { TwoMatches(rounds[..k], identity, i, j); } else { SomeMatch(rounds[..k], identity, i); }
  }

  lemma {:induction false} SomeMatch(rounds: seq<DiffusionRound>, identity: Identity, i: nat)
    requires i < |rounds| && rounds[i].identity == identity
    ensures |MatchingDiffusion(rounds, identity)| >= 1
  {
    var k := |rounds| - 1;
    if i < k { SomeMatch(rounds[..k], identity, i); }
  }

  /** The only record of the position. */
  predicate OnlyDiffusion(rounds: seq<DiffusionRound>, identity: Identity, i: nat) {
    i < |rounds| && rounds[i].identity == identity
    && forall j :: 0 <= j < |rounds| && j != i ==> rounds[j].identity != identity
  }

  /** A record is found exactly when it is the only one of its position. */
  lemma FindsOnlyDiffusion(rounds: seq<DiffusionRound>, identity: Identity)
    ensures FindDiffusion(rounds, identity).Ok? <==> exists i: nat :: OnlyDiffusion(rounds, identity, i)
    ensures forall i: nat :: OnlyDiffusion(rounds, identity, i) ==>
      FindDiffusion(rounds, identity) == Ok(rounds[i].metrics)
  {
    hide MatchingDiffusion;
    forall i: nat | OnlyDiffusion(rounds, identity, i)
      ensures FindDiffusion(rounds, identity) == Ok(rounds[i].metrics)
    {
      OneMatch(rounds, identity, i);
    }
    if i: nat :| i < |rounds| && rounds[i].identity == identity {
      if j: nat :| j < |rounds| && rounds[j].identity == identity && j != i {
        TwoMatches(rounds, identity, if i < j then i else j, if i < j then j else i);
      } else {
        assert OnlyDiffusion(rounds, identity, i);
      }
    } else {
      NoMatch(rounds, identity);
    }
  }

  /** validate_diffusion: refused exactly when some recorded distance is not the predicted one. */
  method ValidateDiffusion(p: RoundPrediction, recorded: Metrics) returns (r: Result<()>)
    ensures r.Ok? <==> recorded == Recomputed(p)
  {
    hide Recomputed;
    var implied := Recomputed(p);
    if recorded.(before := implied.before, after := implied.after) != implied { return Err(DiffusionMismatch); }
    if recorded.before != implied.before || recorded.after != implied.after { return Err(DiffusionMismatch); }
    r := Ok(());
  }
}
