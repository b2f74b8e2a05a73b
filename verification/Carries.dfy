// Bit-column addition and its carries, in the copies the research code keeps
// (src/research/context_phase2.cpp, src/research/context_trajectory.cpp,
// src/mining/mining_controller.cpp, tools/research_causal_analysis.py).
module Carries {
  import opened Arith

  type Uint32 = w: nat | w < BASE

  function Bit(x: nat, b: nat): nat { x / Pow(2, b) % 2 }

  function BitSum(ops: seq<Uint32>, b: nat): nat {
    if ops == [] then 0 else Bit(ops[0], b) + BitSum(ops[1..], b)
  }

  /** The sum of the operands' low b bits. */
  function LowSum(ops: seq<Uint32>, b: nat): nat {
    if ops == [] then 0 else ops[0] % Pow(2, b) + LowSum(ops[1..], b)
  }

  function Sum(ops: seq<Uint32>): nat {
    if ops == [] then 0 else ops[0] + Sum(ops[1..])
  }

  /** The carry out of the b low columns: what the low bits of the operands add up to beyond b bits. */
  function CarryInto(ops: seq<Uint32>, b: nat): nat { LowSum(ops, b) / Pow(2, b) }

  /** The low b bits of the sum. */
  function SumBits(ops: seq<Uint32>, b: nat): nat { LowSum(ops, b) % Pow(2, b) }

  // ----- one column -----

  lemma LowBitSplit(x: nat, b: nat)
    ensures x % Pow(2, b + 1) == x % Pow(2, b) + Pow(2, b) * Bit(x, b)
  {
    PowNext(2, b);
    SplitModulo(x, Pow(2, b));
  }

  lemma SplitModulo(x: nat, p: nat)
    requires p > 0
    ensures x % (2 * p) == x % p + p * (x / p % 2)
  {
    var q, r := x / p, x % p;
    var h, l := q / 2, q % 2;
    assert x == q * p + r && q == 2 * h + l;
    assert q * p == h * (2 * p) + l * p;
    assert l * p + r < 2 * p by { MulMono(l, 1, p); }
    DivisionIs(x, 2 * p, h, l * p + r);
    assert l * p == p * l;
  }

  lemma {:induction false} LowSumGrows(ops: seq<Uint32>, b: nat)
    ensures LowSum(ops, b + 1) == LowSum(ops, b) + Pow(2, b) * BitSum(ops, b)
  {
    hide Pow, Bit;
    if ops == [] {
    } else {
      LowSumGrows(ops[1..], b);
      LowBitSplit(ops[0], b);
      MulDistributes(Bit(ops[0], b), BitSum(ops[1..], b), Pow(2, b));
    }
  }

  lemma {:induction false} NoLowBits(ops: seq<Uint32>)
    ensures LowSum(ops, 0) == 0
  {
    if ops != [] { NoLowBits(ops[1..]); }
    PowZero(2);
  }

  /** One column: the incoming carry plus the operands' bits gives the sum bit and the outgoing carry. */
  lemma Column(ops: seq<Uint32>, b: nat)
    ensures var total := CarryInto(ops, b) + BitSum(ops, b);
      && CarryInto(ops, b + 1) == total / 2
      && (total % 2 != 0 ==> SumBits(ops, b + 1) == SumBits(ops, b) + Pow(2, b))
      && (total % 2 == 0 ==> SumBits(ops, b + 1) == SumBits(ops, b))
  {
    hide Pow, LowSum, BitSum;
    LowSumGrows(ops, b);
    PowNext(2, b);
    ColumnAlgebra(LowSum(ops, b), Pow(2, b), BitSum(ops, b));
  }

  lemma ColumnAlgebra(s: nat, p: nat, k: nat)
    requires p > 0
    ensures var n, total := s + p * k, s / p + k;
      n / (2 * p) == total / 2 && n % (2 * p) == if total % 2 != 0 then s % p + p else s % p
  {
    var q, r := s / p, s % p;
    assert s == q * p + r;
    ColumnHalves(s + p * k, q, r, p, k);
  }

  lemma ColumnHalves(n: nat, q: nat, r: nat, p: nat, k: nat)
    requires r < p && n == q * p + r + p * k
    ensures n / (2 * p) == (q + k) / 2 && n % (2 * p) == if (q + k) % 2 != 0 then r + p else r
  {
    var h, l := (q + k) / 2, (q + k) % 2;
    MulDistributes(q, k, p);
    assert n == (q + k) * p + r;
    Halved(q + k, h, l, p);
    DivisionIs(n, 2 * p, h, if l == 1 then p + r else r);
  }

  lemma Halved(total: nat, h: nat, l: nat, p: nat)
    requires total == 2 * h + l && l < 2
    ensures total * p == h * (2 * p) + if l == 1 then p else 0
  {
    MulDistributes(2 * h, l, p);
    MulAssoc(h, 2, p);
  }

  lemma {:induction false} AllLowBits(ops: seq<Uint32>)
    ensures LowSum(ops, 32) == Sum(ops)
  {
    if ops != [] {
      AllLowBits(ops[1..]);
      WordModulo(ops[0]);
    }
  }

  lemma WordModulo(x: Uint32)
    ensures x % Pow(2, 32) == x
  {
    PowerOf32();
  }

  lemma PowerOf32()
    ensures Pow(2, 32) == BASE
  {
    assert Pow(2, 8) == 256 by { assert Pow(2, 4) == 16; PowAdd(2, 4, 4); }
    PowAdd(2, 8, 8);
    PowAdd(2, 16, 16);
  }

  // ----- the pattern of nonzero carries -----

  /** Whether the carry out of column b is nonzero. */
  function Nonzero(ops: seq<Uint32>, b: nat): bool { CarryInto(ops, b + 1) != 0 }

  function Pattern(ops: seq<Uint32>): (p: seq<bool>)
    ensures |p| == 32 && forall b :: 0 <= b < 32 ==> p[b] == Nonzero(ops, b)
  {
    seq(32, b requires 0 <= b < 32 => Nonzero(ops, b))
  }

  function Trues(p: seq<bool>, n: nat): nat
    requires n <= |p|
  {
    if n == 0 then 0 else Trues(p, n - 1) + (if p[n - 1] then 1 else 0)
  }

  /** The length of the run of trues that ends before n. */
  function Current(p: seq<bool>, n: nat): nat
    requires n <= |p|
  {
    if n == 0 || !p[n - 1] then 0 else Current(p, n - 1) + 1
  }

  function Longest(p: seq<bool>, n: nat): nat
    requires n <= |p|
  {
    if n == 0 then 0 else Max(Longest(p, n - 1), Current(p, n))
  }

  function Max(x: nat, y: nat): nat { if x < y then y else x }

  /** Maximal runs, counted where they start. */
  function Chains(p: seq<bool>, n: nat): nat
    requires n <= |p|
  {
    if n == 0 then 0 else Chains(p, n - 1) + (if p[n - 1] && (n == 1 || !p[n - 2]) then 1 else 0)
  }

  function MaskOf(p: seq<bool>, n: nat): nat
    requires n <= |p|
  {
    if n == 0 then 0 else MaskOf(p, n - 1) + (if p[n - 1] then Pow(2, n - 1) else 0)
  }

  /** p is true throughout [i, i + k). */
  predicate Run(p: seq<bool>, i: nat, k: nat) {
    i + k <= |p| && forall j :: i <= j < i + k ==> p[j]
  }

  lemma {:induction false} CurrentIsRun(p: seq<bool>, n: nat)
    requires n <= |p|
    ensures Current(p, n) <= n && Run(p, n - Current(p, n), Current(p, n))
    ensures Current(p, n) < n ==> !p[n - Current(p, n) - 1]
  {
    if n > 0 && p[n - 1] { CurrentIsRun(p, n - 1); }
  }

  lemma CurrentMeans(p: seq<bool>, i: nat, k: nat)
    requires Run(p, i, k)
    ensures Current(p, i + k) >= k
  {
    CurrentIsRun(p, i + k);
  }

  /** Longest is the length of the longest run: one of that length exists and none is longer. */
  lemma {:induction false} LongestMeans(p: seq<bool>, n: nat)
    requires n <= |p|
    ensures exists i: nat :: i + Longest(p, n) <= n && Run(p, i, Longest(p, n))
    ensures forall i: nat, k: nat :: Run(p, i, k) && i + k <= n ==> k <= Longest(p, n)
  {
    hide Current, Run;
    if n == 0 {
      EmptyRun(p);
      assert 0 + Longest(p, 0) <= 0 && Run(p, 0, Longest(p, 0));
    } else {
      LongestMeans(p, n - 1);
      CurrentIsRun(p, n);
      if Longest(p, n) == Current(p, n) {
        assert Run(p, n - Current(p, n), Longest(p, n));
      }
      forall i: nat, k: nat | Run(p, i, k) && i + k <= n
        ensures k <= Longest(p, n)
      {
        if i + k == n { CurrentMeans(p, i, k); }
      }
    }
  }

  lemma EmptyRun(p: seq<bool>)
    ensures Run(p, 0, 0)
  {}

  lemma {:induction false} MaskBound(p: seq<bool>, n: nat)
    requires n <= |p|
    ensures MaskOf(p, n) < Pow(2, n)
  {
    if n > 0 { MaskBound(p, n - 1); }
  }

  /** The mask determines the pattern. */
  lemma {:induction false} MaskBit(p: seq<bool>, n: nat, b: nat)
    requires b < n <= |p|
    ensures Bit(MaskOf(p, n), b) == if p[b] then 1 else 0
  {
    hide Bit, Pow;
    MaskBound(p, n - 1);
    if b == n - 1 {
      TopBit(MaskOf(p, b), b, p[b]);
    } else {
      MaskBit(p, n - 1, b);
      if p[n - 1] { HigherBitIgnored(MaskOf(p, n - 1), b, n - 1); }
    }
  }

  lemma TopBit(x: nat, b: nat, on: bool)
    requires x < Pow(2, b)
    ensures Bit(if on then x + Pow(2, b) else x, b) == if on then 1 else 0
  {
    hide Pow;
    var p := Pow(2, b);
    DivisionIs(x, p, 0, x);
    DivAddMultiple(x, 1, p);
  }

  lemma HigherBitIgnored(x: nat, b: nat, c: nat)
    requires b < c
    ensures Bit(x + Pow(2, c), b) == Bit(x, b)
  {
    hide Pow;
    PowAdd(2, b, c - b);
    PowNext(2, c - b - 1);
    var p, h := Pow(2, b), Pow(2, c - b - 1);
    assert p * (2 * h) == (2 * h) * p;
    DivAddMultiple(x, 2 * h, p);
    assert 2 * h == h * 2;
    DivAddMultiple(x / p, h, 2);
  }

  // ----- the loops -----

  method ColumnTotal(ops: seq<Uint32>, carry: nat, bit: nat) returns (column: nat)
    ensures column == carry + BitSum(ops, bit)
  {
    hide Bit;
    column := carry;
    assert ops[0..] == ops;
    for i := 0 to |ops|
      invariant column + BitSum(ops[i..], bit) == carry + BitSum(ops, bit) && column >= 0
    {
      column := column + Bit(ops[i], bit);
    }
  }

  lemma NoCarry(ops: seq<Uint32>)
    ensures CarryInto(ops, 0) == 0 && SumBits(ops, 0) == 0
  {
    NoLowBits(ops);
    PowZero(2);
  }

  /** m is the largest of the carries out of the first n columns. */
  ghost predicate LargestCarry(ops: seq<Uint32>, n: nat, m: nat) {
    && (forall b: nat :: b <= n ==> CarryInto(ops, b) <= m)
    && exists b: nat :: b <= n && CarryInto(ops, b) == m
  }

  lemma LargestSoFar(ops: seq<Uint32>, n: nat, m: nat)
    requires LargestCarry(ops, n, m)
    ensures LargestCarry(ops, n + 1, Max(m, CarryInto(ops, n + 1)))
  {
    hide CarryInto;
    if m < CarryInto(ops, n + 1) {
      assert CarryInto(ops, n + 1) == Max(m, CarryInto(ops, n + 1));
    } else {
      var b: nat :| b <= n && CarryInto(ops, b) == m;
      assert b <= n + 1;
    }
  }

  lemma LargestStart(ops: seq<Uint32>)
    ensures LargestCarry(ops, 0, 0)
  {
    hide CarryInto;
    NoCarry(ops);
  }

  datatype Result<+T> = Ok(value: T) | NoOperands | SumDiffers

  datatype CarrySummary = CarrySummary(count: nat, maximumChain: nat, chainCount: nat, maximumCarry: nat, mask: nat)

  /** fixed_addition_carries */
  method FixedAdditionCarries(ops: seq<Uint32>) returns (r: Result<CarrySummary>)
    ensures ops == [] <==> r == NoOperands
    ensures ops != [] ==> r.Ok? && r.value.count == Trues(Pattern(ops), 32)
    ensures ops != [] ==>
      r.value.maximumChain == Longest(Pattern(ops), 32) && r.value.chainCount == Chains(Pattern(ops), 32)
    ensures ops != [] ==> r.value.mask == MaskOf(Pattern(ops), 32) && LargestCarry(ops, 32, r.value.maximumCarry)
  {
    if |ops| == 0 { return NoOperands; }
    hide CarryInto, LargestCarry, LowSum, BitSum, Pow;
    var p := Pattern(ops);
    var carry, count, chain, longest, chains, largest, mask := 0, 0, 0, 0, 0, 0, 0;
    var inChain := false;
    NoCarry(ops);
    LargestStart(ops);
    for bit := 0 to 32
      invariant 0 <= carry == CarryInto(ops, bit) && count == Trues(p, bit) && chain == Current(p, bit)
      invariant longest == Longest(p, bit) && chains == Chains(p, bit) && mask == MaskOf(p, bit)
      invariant inChain <==> bit > 0 && p[bit - 1]
      invariant 0 <= largest && LargestCarry(ops, bit, largest)
    {
      var column := ColumnTotal(ops, carry, bit);
      Column(ops, bit);
      carry := column / 2;
      LargestSoFar(ops, bit, largest);
      largest := Max(largest, carry);
      if carry != 0 {
        count := count + 1;
        chain := chain + 1;
        longest := Max(longest, chain);
        mask := mask + Pow(2, bit);
        if !inChain {
          chains := chains + 1;
          inChain := true;
        }
      } else {
        chain := 0;
        inChain := false;
      }
    }
    r := Ok(CarrySummary(count, longest, chains, largest, mask));
  }

  datatype Features = Features(count: nat, maximumChain: nat, chainCount: nat, maskPopcount: nat)

  /** carry_features: the same numbers by another loop. */
  method CarryFeatures(ops: seq<Uint32>) returns (r: Features)
    ensures var p := Pattern(ops); r == Features(Trues(p, 32), Longest(p, 32), Chains(p, 32), Trues(p, 32))
  {
    hide CarryInto, LowSum, BitSum, Pow;
    var p := Pattern(ops);
    var carry, count, popcount, chain, longest, chains := 0, 0, 0, 0, 0, 0;
    var inChain := false;
    NoCarry(ops);
    for bit := 0 to 32
      invariant 0 <= carry == CarryInto(ops, bit) && count == popcount == Trues(p, bit) && chain == Current(p, bit)
      invariant longest == Longest(p, bit) && chains == Chains(p, bit)
      invariant inChain <==> bit > 0 && p[bit - 1]
    {
      var column := ColumnTotal(ops, carry, bit);
      Column(ops, bit);
      carry := column / 2;
      if carry != 0 {
        count := count + 1;
        popcount := popcount + 1;
        if !inChain {
          inChain := true;
          chains := chains + 1;
          chain := 0;
        }
        chain := chain + 1;
        longest := Max(longest, chain);
      } else {
        inChain := false;
        chain := 0;
      }
    }
    r := Features(count, longest, chains, popcount);
  }

  datatype Addition = Addition(mask: nat, count: nat, longestRun: nat, maximumCarry: nat, finalCarry: nat)

  /** research_addition_json: refused exactly without operands or when the recorded result is not
      their sum modulo 2^32. */
  method ResearchAddition(ops: seq<Uint32>, expected: Uint32) returns (r: Result<Addition>)
    ensures ops == [] <==> r == NoOperands
    ensures ops != [] ==> (r == SumDiffers <==> expected != Sum(ops) % BASE)
    ensures r.Ok? ==> r.value.mask == MaskOf(Pattern(ops), 32) && r.value.count == Trues(Pattern(ops), 32)
    ensures r.Ok? ==> r.value.longestRun == Longest(Pattern(ops), 32) && LargestCarry(ops, 32, r.value.maximumCarry)
    ensures r.Ok? ==> r.value.finalCarry == Sum(ops) / BASE
  {
    if |ops| == 0 { return NoOperands; }
    hide CarryInto, LargestCarry, LowSum, BitSum, Pow, Sum, SumBits;
    var p := Pattern(ops);
    var carry, reconstructed, count, run, longest, largest, mask := 0, 0, 0, 0, 0, 0, 0;
    NoCarry(ops);
    LargestStart(ops);
    for bit := 0 to 32
      invariant 0 <= carry == CarryInto(ops, bit) && count == Trues(p, bit) && run == Current(p, bit)
      invariant 0 <= reconstructed == SumBits(ops, bit)
      invariant longest == Longest(p, bit) && mask == MaskOf(p, bit)
      invariant 0 <= largest && LargestCarry(ops, bit, largest)
    {
      var column := ColumnTotal(ops, carry, bit);
      Column(ops, bit);
      if column % 2 != 0 { reconstructed := reconstructed + Pow(2, bit); }
      carry := column / 2;
      LargestSoFar(ops, bit, largest);
      largest := Max(largest, carry);
      if carry != 0 {
        mask := mask + Pow(2, bit);
        count := count + 1;
        run := run + 1;
        longest := Max(longest, run);
      } else {
        run := 0;
      }
    }
    WholeSum(ops);
    if reconstructed != expected { return SumDiffers; }
    r := Ok(Addition(mask, count, longest, largest, carry));
  }

  lemma WholeSum(ops: seq<Uint32>)
    ensures SumBits(ops, 32) == Sum(ops) % BASE && CarryInto(ops, 32) == Sum(ops) / BASE
  {
    AllLowBits(ops);
    PowerOf32();
  }

  /** longest_nonzero_run, on the recorded mask: the run length the column loops report. */
  method LongestNonzeroRun(mask: nat, ghost p: seq<bool>) returns (longest: nat)
    requires |p| == 32 && mask == MaskOf(p, 32)
    ensures longest == Longest(p, 32)
  {
    hide Bit, Pow, MaskOf;
    longest := 0;
    var current := 0;
    for bit := 0 to 32
      invariant 0 <= current == Current(p, bit) && longest == Longest(p, bit)
    {
      MaskBit(p, 32, bit);
      if Bit(mask, bit) == 1 {
        current := current + 1;
        longest := Max(longest, current);
      } else {
        current := 0;
      }
    }
  }

  // ----- the expectation over a uniform addend -----

  /** expected_uniform_addend_carries, over the reals. */
  method ExpectedUniformAddendCarries(fixedWord: Uint32) returns (r: real)
    ensures r == Expected(fixedWord, 31)
  {
    hide Pow;
    r := 0.0;
    for bit := 1 to 32
      invariant r == Expected(fixedWord, bit - 1)
    {
      r := r + (fixedWord % Pow(2, bit)) as real / Pow(2, bit) as real;
    }
  }

  function Expected(f: Uint32, bits: nat): real {
    if bits == 0 then 0.0 else Expected(f, bits - 1) + (f % Pow(2, bits)) as real / Pow(2, bits) as real
  }

  /** Whether f + u carries out of its low b bits. */
  predicate Carries(f: Uint32, u: nat, b: nat) { f % Pow(2, b) + u % Pow(2, b) >= Pow(2, b) }

  /** The number of carries of f + u out of bits 0 to n - 1. */
  function CarriesOf(f: Uint32, u: nat, n: nat): nat {
    if n == 0 then 0 else CarriesOf(f, u, n - 1) + (if Carries(f, u, n) then 1 else 0)
  }

  /** The sum of those numbers over the addends below limit. */
  function TotalCarries(f: Uint32, n: nat, limit: nat): nat {
    if limit == 0 then 0 else TotalCarries(f, n, limit - 1) + CarriesOf(f, limit - 1, n)
  }

  /** How many addends below limit make bit b - 1 carry. */
  function Carriers(f: Uint32, b: nat, limit: nat): nat {
    if limit == 0 then 0 else Carriers(f, b, limit - 1) + (if Carries(f, limit - 1, b) then 1 else 0)
  }

  /** Summing over addends first or over bits first is the same. */
  lemma {:induction false} Swap(f: Uint32, n: nat, limit: nat)
    requires n > 0
    ensures TotalCarries(f, n, limit) == TotalCarries(f, n - 1, limit) + Carriers(f, n, limit)
  {
    hide Carries;
    if limit > 0 { Swap(f, n, limit - 1); }
  }

  lemma {:induction false} NoBits(f: Uint32, limit: nat)
    ensures TotalCarries(f, 0, limit) == 0
  {
    if limit > 0 { NoBits(f, limit - 1); }
  }

  /** In every period of 2^b addends, f mod 2^b of them carry: the last ones. */
  lemma {:induction false} CarriersCount(f: Uint32, b: nat, limit: nat)
    ensures var m, r := Pow(2, b), f % Pow(2, b);
      Carriers(f, b, limit) == limit / m * r + Excess(limit % m + r, m)
  {
    hide Pow;
    var m, r := Pow(2, b), f % Pow(2, b);
    if limit == 0 {
      DivisionIs(0, m, 0, 0);
    } else {
      CarriersCount(f, b, limit - 1);
      NextPeriod(limit - 1, m, r);
    }
  }

  function Excess(x: nat, m: nat): nat { if x <= m then 0 else x - m }

  lemma NextPeriod(u: nat, m: nat, r: nat)
    requires m > 0 && r < m
    ensures (u + 1) / m * r + Excess((u + 1) % m + r, m)
      == u / m * r + Excess(u % m + r, m) + (if r + u % m >= m then 1 else 0)
  {
    var q, x := u / m, u % m;
    assert u == q * m + x;
    if x + 1 < m {
      DivisionIs(u + 1, m, q, x + 1);
    } else {
      MulDistributes(q, 1, m);
      DivisionIs(u + 1, m, q + 1, 0);
      MulDistributes(q, 1, r);
    }
  }

  /** Over all 2^32 addends the bit below 2^b carries 2^(32 - b) * (f mod 2^b) times. */
  lemma CarriersOverAll(f: Uint32, b: nat)
    requires b <= 32
    ensures Carriers(f, b, Pow(2, 32)) == Pow(2, 32 - b) * (f % Pow(2, b))
  {
    hide Pow, Carriers;
    CarriersCount(f, b, Pow(2, 32));
    PowAdd(2, 32 - b, b);
    DivisionIs(Pow(2, 32), Pow(2, b), Pow(2, 32 - b), 0);
  }

  /** The expectation is the exact average, over all 2^32 addends, of the carries out of the low bits. */
  lemma {:induction false} ExpectationIsAverage(f: Uint32, bits: nat)
    requires bits <= 32
    ensures Expected(f, bits) * Pow(2, 32) as real == TotalCarries(f, bits, Pow(2, 32)) as real
  {
    hide Pow, TotalCarries, Carriers, Expected;
    if bits == 0 {
      NoBits(f, Pow(2, 32));
      NothingExpected(f);
    } else {
      ExpectationIsAverage(f, bits - 1);
      ExpectedNext(f, bits);
      Swap(f, bits, Pow(2, 32));
      CarriersOverAll(f, bits);
      PowAdd(2, 32 - bits, bits);
      ScaleUp(Expected(f, bits - 1), f % Pow(2, bits), Pow(2, bits), Pow(2, 32 - bits));
    }
  }

  lemma NothingExpected(f: Uint32)
    ensures Expected(f, 0) == 0.0
  {}

  lemma ExpectedNext(f: Uint32, bits: nat)
    requires bits > 0
    ensures Expected(f, bits) == Expected(f, bits - 1) + (f % Pow(2, bits)) as real / Pow(2, bits) as real
  {}

  lemma ScaleUp(e: real, r: nat, m: nat, k: nat)
    requires m > 0
    ensures (e + r as real / m as real) * (k * m) as real == e * (k * m) as real + (k * r) as real
  {
    var x, y, z := r as real, m as real, k as real;
    assert (k * m) as real == z * y && (k * r) as real == z * x;
    CancelReal(x, y, z);
  }

  lemma CancelReal(x: real, y: real, z: real)
    requires y != 0.0
    ensures x / y * (z * y) == z * x
  {
    var q := x / y;
    assert q * y == x;
    assert q * (z * y) == z * (q * y);
  }

  /** The pairs of the expectation are the columns of the loops: for two operands the carry out of
      the low b bits is one exactly when they reach 2^b. */
  lemma TwoOperandCarry(f: Uint32, u: Uint32, b: nat)
    ensures CarryInto([f, u], b) == if Carries(f, u, b) then 1 else 0
  {
    hide Pow;
    var m := Pow(2, b);
    assert [f, u][1..] == [u] && [u][1..] == [];
    var s := f % m + u % m;
    assert LowSum([], b) == 0;
    assert LowSum([u], b) == u % m + LowSum([], b);
    assert LowSum([f, u], b) == f % m + LowSum([u], b);
    if s >= m { DivisionIs(s, m, 1, s - m); } else { DivisionIs(s, m, 0, s); }
  }
}
