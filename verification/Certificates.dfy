// Minimal context certificates of one bit position: the smallest set of reference input bits that
// already fixes what the known input differences do (tools/research_causal_analysis.py).
module Certificates {

  type Bits = s: seq<nat> | forall i :: 0 <= i < |s| ==> s[i] < 2

  // ----- subsets and assignments, in the order of itertools -----

  function Prepended(x: nat, ss: seq<seq<nat>>): (r: seq<seq<nat>>)
    ensures |r| == |ss| && forall i :: 0 <= i < |r| ==> r[i] == [x] + ss[i]
  {
    seq(|ss|, i requires 0 <= i < |ss| => [x] + ss[i])
  }

  lemma PrependedHas(x: nat, ss: seq<seq<nat>>, s: seq<nat>)
    ensures s in Prepended(x, ss) <==> |s| > 0 && s[0] == x && s[1..] in ss
  {
    if |s| > 0 && s[0] == x && s[1..] in ss {
      var i :| 0 <= i < |ss| && ss[i] == s[1..];
      assert Prepended(x, ss)[i] == s;
    }
    if s in Prepended(x, ss) {
      var i :| 0 <= i < |ss| && Prepended(x, ss)[i] == s;
      assert s[1..] == ss[i];
    }
  }

  /** itertools.combinations(range(low, n), size) */
  function Combinations(low: nat, n: nat, size: nat): seq<seq<nat>>
    requires low <= n
    decreases n - low
  {
    if size == 0 then [[]]
    else if low == n then []
    else Prepended(low, Combinations(low + 1, n, size - 1)) + Combinations(low + 1, n, size)
  }

  predicate Ascending(s: seq<nat>) { forall i, j :: 0 <= i < j < |s| ==> s[i] < s[j] }

  /** A set of indices in [low, n). */
  predicate IsSubset(s: seq<nat>, low: nat, n: nat) {
    Ascending(s) && forall i :: 0 <= i < |s| ==> low <= s[i] < n
  }

  /** The combinations are exactly the subsets of their size. */
  lemma {:induction false} CombinationsAreSubsets(low: nat, n: nat, size: nat, s: seq<nat>)
    requires low <= n
    ensures s in Combinations(low, n, size) <==> |s| == size && IsSubset(s, low, n)
    decreases n - low
  {
    hide IsSubset, Prepended;
    if size == 0 {
      assert Combinations(low, n, 0) == [[]];
      if |s| == 0 { NoIndices(s, low, n); }
    } else if low == n {
      assert Combinations(low, n, size) == [];
      if |s| == size { NoRoom(s, low); }
    } else {
      var first, rest := Combinations(low + 1, n, size - 1), Combinations(low + 1, n, size);
      assert Combinations(low, n, size) == Prepended(low, first) + rest;
      assert s in Combinations(low, n, size) <==> s in Prepended(low, first) || s in rest;
      CombinationsAreSubsets(low + 1, n, size, s);
      PrependedHas(low, first, s);
      if |s| > 0 {
        CombinationsAreSubsets(low + 1, n, size - 1, s[1..]);
        HeadSplits(s, low, n);
      }
    }
  }

  /** Lexicographic order. */
  predicate Precedes(s: seq<nat>, t: seq<nat>) {
    |s| > 0 && |t| > 0 && (s[0] < t[0] || (s[0] == t[0] && Precedes(s[1..], t[1..])))
  }

  lemma {:induction false} OneWay(s: seq<nat>, t: seq<nat>)
    requires Precedes(s, t)
    ensures !Precedes(t, s) && s != t
  {
    if s[0] == t[0] { OneWay(s[1..], t[1..]); }
  }

  /** The combinations come in lexicographic order. */
  lemma {:induction false} CombinationsInOrder(low: nat, n: nat, size: nat, j: nat, k: nat)
    requires low <= n && j < k < |Combinations(low, n, size)|
    ensures Precedes(Combinations(low, n, size)[j], Combinations(low, n, size)[k])
    decreases n - low
  {
    if size > 0 && low < n {
      var first, rest := Combinations(low + 1, n, size - 1), Combinations(low + 1, n, size);
      var all := Combinations(low, n, size);
      assert all == Prepended(low, first) + rest;
      if k < |first| {
        CombinationsInOrder(low + 1, n, size - 1, j, k);
        assert all[j][1..] == first[j] && all[k][1..] == first[k];
      } else if j < |first| {
        assert all[k] in rest;
        CombinationsAreSubsets(low + 1, n, size, all[k]);
      } else {
        CombinationsInOrder(low + 1, n, size, j - |first|, k - |first|);
      }
    }
  }

  lemma NoRoom(s: seq<nat>, low: nat)
    requires |s| > 0
    ensures !IsSubset(s, low, low)
  {
    assert !(low <= s[0] < low);
  }

  lemma NoIndices(s: seq<nat>, low: nat, n: nat)
    requires |s| == 0
    ensures s == [] && IsSubset(s, low, n)
  {}

  lemma HeadSplits(s: seq<nat>, low: nat, n: nat)
    requires |s| > 0 && low < n
    ensures IsSubset(s, low, n) <==> IsSubset(s, low + 1, n) || (s[0] == low && IsSubset(s[1..], low + 1, n))
  {
    if IsSubset(s, low, n) {
      forall i | 0 < i < |s| ensures s[i] > s[0] {}
      if s[0] == low {
        forall i, j | 0 <= i < j < |s[1..]| ensures s[1..][i] < s[1..][j] {
          assert s[i + 1] < s[j + 1];
        }
      }
    }
    if s[0] == low && IsSubset(s[1..], low + 1, n) {
      forall i, j | 0 <= i < j < |s| ensures s[i] < s[j] {
        if i > 0 { assert s[1..][i - 1] < s[1..][j - 1]; } else { assert s[1..][j - 1] >= low + 1; }
      }
      forall i | 0 <= i < |s| ensures low <= s[i] < n {
        if i > 0 { assert s[1..][i - 1] < n; }
      }
    }
  }

  /** itertools.product((0, 1), repeat=n) */
  function Assignments(n: nat): seq<seq<nat>> {
    if n == 0 then [[]] else Prepended(0, Assignments(n - 1)) + Prepended(1, Assignments(n - 1))
  }

  predicate AreBits(a: seq<nat>) { forall i :: 0 <= i < |a| ==> a[i] < 2 }

  lemma {:induction false} AssignmentsAreBits(n: nat, a: seq<nat>)
    ensures a in Assignments(n) <==> |a| == n && AreBits(a)
  {
    hide Prepended, AreBits;
    if n == 0 {
      if |a| == 0 { NoBits(a); }
    } else {
      var rest := Assignments(n - 1);
      PrependedHas(0, rest, a);
      PrependedHas(1, rest, a);
      if |a| > 0 {
        AssignmentsAreBits(n - 1, a[1..]);
        HeadBit(a);
      }
    }
  }

  lemma NoBits(a: seq<nat>)
    requires |a| == 0
    ensures a == [] && AreBits(a)
  {}

  lemma HeadBit(a: seq<nat>)
    requires |a| > 0
    ensures AreBits(a) <==> a[0] < 2 && AreBits(a[1..])
  {
    if a[0] < 2 && AreBits(a[1..]) {
      forall i | 0 <= i < |a| ensures a[i] < 2 {
        if i > 0 { assert a[1..][i - 1] < 2; }
      }
    }
  }

  // ----- certificates -----

  predicate Agrees(a: seq<nat>, actual: Bits, subset: seq<nat>)
    requires |a| == |actual| && forall i :: 0 <= i < |subset| ==> subset[i] < |actual|
  {
    forall i :: 0 <= i < |subset| ==> a[subset[i]] == actual[subset[i]]
  }

  /** Whatever the other inputs are, agreeing with the actual ones on the subset gives the actual outcome. */
  ghost predicate Fixes<T(!new)>(subset: seq<nat>, actual: Bits, outcome: Bits -> T)
    requires IsSubset(subset, 0, |actual|)
  {
    forall a: Bits :: |a| == |actual| && Agrees(a, actual, subset) ==> outcome(a) == outcome(actual)
  }

  /** The first subset that fixes the outcome: no smaller one does, nor an equally small one before it. */
  ghost predicate Minimal<T(!new)>(subset: seq<nat>, actual: Bits, outcome: Bits -> T) {
    && IsSubset(subset, 0, |actual|) && Fixes(subset, actual, outcome)
    && (forall s :: IsSubset(s, 0, |actual|) && |s| < |subset| ==> !Fixes(s, actual, outcome))
    && forall s :: IsSubset(s, 0, |actual|) && |s| == |subset| && Precedes(s, subset) ==> !Fixes(s, actual, outcome)
  }

  function Everything(n: nat): (s: seq<nat>)
    ensures IsSubset(s, 0, n) && |s| == n
  {
    seq(n, i => i)
  }

  /** All the inputs together always fix the outcome. */
  lemma EverythingFixes<T(!new)>(actual: Bits, outcome: Bits -> T)
    ensures Fixes(Everything(|actual|), actual, outcome)
  {
    var all := Everything(|actual|);
    forall a: Bits | |a| == |actual| && Agrees(a, actual, all)
      ensures outcome(a) == outcome(actual)
    {
      forall i | 0 <= i < |a| ensures a[i] == actual[i] {
        assert a[all[i]] == actual[all[i]];
      }
      assert a == actual;
    }
  }

  /** The inner loop: try every assignment that agrees on the subset. */
  method Valid<T(!new, ==)>(subset: seq<nat>, actual: Bits, outcome: Bits -> T) returns (valid: bool)
    requires IsSubset(subset, 0, |actual|)
    ensures valid <==> Fixes(subset, actual, outcome)
  {
    hide Assignments;
    var target := outcome(actual);
    var all := Assignments(|actual|);
    AllAreBits(|actual|);
    for k := 0 to |all|
      invariant forall j :: 0 <= j < k && Agrees(all[j], actual, subset) ==> Outcome(outcome, all[j]) == target
    {
      var a := all[k];
      assert a in all;
      if Agrees(a, actual, subset) && outcome(a) != target {
        assert Outcome(outcome, a) != target;
        return false;
      }
    }
    forall a: Bits | |a| == |actual| && Agrees(a, actual, subset)
      ensures outcome(a) == outcome(actual)
    {
      AssignmentsAreBits(|actual|, a);
      var j :| 0 <= j < |all| && all[j] == a;
      assert Outcome(outcome, all[j]) == target;
    }
    valid := true;
  }

  function Outcome<T>(outcome: Bits -> T, a: seq<nat>): T
    requires forall i :: 0 <= i < |a| ==> a[i] < 2
  {
    outcome(a)
  }

  lemma AllAreBits(n: nat)
    ensures forall j :: 0 <= j < |Assignments(n)| ==>
      |Assignments(n)[j]| == n && forall i :: 0 <= i < n ==> Assignments(n)[j][i] < 2
  {
    forall j | 0 <= j < |Assignments(n)|
      ensures |Assignments(n)[j]| == n && forall i :: 0 <= i < n ==> Assignments(n)[j][i] < 2
    {
      AssignmentsAreBits(n, Assignments(n)[j]);
    }
  }

  datatype Certificate = Found(subset: seq<nat>) | NoCertificate

  /** No subset of the given size, among the first k combinations. */
  ghost predicate Refuted<T(!new)>(actual: Bits, outcome: Bits -> T, size: nat, k: nat) {
    var all := Combinations(0, |actual|, size);
    k <= |all| && forall j :: 0 <= j < k && IsSubset(all[j], 0, |actual|) ==> !Fixes(all[j], actual, outcome)
  }

  lemma SizeRefuted<T(!new)>(actual: Bits, outcome: Bits -> T, size: nat)
    requires Refuted(actual, outcome, size, |Combinations(0, |actual|, size)|)
    ensures forall s :: IsSubset(s, 0, |actual|) && |s| == size ==> !Fixes(s, actual, outcome)
  {
    hide Combinations, Fixes;
    var all := Combinations(0, |actual|, size);
    forall s | IsSubset(s, 0, |actual|) && |s| == size
      ensures !Fixes(s, actual, outcome)
    {
      CombinationsAreSubsets(0, |actual|, size, s);
      var j :| 0 <= j < |all| && all[j] == s;
    }
  }

  /** What comes before the k-th combination is among the first k. */
  lemma BeforeRefuted<T(!new)>(actual: Bits, outcome: Bits -> T, size: nat, k: nat)
    requires k < |Combinations(0, |actual|, size)| && Refuted(actual, outcome, size, k)
    ensures var subset := Combinations(0, |actual|, size)[k];
      forall s :: IsSubset(s, 0, |actual|) && |s| == size && Precedes(s, subset) ==> !Fixes(s, actual, outcome)
  {
    hide Combinations, Fixes, Precedes, IsSubset;
    var all := Combinations(0, |actual|, size);
    forall s | IsSubset(s, 0, |actual|) && |s| == size && Precedes(s, all[k])
      ensures !Fixes(s, actual, outcome)
    {
      CombinationsAreSubsets(0, |actual|, size, s);
      var j :| 0 <= j < |all| && all[j] == s;
      OneWay(s, all[k]);
      if k < j { CombinationsInOrder(0, |actual|, size, k, j); }
    }
  }

  /** The search by size: it always finds a certificate, the first of the smallest. */
  method MinimalCertificate<T(!new, ==)>(actual: Bits, outcome: Bits -> T) returns (r: Certificate)
    ensures r.Found? && Minimal(r.subset, actual, outcome)
  {
    hide Combinations, Fixes;
    var n := |actual|;
    r := NoCertificate;
    for size := 0 to n + 1
      invariant forall s :: IsSubset(s, 0, n) && |s| < size ==> !Fixes(s, actual, outcome)
    {
      var all := Combinations(0, n, size);
      for k := 0 to |all|
        invariant Refuted(actual, outcome, size, k)
      {
        CombinationsAreSubsets(0, n, size, all[k]);
        assert all[k] in all;
        var valid := Valid(all[k], actual, outcome);
        if valid {
          BeforeRefuted(actual, outcome, size, k);
          return Found(all[k]);
        }
      }
      SizeRefuted(actual, outcome, size);
    }
    EverythingFixes(actual, outcome);
    assert false;
  }

  // ----- the two searches of the analysis -----

  function Flipped(a: Bits, delta: Bits): (r: Bits)
    requires |a| == |delta|
    ensures |r| == |a| && forall i :: 0 <= i < |r| ==> r[i] == (a[i] + delta[i]) % 2
  {
    seq(|a|, i requires 0 <= i < |a| => (a[i] + delta[i]) % 2)
  }

  /** The output difference of a Boolean function under the known input differences. */
  function BooleanOutcome(f: Bits -> nat, delta: Bits): Bits -> nat {
    (a: Bits) => if |a| == |delta| then (f(Flipped(a, delta)) + f(a)) % 2 else 0
  }

  /** local_boolean_certificate */
  method LocalBooleanCertificate(actual: Bits, delta: Bits, f: Bits -> nat) returns (r: Certificate)
    requires |actual| == |delta|
    ensures r.Found? && Minimal(r.subset, actual, BooleanOutcome(f, delta))
  {
    r := MinimalCertificate(actual, BooleanOutcome(f, delta));
  }

  function Count(a: Bits): nat {
    if a == [] then 0 else Count(a[..|a| - 1]) + a[|a| - 1]
  }

  /** The output difference bit and both carries of one column. */
  function AdditionOutcome(delta: Bits, referenceCarry: nat, candidateCarry: nat): Bits -> (nat, nat, nat) {
    (a: Bits) =>
      if |a| == |delta| then ColumnOutcome(referenceCarry + Count(a), candidateCarry + Count(Flipped(a, delta)))
      else (0, 0, 0)
  }

  function ColumnOutcome(reference: nat, candidate: nat): (nat, nat, nat) {
    ((reference + candidate) % 2, reference / 2, candidate / 2)
  }

  /** local_addition_certificate, for any number of operands and any incoming carries */
  method LocalAdditionCertificate(actual: Bits, delta: Bits, referenceCarry: nat, candidateCarry: nat)
    returns (r: Certificate)
    requires |actual| == |delta|
    ensures r.Found? && Minimal(r.subset, actual, AdditionOutcome(delta, referenceCarry, candidateCarry))
  {
    r := MinimalCertificate(actual, AdditionOutcome(delta, referenceCarry, candidateCarry));
  }

  /** The differences change the value of the function. */
  predicate Changes(f: Bits -> nat, a: Bits, delta: Bits)
    requires |a| == |delta|
  {
    f(Flipped(a, delta)) != f(a)
  }

  /** A set fixes the outcome of a Boolean function exactly when, whatever the other inputs are, the known differences
      change its value or do not as with the actual inputs. */
  lemma FixesBoolean(subset: seq<nat>, actual: Bits, delta: Bits, f: Bits -> nat)
    requires |actual| == |delta| && IsSubset(subset, 0, |actual|) && forall a: Bits :: f(a) < 2
    ensures Fixes(subset, actual, BooleanOutcome(f, delta)) <==>
      forall a: Bits :: |a| == |actual| && Agrees(a, actual, subset) ==>
        (Changes(f, a, delta) <==> Changes(f, actual, delta))
  {
    forall a: Bits | |a| == |actual|
      ensures BooleanOutcome(f, delta)(a) == if Changes(f, a, delta) then 1 else 0
    {
      assert f(a) < 2 && f(Flipped(a, delta)) < 2;
    }
  }

  /** Two columns of the same operand differences with the same difference bit and carries. */
  predicate SameColumn(a: Bits, b: Bits, delta: Bits, referenceCarry: nat, candidateCarry: nat)
    requires |a| == |b| == |delta|
  {
    var r, c := referenceCarry + Count(a), candidateCarry + Count(Flipped(a, delta));
    var r', c' := referenceCarry + Count(b), candidateCarry + Count(Flipped(b, delta));
    (r % 2 == c % 2 <==> r' % 2 == c' % 2) && r / 2 == r' / 2 && c / 2 == c' / 2
  }

  /** A set fixes a column exactly when all columns that agree on it have its difference bit and carries. */
  lemma FixesColumn(subset: seq<nat>, actual: Bits, delta: Bits, referenceCarry: nat, candidateCarry: nat)
    requires |actual| == |delta| && IsSubset(subset, 0, |actual|)
    ensures Fixes(subset, actual, AdditionOutcome(delta, referenceCarry, candidateCarry)) <==>
      forall a: Bits :: |a| == |actual| && Agrees(a, actual, subset) ==>
        SameColumn(a, actual, delta, referenceCarry, candidateCarry)
  {
    hide Count, Flipped, AdditionOutcome, ColumnOutcome, SameColumn, Agrees;
    var outcome := AdditionOutcome(delta, referenceCarry, candidateCarry);
    forall a: Bits | |a| == |actual|
      ensures outcome(a) == outcome(actual) <==> SameColumn(a, actual, delta, referenceCarry, candidateCarry)
    {
      OutcomeOf(delta, referenceCarry, candidateCarry, a);
      OutcomeOf(delta, referenceCarry, candidateCarry, actual);
      SameOutcome(a, actual, delta, referenceCarry, candidateCarry);
    }
  }

  lemma SameOutcome(a: Bits, b: Bits, delta: Bits, referenceCarry: nat, candidateCarry: nat)
    requires |a| == |b| == |delta|
    ensures SameColumn(a, b, delta, referenceCarry, candidateCarry) <==>
      ColumnOutcome(referenceCarry + Count(a), candidateCarry + Count(Flipped(a, delta)))
        == ColumnOutcome(referenceCarry + Count(b), candidateCarry + Count(Flipped(b, delta)))
  {
    hide Count, Flipped, ColumnOutcome;
    ColumnsSame(referenceCarry + Count(a), candidateCarry + Count(Flipped(a, delta)),
                referenceCarry + Count(b), candidateCarry + Count(Flipped(b, delta)));
  }

  lemma ColumnsSame(x: nat, y: nat, u: nat, v: nat)
    ensures ColumnOutcome(x, y) == ColumnOutcome(u, v) <==>
      (x % 2 == y % 2 <==> u % 2 == v % 2) && x / 2 == u / 2 && y / 2 == v / 2
  {}

  /** A column adds up its ones. */
  lemma {:induction false} CountIsOnes(a: Bits)
    ensures Count(a) == multiset(a)[1]
  {
    if a != [] {
      CountIsOnes(a[..|a| - 1]);
      assert a == a[..|a| - 1] + [a[|a| - 1]];
    }
  }

  /** What a certificate is for: two columns that agree on it have the same difference and carries. */
  lemma CertificateFixesColumn(subset: seq<nat>, actual: Bits, other: Bits, delta: Bits, referenceCarry: nat,
                               candidateCarry: nat)
    requires |actual| == |other| == |delta|
    requires Minimal(subset, actual, AdditionOutcome(delta, referenceCarry, candidateCarry))
    requires IsSubset(subset, 0, |actual|) && Agrees(other, actual, subset)
    ensures (referenceCarry + Count(other)) / 2 == (referenceCarry + Count(actual)) / 2
    ensures (candidateCarry + Count(Flipped(other, delta))) / 2 == (candidateCarry + Count(Flipped(actual, delta))) / 2
    ensures (referenceCarry + Count(other) + candidateCarry + Count(Flipped(other, delta))) % 2
      == (referenceCarry + Count(actual) + candidateCarry + Count(Flipped(actual, delta))) % 2
  {
    hide Count, Flipped, Minimal, AdditionOutcome, ColumnOutcome;
    FixedOutcome(subset, actual, other, AdditionOutcome(delta, referenceCarry, candidateCarry));
    OutcomeOf(delta, referenceCarry, candidateCarry, other);
    OutcomeOf(delta, referenceCarry, candidateCarry, actual);
    ColumnParts(referenceCarry + Count(other), candidateCarry + Count(Flipped(other, delta)),
                referenceCarry + Count(actual), candidateCarry + Count(Flipped(actual, delta)));
  }

  lemma FixedOutcome<T(!new)>(subset: seq<nat>, actual: Bits, other: Bits, outcome: Bits -> T)
    requires |actual| == |other| && Minimal(subset, actual, outcome) && IsSubset(subset, 0, |actual|)
      && Agrees(other, actual, subset)
    ensures outcome(other) == outcome(actual)
  {}

  lemma OutcomeOf(delta: Bits, referenceCarry: nat, candidateCarry: nat, a: Bits)
    requires |a| == |delta|
    ensures AdditionOutcome(delta, referenceCarry, candidateCarry)(a)
      == ColumnOutcome(referenceCarry + Count(a), candidateCarry + Count(Flipped(a, delta)))
  {
    hide Count, Flipped, ColumnOutcome;
  }

  lemma ColumnParts(x: nat, y: nat, u: nat, v: nat)
    requires ColumnOutcome(x, y) == ColumnOutcome(u, v)
    ensures (x + y) % 2 == (u + v) % 2 && x / 2 == u / 2 && y / 2 == v / 2
  {}
}
