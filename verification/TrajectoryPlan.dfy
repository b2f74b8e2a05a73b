// The trajectory planner's assignment of whole prevhash groups to three partitions
// (make_plan in src/research/context_trajectory.cpp).
module TrajectoryPlan {
  import opened RoundRobin

  /** The target fractions, exact in binary. */
  function Fraction(p: nat): real
    requires p < 3
  {
    if p == 0 then 0.5 else 0.25
  }

  /** How far partition p is below its target. */
  function Deficit(p: nat, count: nat, given: seq<nat>): real
    requires p < 3 && |given| == 3
  {
    Fraction(p) * count as real - given[p] as real
  }

  /** What the groups visited so far, with partition p, add up to. */
  function Load(order: seq<nat>, owner: seq<nat>, quotas: seq<nat>, p: nat, n: nat): nat
    requires n <= |order| && |owner| == |quotas|
    requires forall i :: 0 <= i < |order| ==> order[i] < |quotas|
  {
    if n == 0 then 0
    else Load(order, owner, quotas, p, n - 1) + (if owner[order[n - 1]] == p then quotas[order[n - 1]] else 0)
  }

  /** Every group exactly once: the shuffled visiting order. */
  predicate Permutation(order: seq<nat>, n: nat) {
    && |order| == n && (forall i :: 0 <= i < n ==> order[i] < n)
    && (forall i, j :: 0 <= i < j < n ==> order[i] != order[j])
    && forall g :: 0 <= g < n ==> g in order
  }

  function Visited(order: seq<nat>, quotas: seq<nat>, n: nat): nat
    requires n <= |order| && forall i :: 0 <= i < |order| ==> order[i] < |quotas|
  {
    if n == 0 then 0 else Visited(order, quotas, n - 1) + quotas[order[n - 1]]
  }

  // ----- a permutation visits everything -----

  function Only(order: seq<nat>, quotas: seq<nat>, n: nat): (r: seq<nat>)
    requires n <= |order| && (forall i :: 0 <= i < |order| ==> order[i] < |quotas|)
    ensures |r| == |quotas|
  {
    seq(|quotas|, g requires 0 <= g < |quotas| => if g in order[..n] then quotas[g] else 0)
  }

  lemma NothingVisited(order: seq<nat>, quotas: seq<nat>)
    requires Permutation(order, |quotas|)
    ensures Total(Only(order, quotas, 0)) == 0
    ensures |order| == 0 ==> Only(order, quotas, 0) == quotas
  {
    ZeroTotal(Only(order, quotas, 0));
  }

  lemma {:induction false} VisitedOf(order: seq<nat>, quotas: seq<nat>, n: nat)
    requires Permutation(order, |quotas|) && n <= |order|
    ensures Visited(order, quotas, n) == Total(Only(order, quotas, n))
    ensures n == |order| ==> Only(order, quotas, n) == quotas
  {
    hide Total, Only;
    if n == 0 {
      NothingVisited(order, quotas);
    } else {
      VisitedOf(order, quotas, n - 1);
      OnlyNext(order, quotas, n);
      TotalUpdate(Only(order, quotas, n - 1), order[n - 1], quotas[order[n - 1]]);
      if n == |order| { OnlyAll(order, quotas); }
    }
  }

  lemma OnlyNext(order: seq<nat>, quotas: seq<nat>, n: nat)
    requires Permutation(order, |quotas|) && 0 < n <= |order|
    ensures var s, g := Only(order, quotas, n - 1), order[n - 1];
      s[g] == 0 && Only(order, quotas, n) == s[g := s[g] + quotas[g]]
  {
    var g := order[n - 1];
    assert order[..n] == order[..n - 1] + [g];
    assert g !in order[..n - 1];
  }

  lemma OnlyAll(order: seq<nat>, quotas: seq<nat>)
    requires Permutation(order, |quotas|)
    ensures Only(order, quotas, |order|) == quotas
  {
    assert order[..|order|] == order;
  }

  lemma {:induction false} ZeroTotal(s: seq<nat>)
    requires forall i :: 0 <= i < |s| ==> s[i] == 0
    ensures Total(s) == 0
  {
    if s != [] { ZeroTotal(s[..|s| - 1]); }
  }

  /** A permutation visits the whole total. */
  lemma VisitedAll(order: seq<nat>, quotas: seq<nat>)
    requires Permutation(order, |quotas|)
    ensures Visited(order, quotas, |order|) == Total(quotas)
  {
    VisitedOf(order, quotas, |order|);
  }

  /** What has been visited never exceeds the total. */
  lemma VisitedWithin(order: seq<nat>, quotas: seq<nat>, n: nat)
    requires Permutation(order, |quotas|) && n <= |order|
    ensures Visited(order, quotas, n) <= Total(quotas)
  {
    VisitedOf(order, quotas, n);
    SmallerTotal(Only(order, quotas, n), quotas);
  }

  // ----- the greedy loop -----

  predicate Bounded(given: seq<nat>, count: nat, largest: nat)
    requires |given| == 3
  {
    forall p :: 0 <= p < 3 ==> given[p] as real < Fraction(p) * count as real + largest as real
  }

  /** The first of the partitions that are furthest below their targets. */
  predicate Neediest(count: nat, given: seq<nat>, best: nat)
    requires |given| == 3
  {
    && best < 3 && (forall p :: 0 <= p < 3 ==> Deficit(p, count, given) <= Deficit(best, count, given))
    && forall p :: 0 <= p < best ==> Deficit(p, count, given) < Deficit(best, count, given)
  }

  /** What the three partitions have before group n of the order is placed. */
  function Loads(order: seq<nat>, owner: seq<nat>, quotas: seq<nat>, n: nat): (s: seq<nat>)
    requires n <= |order| && |owner| == |quotas|
    requires forall i :: 0 <= i < |order| ==> order[i] < |quotas|
    ensures |s| == 3
  {
    seq(3, p requires 0 <= p < 3 => Load(order, owner, quotas, p, n))
  }

  /** Each of the first n groups went to the partition that needed it most when its turn came. */
  predicate Greedy(order: seq<nat>, owner: seq<nat>, quotas: seq<nat>, count: nat, n: nat)
    requires n <= |order| && |owner| == |quotas|
    requires forall i :: 0 <= i < |order| ==> order[i] < |quotas|
  {
    forall i :: 0 <= i < n ==> Neediest(count, Loads(order, owner, quotas, i), owner[order[i]])
  }

  /** The partition with the largest deficit; the first one on ties. */
  method LargestDeficit(count: nat, given: seq<nat>) returns (best: nat)
    requires |given| == 3
    ensures best < 3 && Neediest(count, given, best)
  {
    hide Fraction;
    best := 0;
    var bestDeficit := Deficit(0, count, given);
    for p := 1 to 3
      invariant best < p && bestDeficit == Deficit(best, count, given)
      invariant forall q :: 0 <= q < p ==> Deficit(q, count, given) <= bestDeficit
      invariant forall q :: 0 <= q < best ==> Deficit(q, count, given) < bestDeficit
    {
      var deficit := Deficit(p, count, given);
      if deficit > bestDeficit { best, bestDeficit := p, deficit; }
    }
  }

  /** While anything is left to give, some partition is short of its target. */
  lemma SomeDeficit(count: nat, given: seq<nat>, best: nat)
    requires |given| == 3 && best < 3 && given[0] + given[1] + given[2] < count
    requires Neediest(count, given, best)
    ensures Deficit(best, count, given) > 0.0
  {
    var x := count as real;
    assert Deficit(0, count, given) + Deficit(1, count, given) + Deficit(2, count, given)
      == x - (given[0] + given[1] + given[2]) as real;
  }

  /** The assignment of all groups: every group goes to the partition that needs it most when its turn comes, the
      loads are the quotas of the groups of each partition, and no partition exceeds its target by as much as the
      largest quota. */
  method AssignGroups(quotas: seq<nat>, order: seq<nat>, largest: nat) returns (owner: seq<nat>, given: seq<nat>)
    requires Permutation(order, |quotas|) && largest > 0
    requires forall g :: 0 <= g < |quotas| ==> quotas[g] <= largest
    ensures |owner| == |quotas| && forall g :: 0 <= g < |owner| ==> owner[g] < 3
    ensures |given| == 3 && forall p :: 0 <= p < 3 ==> given[p] == Load(order, owner, quotas, p, |order|)
    ensures Bounded(given, Total(quotas), largest)
    ensures Greedy(order, owner, quotas, Total(quotas), |order|)
  {
    hide Deficit, Fraction, Total, Bounded, Load, Neediest, Greedy;
    var count := Total(quotas);
    owner := seq(|quotas|, g => 0);
    given := [0, 0, 0];
    NothingGiven(order, owner, quotas, count, largest);
    assert Greedy(order, owner, quotas, count, 0) by { NobodyPlaced(order, owner, quotas, count); }
    for n := 0 to |order|
      invariant |owner| == |quotas| && forall g :: 0 <= g < |owner| ==> owner[g] < 3
      invariant |given| == 3 && forall p :: 0 <= p < 3 ==> given[p] == Load(order, owner, quotas, p, n)
      invariant given[0] + given[1] + given[2] == Visited(order, quotas, n)
      invariant Bounded(given, count, largest)
      invariant Greedy(order, owner, quotas, count, n)
    {
      var group := order[n];
      var best := LargestDeficit(count, given);
      VisitedWithin(order, quotas, n + 1);
      if quotas[group] > 0 { SomeDeficit(count, given, best); }
      assert given == Loads(order, owner, quotas, n);
      PlacedNext(order, owner, quotas, count, n, best);
      GiveTo(given, count, largest, best, quotas[group]);
      NextLoads(order, owner, owner[group := best], quotas, n);
      owner := owner[group := best];
      given := given[best := given[best] + quotas[group]];
    }
  }

  lemma NobodyPlaced(order: seq<nat>, owner: seq<nat>, quotas: seq<nat>, count: nat)
    requires |owner| == |quotas| && forall i :: 0 <= i < |order| ==> order[i] < |quotas|
    ensures Greedy(order, owner, quotas, count, 0)
  {}

  lemma PlacedNext(order: seq<nat>, before: seq<nat>, quotas: seq<nat>, count: nat, n: nat, best: nat)
    requires n < |order| && |before| == |quotas| && Permutation(order, |quotas|)
    requires Greedy(order, before, quotas, count, n) && Neediest(count, Loads(order, before, quotas, n), best)
    ensures Greedy(order, before[order[n] := best], quotas, count, n + 1)
  {
    hide Neediest, Load;
    var owner := before[order[n] := best];
    forall i | 0 <= i < n + 1
      ensures Neediest(count, Loads(order, owner, quotas, i), owner[order[i]])
    {
      forall p | 0 <= p < 3
        ensures Load(order, owner, quotas, p, i) == Load(order, before, quotas, p, i)
      {
        SameLoad(order, before, owner, quotas, p, i);
      }
      assert Loads(order, owner, quotas, i) == Loads(order, before, quotas, i);
    }
  }

  /** Giving a quota to the partition furthest behind keeps every partition below its bound. */
  lemma GiveTo(given: seq<nat>, count: nat, largest: nat, best: nat, quota: nat)
    requires |given| == 3 && best < 3 && Bounded(given, count, largest) && quota <= largest
    requires quota > 0 ==> Deficit(best, count, given) > 0.0
    ensures Bounded(given[best := given[best] + quota], count, largest)
  {
    hide Fraction;
  }

  lemma NextLoads(order: seq<nat>, before: seq<nat>, owner: seq<nat>, quotas: seq<nat>, n: nat)
    requires n < |order| && |before| == |owner| == |quotas| && Permutation(order, |quotas|)
    requires owner == before[order[n] := owner[order[n]]]
    ensures forall p :: 0 <= p < 3 ==>
      Load(order, owner, quotas, p, n + 1) == Load(order, before, quotas, p, n)
        + (if owner[order[n]] == p then quotas[order[n]] else 0)
  {
    forall p | 0 <= p < 3
      ensures Load(order, owner, quotas, p, n) == Load(order, before, quotas, p, n)
    {
      SameLoad(order, before, owner, quotas, p, n);
    }
  }

  lemma NothingGiven(order: seq<nat>, owner: seq<nat>, quotas: seq<nat>, count: nat, largest: nat)
    requires largest > 0 && |owner| == |quotas| && (forall i :: 0 <= i < |order| ==> order[i] < |quotas|)
    ensures Bounded([0, 0, 0], count, largest) && Visited(order, quotas, 0) == 0
    ensures forall p :: 0 <= p < 3 ==> Load(order, owner, quotas, p, 0) == 0
  {}

  lemma {:induction false} SameLoad(order: seq<nat>, a: seq<nat>, b: seq<nat>, quotas: seq<nat>, p: nat, n: nat)
    requires n <= |order| && |a| == |b| == |quotas| && (forall i :: 0 <= i < |order| ==> order[i] < |quotas|)
    requires forall i :: 0 <= i < n ==> a[order[i]] == b[order[i]]
    ensures Load(order, a, quotas, p, n) == Load(order, b, quotas, p, n)
  {
    if n > 0 { SameLoad(order, a, b, quotas, p, n - 1); }
  }

  /** The loads of the three partitions add up to everything that was visited. */
  lemma {:induction false} LoadsAdd(order: seq<nat>, owner: seq<nat>, quotas: seq<nat>, n: nat)
    requires n <= |order| && |owner| == |quotas| && (forall i :: 0 <= i < |order| ==> order[i] < |quotas|)
    requires forall g :: 0 <= g < |owner| ==> owner[g] < 3
    ensures Load(order, owner, quotas, 0, n) + Load(order, owner, quotas, 1, n) + Load(order, owner, quotas, 2, n)
      == Visited(order, quotas, n)
  {
    if n > 0 { LoadsAdd(order, owner, quotas, n - 1); }
  }

  /** What bounds the excess bounds the shortfall: no partition misses its target by twice the largest quota. */
  lemma Shortfall(given: seq<nat>, count: nat, largest: nat, p: nat)
    requires |given| == 3 && p < 3 && Bounded(given, count, largest) && given[0] + given[1] + given[2] == count
    ensures Fraction(p) * count as real - given[p] as real < 2.0 * largest as real
  {
    var x := count as real;
    assert given[0] as real < Fraction(0) * x + largest as real;
    assert given[1] as real < Fraction(1) * x + largest as real;
    assert given[2] as real < Fraction(2) * x + largest as real;
    assert given[0] as real + given[1] as real + given[2] as real == x;
  }

  /** The planner's quotas and assignment together. */
  method Plan(count: nat, groups: nat, order: seq<nat>) returns (quotas: seq<nat>, owner: seq<nat>, given: seq<nat>)
    requires 0 < groups <= count && Permutation(order, groups)
    ensures quotas == Parts(count, groups) && Total(quotas) == count
    ensures |owner| == groups && forall g :: 0 <= g < groups ==> owner[g] < 3
    ensures |given| == 3 && given[0] + given[1] + given[2] == count
    ensures forall p :: 0 <= p < 3 ==> given[p] == Load(order, owner, quotas, p, |order|)
    ensures Greedy(order, owner, quotas, count, |order|)
    ensures var x, largest := count as real, Part(count, groups, 0) as real;
      && x / 2.0 - 2.0 * largest < given[0] as real < x / 2.0 + largest
      && x / 4.0 - 2.0 * largest < given[1] as real < x / 4.0 + largest
      && x / 4.0 - 2.0 * largest < given[2] as real < x / 4.0 + largest
  {
    hide Total, Bounded;
    quotas := QuotasByTurn(count, groups);
    PartsExact(count, groups);
    LargestPart(count, groups);
    owner, given := AssignGroups(quotas, order, Part(count, groups, 0));
    LoadsAdd(order, owner, quotas, |order|);
    VisitedAll(order, quotas);
    forall p | 0 <= p < 3
      ensures Fraction(p) * count as real - given[p] as real < 2.0 * Part(count, groups, 0) as real
    {
      Shortfall(given, count, Part(count, groups, 0), p);
    }
    Targets(given, count, Part(count, groups, 0));
  }

  lemma Targets(given: seq<nat>, count: nat, largest: nat)
    requires |given| == 3 && Bounded(given, count, largest)
    requires forall p :: 0 <= p < 3 ==> Fraction(p) * count as real - given[p] as real < 2.0 * largest as real
    ensures var x, l := count as real, largest as real;
      && x / 2.0 - 2.0 * l < given[0] as real < x / 2.0 + l
      && x / 4.0 - 2.0 * l < given[1] as real < x / 4.0 + l
      && x / 4.0 - 2.0 * l < given[2] as real < x / 4.0 + l
  {
    assert Fraction(0) == 0.5 && Fraction(1) == 0.25 && Fraction(2) == 0.25;
  }

  lemma LargestPart(count: nat, groups: nat)
    requires 0 < groups <= count
    ensures Part(count, groups, 0) > 0 && forall g :: 0 <= g < groups ==>
      Parts(count, groups)[g] <= Part(count, groups, 0)
  {
    AtLeastOneEach(count, groups);
    if groups > 0 {
      forall g | 0 <= g < groups
        ensures Parts(count, groups)[g] <= Part(count, groups, 0)
      {
        PartOf(count, groups, g);
        PartOf(count, groups, 0);
      }
    }
  }
}
