// Two-sample statistics of src/research/context_trajectory.cpp over the reals: the rank-biserial
// correlation through averaged ranks and the Kolmogorov-Smirnov distance by merging.
module RankStatistics {

  function Abs(x: real): real { if x < 0.0 then -x else x }

  // ----- dominance, the pairwise reference -----

  function Sign(x: real, y: real): int { if x > y then 1 else if x < y then -1 else 0 }

  /** sum over y in b of sign(x - y) */
  function SignsAgainst(x: real, b: seq<real>): int {
    if b == [] then 0 else SignsAgainst(x, b[..|b| - 1]) + Sign(x, b[|b| - 1])
  }

  /** (number of pairs with a > b) - (number of pairs with a < b) */
  function Dominance(a: seq<real>, b: seq<real>): int {
    if a == [] then 0 else Dominance(a[..|a| - 1], b) + SignsAgainst(a[|a| - 1], b)
  }

  lemma {:induction false} SignsBounded(x: real, b: seq<real>)
    ensures -|b| <= SignsAgainst(x, b) <= |b|
  {
    if b != [] { SignsBounded(x, b[..|b| - 1]); }
  }

  lemma {:induction false} DominanceBounded(a: seq<real>, b: seq<real>)
    ensures -(|a| * |b|) <= Dominance(a, b) <= |a| * |b|
  {
    if a != [] {
      DominanceBounded(a[..|a| - 1], b);
      SignsBounded(a[|a| - 1], b);
      assert |a| * |b| == (|a| - 1) * |b| + |b|;
    }
  }

  lemma {:induction false} DominanceSnoc(a: seq<real>, b: seq<real>, y: real)
    ensures Dominance(a, b + [y]) == Dominance(a, b) - SignsAgainst(y, a)
  {
    if a != [] {
      DominanceSnoc(a[..|a| - 1], b, y);
      assert (b + [y])[..|b|] == b;
    }
  }

  lemma {:induction false} DominanceNone(a: seq<real>)
    ensures Dominance(a, []) == 0
  {
    if a != [] { DominanceNone(a[..|a| - 1]); }
  }

  /** Swapping the samples flips the sign. */
  lemma {:induction false} DominanceAntisymmetric(a: seq<real>, b: seq<real>)
    ensures Dominance(a, b) == -Dominance(b, a)
  {
    if b == [] {
      DominanceNone(a);
    } else {
      var t := b[..|b| - 1];
      assert b == t + [b[|b| - 1]];
      DominanceAntisymmetric(a, t);
      DominanceSnoc(a, t, b[|b| - 1]);
    }
  }

  // ----- doubled ranks -----

  /** 2 for every smaller value and 1 for every equal one: twice the averaged rank, minus one. */
  function Score(v: real, s: seq<real>): nat {
    if s == [] then 0
    else Score(v, s[..|s| - 1]) + if s[|s| - 1] < v then 2 else if s[|s| - 1] == v then 1 else 0
  }

  function Scores(a: seq<real>, s: seq<real>): nat {
    if a == [] then 0 else Scores(a[..|a| - 1], s) + Score(a[|a| - 1], s)
  }

  lemma {:induction false} ScoreIsSigns(v: real, b: seq<real>)
    ensures Score(v, b) == SignsAgainst(v, b) + |b|
  {
    if b != [] { ScoreIsSigns(v, b[..|b| - 1]); }
  }

  lemma {:induction false} ScoresAreDominance(a: seq<real>, b: seq<real>)
    ensures Scores(a, b) == Dominance(a, b) + |a| * |b|
  {
    if a != [] {
      ScoresAreDominance(a[..|a| - 1], b);
      ScoreIsSigns(a[|a| - 1], b);
      assert |a| * |b| == (|a| - 1) * |b| + |b|;
    }
  }

  lemma ScoresOfSelf(a: seq<real>)
    ensures Scores(a, a) == |a| * |a|
  {
    ScoresAreDominance(a, a);
    DominanceAntisymmetric(a, a);
  }

  lemma {:induction false} ScoreAppend(v: real, s: seq<real>, t: seq<real>)
    ensures Score(v, s + t) == Score(v, s) + Score(v, t)
  {
    if t == [] {
      assert s + t == s;
    } else {
      assert (s + t)[..|s + t| - 1] == s + t[..|t| - 1];
      ScoreAppend(v, s, t[..|t| - 1]);
    }
  }

  lemma {:induction false} ScoresAppend(a: seq<real>, s: seq<real>, t: seq<real>)
    ensures Scores(a, s + t) == Scores(a, s) + Scores(a, t)
  {
    if a != [] {
      ScoresAppend(a[..|a| - 1], s, t);
      ScoreAppend(a[|a| - 1], s, t);
    }
  }

  // ----- the joined sample -----

  datatype Item = Item(value: real, inA: bool)

  function Tagged(s: seq<real>, inA: bool): (r: seq<Item>)
    ensures |r| == |s|
  {
    seq(|s|, i requires 0 <= i < |s| => Item(s[i], inA))
  }

  function Values(s: seq<Item>): (r: seq<real>)
    ensures |r| == |s| && forall i :: 0 <= i < |s| ==> r[i] == s[i].value
  {
    seq(|s|, i requires 0 <= i < |s| => s[i].value)
  }

  /** std::stable_sort by value. */
  function Insert(s: seq<Item>, a: Item): seq<Item> {
    if s == [] || s[|s| - 1].value <= a.value then s + [a] else Insert(s[..|s| - 1], a) + [s[|s| - 1]]
  }

  function Sort(s: seq<Item>): seq<Item> {
    if s == [] then [] else Insert(Sort(s[..|s| - 1]), s[|s| - 1])
  }

  predicate Sorted(s: seq<Item>) { forall i, j :: 0 <= i <= j < |s| ==> s[i].value <= s[j].value }

  lemma {:induction false} InsertSorted(s: seq<Item>, a: Item)
    requires Sorted(s)
    ensures Sorted(Insert(s, a))
    ensures forall b :: b in Insert(s, a) ==> b == a || b in s
  {
    if s == [] || s[|s| - 1].value <= a.value {
      SortedSnoc(s, a);
    } else {
      var t, b := s[..|s| - 1], s[|s| - 1];
      InsertSorted(t, a);
      forall c | c in Insert(t, a) ensures c.value <= b.value {
        if c != a { assert c in t; }
      }
      SortedSnoc(Insert(t, a), b);
    }
  }

  lemma SortedSnoc(s: seq<Item>, b: Item)
    requires Sorted(s) && (s == [] || s[|s| - 1].value <= b.value || forall c :: c in s ==> c.value <= b.value)
    ensures Sorted(s + [b])
  {
    forall i | 0 <= i < |s| ensures s[i].value <= b.value {
      assert s[i] in s && s[i].value <= s[|s| - 1].value;
    }
  }

  lemma {:induction false} SortSorted(s: seq<Item>)
    ensures Sorted(Sort(s))
  {
    if s != [] {
      SortSorted(s[..|s| - 1]);
      InsertSorted(Sort(s[..|s| - 1]), s[|s| - 1]);
    }
  }

  /** sum over the items of sample a of (score in s, plus one): twice their rank sum. */
  function DoubledRanks(t: seq<Item>, s: seq<real>): nat {
    if t == [] then 0
    else DoubledRanks(t[..|t| - 1], s) + if t[|t| - 1].inA then Score(t[|t| - 1].value, s) + 1 else 0
  }

  lemma DoubledNone(t: seq<Item>, s: seq<real>)
    requires t == []
    ensures DoubledRanks(t, s) == 0
  {}

  lemma ScoreSnoc(v: real, s: seq<real>, x: real)
    ensures Score(v, s + [x]) == Score(v, s) + if x < v then 2 else if x == v then 1 else 0
  {
    assert (s + [x])[..|s + [x]| - 1] == s;
  }

  lemma DoubledSnoc(t: seq<Item>, a: Item, s: seq<real>)
    ensures DoubledRanks(t + [a], s) == DoubledRanks(t, s) + if a.inA then Score(a.value, s) + 1 else 0
  {
    assert (t + [a])[..|t + [a]| - 1] == t;
  }

  lemma ValuesSnoc(s: seq<Item>, a: Item)
    ensures Values(s + [a]) == Values(s) + [a.value]
  {}

  lemma {:induction false} InsertKeepsScore(v: real, s: seq<Item>, a: Item)
    ensures Score(v, Values(Insert(s, a))) == Score(v, Values(s) + [a.value])
  {
    if s == [] || s[|s| - 1].value <= a.value {
      ValuesSnoc(s, a);
    } else {
      var t, b := s[..|s| - 1], s[|s| - 1];
      InsertKeepsScore(v, t, a);
      ValuesSnoc(Insert(t, a), b);
      ScoreSnoc(v, Values(Insert(t, a)), b.value);
      ScoreSnoc(v, Values(t), a.value);
      assert s == t + [b];
      ValuesSnoc(t, b);
      ScoreSnoc(v, Values(t), b.value);
      ScoreSnoc(v, Values(s), a.value);
    }
  }

  lemma {:induction false} SortKeepsScore(v: real, s: seq<Item>)
    ensures Score(v, Values(Sort(s))) == Score(v, Values(s))
  {
    if s != [] {
      var t, a := s[..|s| - 1], s[|s| - 1];
      SortKeepsScore(v, t);
      InsertKeepsScore(v, Sort(t), a);
      ScoreSnoc(v, Values(Sort(t)), a.value);
      ScoreSnoc(v, Values(t), a.value);
      assert s == t + [a];
      ValuesSnoc(t, a);
    }
  }

  lemma {:induction false} InsertKeepsDoubled(s: seq<Item>, a: Item, w: seq<real>)
    ensures DoubledRanks(Insert(s, a), w) == DoubledRanks(s, w) + if a.inA then Score(a.value, w) + 1 else 0
  {
    if s == [] || s[|s| - 1].value <= a.value {
      DoubledSnoc(s, a, w);
    } else {
      InsertKeepsDoubled(s[..|s| - 1], a, w);
      DoubledSnoc(Insert(s[..|s| - 1], a), s[|s| - 1], w);
    }
  }

  lemma {:induction false} SortKeepsDoubled(s: seq<Item>, w: seq<real>)
    ensures DoubledRanks(Sort(s), w) == DoubledRanks(s, w)
  {
    if s != [] {
      SortKeepsDoubled(s[..|s| - 1], w);
      InsertKeepsDoubled(Sort(s[..|s| - 1]), s[|s| - 1], w);
    }
  }

  lemma {:induction false} DoubledCongruent(t: seq<Item>, s: seq<real>, w: seq<real>)
    requires forall v: real :: Score(v, s) == Score(v, w)
    ensures DoubledRanks(t, s) == DoubledRanks(t, w)
  {
    if t != [] { DoubledCongruent(t[..|t| - 1], s, w); }
  }

  lemma {:induction false} DoubledOfA(a: seq<real>, w: seq<real>)
    ensures DoubledRanks(Tagged(a, true), w) == Scores(a, w) + |a|
  {
    if a != [] {
      var t := a[..|a| - 1];
      assert Tagged(a, true) == Tagged(t, true) + [Item(a[|a| - 1], true)];
      DoubledSnoc(Tagged(t, true), Item(a[|a| - 1], true), w);
      DoubledOfA(t, w);
    }
  }

  lemma {:induction false} DoubledOfBoth(a: seq<real>, b: seq<real>, w: seq<real>)
    ensures DoubledRanks(Tagged(a, true) + Tagged(b, false), w) == Scores(a, w) + |a|
  {
    if b == [] {
      assert Tagged(a, true) + Tagged(b, false) == Tagged(a, true);
      DoubledOfA(a, w);
    } else {
      var t := b[..|b| - 1];
      assert Tagged(a, true) + Tagged(b, false) == (Tagged(a, true) + Tagged(t, false)) + [Item(b[|b| - 1], false)];
      DoubledSnoc(Tagged(a, true) + Tagged(t, false), Item(b[|b| - 1], false), w);
      DoubledOfBoth(a, t, w);
    }
  }

  /** Twice the rank sum of sample a, from the pairwise comparisons alone. */
  lemma JoinedRanks(a: seq<real>, b: seq<real>)
    ensures var s := Sort(Tagged(a, true) + Tagged(b, false));
      DoubledRanks(s, Values(s)) == |a| * |a| + Dominance(a, b) + |a| * |b| + |a|
  {
    assert Values(Tagged(a, true) + Tagged(b, false)) == a + b;
    hide Score, Scores, DoubledRanks, Dominance, Sort, Values, Tagged;
    var joined := Tagged(a, true) + Tagged(b, false);
    var s := Sort(joined);
    forall v: real ensures Score(v, Values(s)) == Score(v, Values(joined)) { SortKeepsScore(v, joined); }
    DoubledCongruent(s, Values(s), Values(joined));
    SortKeepsDoubled(joined, Values(joined));
    DoubledOfBoth(a, b, a + b);
    ScoresAppend(a, a, b);
    ScoresOfSelf(a);
    ScoresAreDominance(a, b);
  }

  // ----- rank_biserial -----

  predicate Group(s: seq<Item>, begin: nat, end: nat) {
    && begin < end <= |s|
    && (forall j :: 0 <= j < begin ==> s[j].value < s[begin].value)
    && (forall j :: begin <= j < end ==> s[j].value == s[begin].value)
    && (forall j :: end <= j < |s| ==> s[j].value > s[begin].value)
  }

  lemma {:induction false} GroupScore(s: seq<Item>, begin: nat, end: nat, k: nat)
    requires Group(s, begin, end) && k <= |s|
    ensures Score(s[begin].value, Values(s)[..k]) == if k <= begin then 2 * k else if k <= end then begin + k
      else begin + end
  {
    if k > 0 {
      GroupScore(s, begin, end, k - 1);
      assert Values(s)[..k][..k - 1] == Values(s)[..k - 1];
    }
  }

  method RankSum(s: seq<Item>) returns (sum: real)
    requires Sorted(s)
    ensures 2.0 * sum == DoubledRanks(s, Values(s)) as real
  {
    hide Score, DoubledRanks, Values;
    assert DoubledRanks(s[..0], Values(s)) == 0 by { DoubledNone(s[..0], Values(s)); }
    sum := 0.0;
    var begin := 0;
    while begin < |s|
      invariant begin <= |s|
      invariant begin < |s| ==> forall j :: 0 <= j < begin ==> s[j].value < s[begin].value
      invariant 2.0 * sum == DoubledRanks(s[..begin], Values(s)) as real
    {
      var end := begin + 1;
      while end < |s| && s[end].value == s[begin].value
        invariant begin < end <= |s|
        invariant forall j :: begin <= j < end ==> s[j].value == s[begin].value
      {
        end := end + 1;
      }
      assert Group(s, begin, end);
      GroupScore(s, begin, end, |s|);
      assert Values(s)[..|s|] == Values(s);
      var rank := ((begin + 1) as real + end as real) / 2.0;
      for i := begin to end
        invariant 2.0 * sum == DoubledRanks(s[..i], Values(s)) as real
      {
        assert s[..i + 1] == s[..i] + [s[i]];
        DoubledSnoc(s[..i], s[i], Values(s));
        if s[i].inA { sum := sum + rank; }
      }
      begin := end;
    }
    assert s[..|s|] == s;
  }

  /** d per pair of an n-sample and an m-sample. */
  function PerPair(d: int, n: nat, m: nat): real
    requires n > 0 && m > 0
  {
    d as real / (n as real * m as real)
  }

  /** The fraction of pairs with a > b minus the fraction with a < b. */
  function Advantage(a: seq<real>, b: seq<real>): real
    requires |a| > 0 && |b| > 0
  {
    PerPair(Dominance(a, b), |a|, |b|)
  }

  function FromRankSum(sum: real, n: nat, m: nat): real
    requires n > 0 && m > 0
  {
    var na, nb := n as real, m as real;
    var u := sum - na * (na + 1.0) / 2.0;
    2.0 * u / (na * nb) - 1.0
  }

  /** The averaged-rank formula gives the pairwise advantage. */
  method RankBiserial(a: seq<real>, b: seq<real>) returns (r: real)
    ensures |a| == 0 || |b| == 0 ==> r == 0.0
    ensures |a| > 0 && |b| > 0 ==> r == Advantage(a, b)
    ensures -1.0 <= r <= 1.0
  {
    if |a| == 0 || |b| == 0 { return 0.0; }
    hide DoubledRanks, Dominance, Sort, Sorted, Values, Tagged, Advantage, FromRankSum;
    var joined := Sort(Tagged(a, true) + Tagged(b, false));
    SortSorted(Tagged(a, true) + Tagged(b, false));
    var rankSumA := RankSum(joined);
    FromRanks(a, b, rankSumA);
    r := FromRankSum(rankSumA, |a|, |b|);
  }

  lemma FromRanks(a: seq<real>, b: seq<real>, sum: real)
    requires |a| > 0 && |b| > 0
    requires var s := Sort(Tagged(a, true) + Tagged(b, false)); 2.0 * sum == DoubledRanks(s, Values(s)) as real
    ensures FromRankSum(sum, |a|, |b|) == Advantage(a, b) && -1.0 <= Advantage(a, b) <= 1.0
  {
    hide DoubledRanks, Dominance, Sort, Values, Tagged, FromRankSum, PerPair;
    JoinedRanks(a, b);
    DominanceBounded(a, b);
    FinishRanks(|a|, |b|, Dominance(a, b), sum);
  }

  lemma FinishRanks(n: nat, m: nat, d: int, sum: real)
    requires n > 0 && m > 0 && -(n * m) <= d <= n * m && 2.0 * sum == (n * n + d + n * m + n) as real
    ensures FromRankSum(sum, n, m) == PerPair(d, n, m) && -1.0 <= PerPair(d, n, m) <= 1.0
  {
    RealProduct(n, m);
    RealProduct(n, n);
    var na, p := n as real, n as real * m as real;
    assert na * (na + 1.0) == na * na + na;
    assert 2.0 * (sum - na * (na + 1.0) / 2.0) == d as real + p;
    Ratio(d as real, p);
  }

  lemma RealProduct(x: nat, y: nat)
    ensures (x * y) as real == x as real * y as real
    ensures x > 0 && y > 0 ==> x as real * y as real > 0.0
  {}

  lemma Ratio(d: real, p: real)
    requires p > 0.0 && -p <= d <= p
    ensures (d + p) / p - 1.0 == d / p
    ensures -1.0 <= d / p <= 1.0
  {
    var x, y := d / p, (d + p) / p;
    assert x * p == d && y * p == d + p;
    assert (x + 1.0) * p == d + p;
    Cancel(y, x + 1.0, p);
    if x > 1.0 { Grows(1.0, x, p); }
    if x < -1.0 { Grows(x, -1.0, p); }
  }

  lemma Cancel(x: real, y: real, p: real)
    requires p > 0.0 && x * p == y * p
    ensures x == y
  {
    if x < y { Grows(x, y, p); }
    if y < x { Grows(y, x, p); }
  }

  lemma Grows(x: real, y: real, p: real)
    requires x < y && p > 0.0
    ensures x * p < y * p
  {}

  /** The statistic is antisymmetric in its samples. */
  lemma BiserialAntisymmetric(a: seq<real>, b: seq<real>)
    requires |a| > 0 && |b| > 0
    ensures Advantage(a, b) == -Advantage(b, a)
  {
    hide Dominance;
    DominanceAntisymmetric(a, b);
    Negated(Dominance(b, a) as real, |b| as real, |a| as real);
  }

  lemma Negated(d: real, x: real, y: real)
    requires x > 0.0 && y > 0.0
    ensures y * x == x * y > 0.0
    ensures (-d) / (y * x) == -(d / (x * y))
  {
    var p := x * y;
    var q, r := d / p, (-d) / p;
    assert q * p == d && r * p == -d;
    assert (-q) * p == -d;
    Cancel(r, -q, p);
  }

  // ----- ks_distance -----

  function AtMost(t: real, s: seq<real>): nat {
    if s == [] then 0 else AtMost(t, s[..|s| - 1]) + if s[|s| - 1] <= t then 1 else 0
  }

  /** The gap between the two empirical distribution functions at t. */
  function Gap(t: real, a: seq<real>, b: seq<real>): real
    requires |a| > 0 && |b| > 0
  {
    Abs(AtMost(t, a) as real / |a| as real - AtMost(t, b) as real / |b| as real)
  }

  function InsertReal(s: seq<real>, x: real): seq<real> {
    if s == [] || s[|s| - 1] <= x then s + [x] else InsertReal(s[..|s| - 1], x) + [s[|s| - 1]]
  }

  function SortReals(s: seq<real>): seq<real> {
    if s == [] then [] else InsertReal(SortReals(s[..|s| - 1]), s[|s| - 1])
  }

  predicate Ascending(s: seq<real>) { forall i, j :: 0 <= i <= j < |s| ==> s[i] <= s[j] }

  lemma AtMostSnoc(t: real, s: seq<real>, x: real)
    ensures AtMost(t, s + [x]) == AtMost(t, s) + if x <= t then 1 else 0
  {
    assert (s + [x])[..|s + [x]| - 1] == s;
  }

  lemma {:induction false} InsertAscending(s: seq<real>, x: real)
    requires Ascending(s)
    ensures Ascending(InsertReal(s, x)) && |InsertReal(s, x)| == |s| + 1
    ensures forall y :: y in InsertReal(s, x) ==> y == x || y in s
    ensures forall t: real :: AtMost(t, InsertReal(s, x)) == AtMost(t, s + [x])
  {
    if s == [] || s[|s| - 1] <= x {
      AscendingSnoc(s, x);
    } else {
      var r, z := s[..|s| - 1], s[|s| - 1];
      InsertAscending(r, x);
      var w := InsertReal(r, x);
      AscendingSnoc(w, z);
      forall t: real ensures AtMost(t, w + [z]) == AtMost(t, s + [x]) {
        AtMostSnoc(t, w, z);
        AtMostSnoc(t, r, x);
        AtMostSnoc(t, s, x);
      }
    }
  }

  lemma AscendingSnoc(s: seq<real>, z: real)
    requires Ascending(s) && (s == [] || s[|s| - 1] <= z || forall y :: y in s ==> y <= z)
    ensures Ascending(s + [z])
  {
    forall i | 0 <= i < |s| ensures s[i] <= z { assert s[i] in s && s[i] <= s[|s| - 1]; }
  }

  lemma {:induction false} SortAscending(s: seq<real>)
    ensures Ascending(SortReals(s)) && |SortReals(s)| == |s|
    ensures forall t: real :: AtMost(t, SortReals(s)) == AtMost(t, s)
  {
    if s != [] {
      var r, x := s[..|s| - 1], s[|s| - 1];
      SortAscending(r);
      InsertAscending(SortReals(r), x);
      forall t: real ensures AtMost(t, SortReals(s)) == AtMost(t, s) { AtMostSnoc(t, SortReals(r), x); }
    }
  }

  lemma {:induction false} AtMostAt(t: real, s: seq<real>, i: nat, k: nat)
    requires i <= |s| && k <= |s|
    requires forall j :: 0 <= j < i ==> s[j] <= t
    requires forall j :: i <= j < |s| ==> s[j] > t
    ensures AtMost(t, s[..k]) == if k <= i then k else i
  {
    if k > 0 {
      AtMostAt(t, s, i, k - 1);
      assert s[..k][..k - 1] == s[..k - 1];
    }
  }

  /** Position i of an ascending sample splits it at t. */
  predicate SplitsAt(t: real, s: seq<real>, i: nat) {
    i <= |s| && (forall j :: 0 <= j < i ==> s[j] <= t) && forall j :: i <= j < |s| ==> s[j] > t
  }

  lemma GapAt(t: real, a: seq<real>, b: seq<real>, ia: nat, ib: nat)
    requires |a| > 0 && |b| > 0 && SplitsAt(t, a, ia) && SplitsAt(t, b, ib)
    ensures Gap(t, a, b) == Abs(ia as real / |a| as real - ib as real / |b| as real)
  {
    AtMostAt(t, a, ia, |a|);
    AtMostAt(t, b, ib, |b|);
    assert a[..|a|] == a && b[..|b|] == b;
  }

  method Advance(s: seq<real>, from: nat, value: real) returns (i: nat)
    requires Ascending(s) && from <= |s| && forall j :: 0 <= j < from ==> s[j] <= value
    ensures from <= i && SplitsAt(value, s, i)
    ensures from < |s| && s[from] <= value ==> from < i
  {
    i := from;
    while i < |s| && s[i] <= value
      invariant from <= i <= |s|
      invariant forall j :: 0 <= j < i ==> s[j] <= value
    {
      i := i + 1;
    }
  }

  /** t lies before the next unread element of either sample. */
  predicate Before(t: real, a: seq<real>, ia: nat, b: seq<real>, ib: nat) {
    (ia < |a| ==> t < a[ia]) && (ib < |b| ==> t < b[ib])
  }

  ghost predicate Reaches(g: real, a: seq<real>, b: seq<real>)
    requires |a| > 0 && |b| > 0
  {
    exists t: real :: Gap(t, a, b) == g
  }

  lemma NewThreshold(t: real, value: real, a: seq<real>, b: seq<real>, ia: nat, ib: nat)
    requires |a| > 0 && |b| > 0 && Ascending(a) && Ascending(b)
    requires SplitsAt(value, a, ia) && SplitsAt(value, b, ib) && value <= t && Before(t, a, ia, b, ib)
    ensures Gap(t, a, b) == Abs(ia as real / |a| as real - ib as real / |b| as real)
  {
    GapAt(t, a, b, ia, ib);
  }

  method MergeDistance(a: seq<real>, b: seq<real>) returns (maximum: real)
    requires |a| > 0 && |b| > 0 && Ascending(a) && Ascending(b)
    ensures forall t: real :: Gap(t, a, b) <= maximum
    ensures Reaches(maximum, a, b)
  {
    hide Gap;
    var ia, ib := 0, 0;
    maximum := 0.0;
    Start(a, b);
    while ia < |a| || ib < |b|
      invariant ia <= |a| && ib <= |b|
      invariant forall t: real :: Before(t, a, ia, b, ib) ==> Gap(t, a, b) <= maximum
      invariant Reaches(maximum, a, b)
      invariant forall i, j :: 0 <= i < ia && ib <= j < |b| ==> a[i] < b[j]
      invariant forall i, j :: ia <= i < |a| && 0 <= j < ib ==> b[j] < a[i]
      decreases |a| - ia + |b| - ib
    {
      var value := if ia == |a| then b[ib] else if ib == |b| then a[ia] else if a[ia] <= b[ib] then a[ia] else b[ib];
      ghost var oldA, oldB := ia, ib;
      ia := Advance(a, ia, value);
      ib := Advance(b, ib, value);
      var gap := Abs(ia as real / |a| as real - ib as real / |b| as real);
      NewThreshold(value, value, a, b, ia, ib);
      forall t: real | Before(t, a, ia, b, ib) ensures Gap(t, a, b) <= (if gap > maximum then gap else maximum) {
        if value <= t { NewThreshold(t, value, a, b, ia, ib); } else { assert Before(t, a, oldA, b, oldB); }
      }
      if gap > maximum { maximum := gap; }
    }
    forall t: real ensures Gap(t, a, b) <= maximum { assert Before(t, a, ia, b, ib); }
  }

  lemma Start(a: seq<real>, b: seq<real>)
    requires |a| > 0 && |b| > 0 && Ascending(a) && Ascending(b)
    ensures forall t: real :: Before(t, a, 0, b, 0) ==> Gap(t, a, b) <= 0.0
    ensures Reaches(0.0, a, b)
  {
    forall t: real | Before(t, a, 0, b, 0) ensures Gap(t, a, b) == 0.0 { GapAt(t, a, b, 0, 0); }
    var low := (if a[0] <= b[0] then a[0] else b[0]) - 1.0;
    assert Before(low, a, 0, b, 0);
  }

  /** The merge returns the supremum of the gap over all thresholds, and the supremum is attained. */
  method KsDistance(a: seq<real>, b: seq<real>) returns (d: real)
    ensures |a| == 0 || |b| == 0 ==> d == 0.0
    ensures |a| > 0 && |b| > 0 ==> (forall t: real :: Gap(t, a, b) <= d) && Reaches(d, a, b)
  {
    if |a| == 0 || |b| == 0 { return 0.0; }
    SortAscending(a);
    SortAscending(b);
    var sa, sb := SortReals(a), SortReals(b);
    d := MergeDistance(sa, sb);
    forall t: real ensures Gap(t, sa, sb) == Gap(t, a, b) {}
    var t: real :| Gap(t, sa, sb) == d;
    assert Gap(t, a, b) == d;
  }
}
