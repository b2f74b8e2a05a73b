// Kendall's tau-b with ties (kendall_tau_b in src/research/context_phase2.cpp), over the reals.
module Kendall {
  import opened Arith
  import opened Fenwick

  type Point = (real, real)

  // ----- what is counted -----

  /** The symmetric relations two points can be in. */
  datatype Relation = Concordant | Discordant | SameX | SameY | SameBoth
  {
    predicate Holds(a: Point, b: Point) {
      match this
      case Concordant => (a.0 < b.0 && a.1 < b.1) || (a.0 > b.0 && a.1 > b.1)
      case Discordant => (a.0 < b.0 && a.1 > b.1) || (a.0 > b.0 && a.1 < b.1)
      case SameX => a.0 == b.0
      case SameY => a.1 == b.1
      case SameBoth => a == b
    }
  }

  function With(rel: Relation, a: Point, s: seq<Point>): nat {
    if s == [] then 0 else With(rel, a, s[..|s| - 1]) + if rel.Holds(a, s[|s| - 1]) then 1 else 0
  }

  /** The number of unordered pairs of positions whose points are in the relation. */
  function PairCount(rel: Relation, s: seq<Point>): nat {
    if s == [] then 0 else PairCount(rel, s[..|s| - 1]) + With(rel, s[|s| - 1], s[..|s| - 1])
  }

  lemma WithSnoc(rel: Relation, a: Point, s: seq<Point>, b: Point)
    ensures With(rel, a, s + [b]) == With(rel, a, s) + if rel.Holds(a, b) then 1 else 0
  {
    assert (s + [b])[..|s + [b]| - 1] == s;
  }

  lemma PairSnoc(rel: Relation, s: seq<Point>, b: Point)
    ensures PairCount(rel, s + [b]) == PairCount(rel, s) + With(rel, b, s)
  {
    assert (s + [b])[..|s + [b]| - 1] == s;
  }

  /** Every pair is concordant, discordant or tied, ties in both counted once. */
  lemma {:induction false} Trichotomy(s: seq<Point>)
    ensures PairCount(Concordant, s) + PairCount(Discordant, s) + PairCount(SameX, s) + PairCount(SameY, s)
         == PairCount(SameBoth, s) + Choose2(|s|)
  {
    if s != [] {
      var t, a := s[..|s| - 1], s[|s| - 1];
      Trichotomy(t);
      WithTrichotomy(a, t);
      Choose2Step(|t|);
    }
  }

  lemma {:induction false} WithTrichotomy(a: Point, s: seq<Point>)
    ensures With(Concordant, a, s) + With(Discordant, a, s) + With(SameX, a, s) + With(SameY, a, s)
      == With(SameBoth, a, s) + |s|
  {
    if s != [] { WithTrichotomy(a, s[..|s| - 1]); }
  }

  lemma {:induction false} SameBothIsSameY(s: seq<Point>)
    ensures PairCount(SameBoth, s) <= PairCount(SameX, s) && PairCount(SameBoth, s) <= PairCount(SameY, s)
  {
    if s != [] {
      SameBothIsSameY(s[..|s| - 1]);
      WithSameBoth(s[|s| - 1], s[..|s| - 1]);
    }
  }

  lemma {:induction false} WithSameBoth(a: Point, s: seq<Point>)
    ensures With(SameBoth, a, s) <= With(SameX, a, s) && With(SameBoth, a, s) <= With(SameY, a, s)
  {
    if s != [] { WithSameBoth(a, s[..|s| - 1]); }
  }

  function Choose2(count: nat): nat {
    if count == 0 then 0 else count * (count - 1) / 2
  }

  lemma Choose2Step(n: nat)
    ensures Choose2(n + 1) == Choose2(n) + n
  {
    assert (n + 1) * n == n * (n - 1) + 2 * n;
    assert (n * (n - 1)) % 2 == 0 by { Consecutive(n); }
  }

  lemma {:induction false} Consecutive(n: nat)
    ensures (n * (n - 1)) % 2 == 0
  {
    if n > 0 {
      Consecutive(n - 1);
      assert n * (n - 1) == (n - 1) * (n - 2) + 2 * (n - 1);
    }
  }

  // ----- sorting (std::sort) -----

  datatype Order = ByXY | ByYX
  {
    predicate AtMost(a: Point, b: Point) {
      match this
      case ByXY => a.0 < b.0 || (a.0 == b.0 && a.1 <= b.1)
      case ByYX => a.1 < b.1 || (a.1 == b.1 && a.0 <= b.0)
    }
  }

  function Insert(order: Order, s: seq<Point>, a: Point): seq<Point> {
    if s == [] || order.AtMost(s[|s| - 1], a) then s + [a] else Insert(order, s[..|s| - 1], a) + [s[|s| - 1]]
  }

  function Sort(order: Order, s: seq<Point>): seq<Point> {
    if s == [] then [] else Insert(order, Sort(order, s[..|s| - 1]), s[|s| - 1])
  }

  predicate Sorted(order: Order, s: seq<Point>) {
    forall i, j :: 0 <= i <= j < |s| ==> order.AtMost(s[i], s[j])
  }

  lemma {:induction false} InsertSorted(order: Order, s: seq<Point>, a: Point)
    requires Sorted(order, s)
    ensures Sorted(order, Insert(order, s, a)) && |Insert(order, s, a)| == |s| + 1
    ensures forall b :: b in Insert(order, s, a) ==> b == a || b in s
  {
    if s == [] || order.AtMost(s[|s| - 1], a) {
      SortedSnoc(order, s, a);
    } else {
      var t, b := s[..|s| - 1], s[|s| - 1];
      InsertSorted(order, t, a);
      forall c | c in Insert(order, t, a) ensures order.AtMost(c, b) {
        if c != a { assert c in t; }
      }
      SortedSnoc(order, Insert(order, t, a), b);
    }
  }

  lemma SortedSnoc(order: Order, s: seq<Point>, b: Point)
    requires Sorted(order, s) && (s == [] || order.AtMost(s[|s| - 1], b) || forall c :: c in s ==> order.AtMost(c, b))
    ensures Sorted(order, s + [b])
  {
    forall i | 0 <= i < |s| ensures order.AtMost(s[i], b) {
      assert s[i] in s;
      assert order.AtMost(s[i], s[|s| - 1]);
    }
  }

  lemma {:induction false} SortSorted(order: Order, s: seq<Point>)
    ensures Sorted(order, Sort(order, s)) && |Sort(order, s)| == |s|
  {
    if s != [] {
      SortSorted(order, s[..|s| - 1]);
      InsertSorted(order, Sort(order, s[..|s| - 1]), s[|s| - 1]);
    }
  }

  lemma {:induction false} InsertKeepsWith(order: Order, rel: Relation, s: seq<Point>, a: Point, c: Point)
    ensures With(rel, c, Insert(order, s, a)) == With(rel, c, s) + if rel.Holds(c, a) then 1 else 0
  {
    if s == [] || order.AtMost(s[|s| - 1], a) {
      WithSnoc(rel, c, s, a);
    } else {
      InsertKeepsWith(order, rel, s[..|s| - 1], a, c);
      WithSnoc(rel, c, Insert(order, s[..|s| - 1], a), s[|s| - 1]);
    }
  }

  lemma {:induction false} InsertKeepsPairs(order: Order, rel: Relation, s: seq<Point>, a: Point)
    ensures PairCount(rel, Insert(order, s, a)) == PairCount(rel, s) + With(rel, a, s)
  {
    if s == [] || order.AtMost(s[|s| - 1], a) {
      PairSnoc(rel, s, a);
    } else {
      var t, b := s[..|s| - 1], s[|s| - 1];
      InsertKeepsPairs(order, rel, t, a);
      InsertKeepsWith(order, rel, t, a, b);
      PairSnoc(rel, Insert(order, t, a), b);
    }
  }

  lemma {:induction false} InsertKeepsWithAll(order: Order, rel: Relation, s: seq<Point>, c: Point)
    ensures With(rel, c, Sort(order, s)) == With(rel, c, s)
  {
    if s != [] {
      InsertKeepsWithAll(order, rel, s[..|s| - 1], c);
      InsertKeepsWith(order, rel, Sort(order, s[..|s| - 1]), s[|s| - 1], c);
    }
  }

  /** Pair counts do not depend on the order of the points. */
  lemma {:induction false} SortKeepsPairs(order: Order, rel: Relation, s: seq<Point>)
    ensures PairCount(rel, Sort(order, s)) == PairCount(rel, s)
  {
    if s != [] {
      var t, a := s[..|s| - 1], s[|s| - 1];
      SortKeepsPairs(order, rel, t);
      InsertKeepsPairs(order, rel, Sort(order, t), a);
      InsertKeepsWithAll(order, rel, t, a);
    }
  }

  lemma SortedCounts(order: Order, s: seq<Point>)
    ensures Sorted(order, Sort(order, s)) && |Sort(order, s)| == |s|
    ensures forall rel :: PairCount(rel, Sort(order, s)) == PairCount(rel, s)
  {
    SortSorted(order, s);
    forall rel ensures PairCount(rel, Sort(order, s)) == PairCount(rel, s) { SortKeepsPairs(order, rel, s); }
  }

  // ----- ranks -----

  predicate Increasing(s: seq<real>) { forall i, j :: 0 <= i < j < |s| ==> s[i] < s[j] }

  lemma InsertedBelow(s: seq<real>, v: real, t: seq<real>)
    requires Increasing(s) && s != [] && v < s[|s| - 1]
    requires forall u :: u in t ==> u == v || u in s[..|s| - 1]
    ensures forall i :: 0 <= i < |t| ==> t[i] < s[|s| - 1]
    ensures s == s[..|s| - 1] + [s[|s| - 1]]
  {
    var rest := s[..|s| - 1];
    forall i | 0 <= i < |t|
      ensures t[i] < s[|s| - 1]
    {
      assert t[i] in t;
      if t[i] in rest {
        var j :| 0 <= j < |rest| && rest[j] == t[i];
        assert s[j] < s[|s| - 1];
      }
    }
  }

  function InsertDistinct(s: seq<real>, v: real): (r: seq<real>)
    requires Increasing(s)
    ensures Increasing(r) && v in r && (forall u :: u in s ==> u in r) && forall u :: u in r ==> u == v || u in s
  {
    if s == [] || s[|s| - 1] < v then s + [v]
    else if s[|s| - 1] == v then s
    else
      var t := InsertDistinct(s[..|s| - 1], v);
      InsertedBelow(s, v, t);
      t + [s[|s| - 1]]
  }

  /** The distinct second coordinates in increasing order (sort, then unique and erase). */
  function Levels(s: seq<Point>): (r: seq<real>)
    ensures Increasing(r) && forall i :: 0 <= i < |s| ==> s[i].1 in r
  {
    if s == [] then [] else InsertDistinct(Levels(s[..|s| - 1]), s[|s| - 1].1)
  }

  /** std::lower_bound on an increasing list that contains v: the position of v. */
  method LowerBound(levels: seq<real>, v: real) returns (rank: nat)
    requires Increasing(levels) && v in levels
    ensures rank < |levels| && levels[rank] == v
  {
    var lo, hi := 0, |levels|;
    while lo < hi
      invariant 0 <= lo <= hi <= |levels|
      invariant forall i :: 0 <= i < lo ==> levels[i] < v
      invariant forall i :: hi <= i < |levels| ==> levels[i] >= v
    {
      var mid := (lo + hi) / 2;
      if levels[mid] < v { lo := mid + 1; } else { hi := mid; }
    }
    rank := lo;
  }

  /** The positions inserted so far are the ranks of the first points. */
  ghost predicate RanksOf(levels: seq<real>, s: seq<Point>, added: seq<nat>) {
    |added| <= |s| && forall i :: 0 <= i < |added| ==> added[i] < |levels| && levels[added[i]] == s[i].1
  }

  function Below(y: real, s: seq<Point>): nat {
    if s == [] then 0 else Below(y, s[..|s| - 1]) + if s[|s| - 1].1 < y then 1 else 0
  }

  function Above(y: real, s: seq<Point>): nat {
    if s == [] then 0 else Above(y, s[..|s| - 1]) + if s[|s| - 1].1 > y then 1 else 0
  }

  lemma {:induction false} CountIsBelow(levels: seq<real>, s: seq<Point>, added: seq<nat>, rank: nat)
    requires Increasing(levels) && RanksOf(levels, s, added) && |added| == |s| && rank < |levels|
    ensures CountIn(added, 0, rank) == Below(levels[rank], s)
    ensures CountIn(added, 0, rank + 1) + Above(levels[rank], s) == |s|
  {
    if s != [] {
      var n := |s| - 1;
      CountIsBelow(levels, s[..n], added[..n], rank);
      assert added[n] < rank <==> s[n].1 < levels[rank];
      assert added[n] < rank + 1 <==> !(s[n].1 > levels[rank]);
    }
  }

  // ----- counting along the sorted points -----

  /** Among points with smaller x, concordance is decided by y. */
  lemma {:induction false} WithByLevels(s: seq<Point>, begin: nat, i: nat, k: nat)
    requires k <= i < |s| && begin <= i && Sorted(ByXY, s)
    requires forall j :: 0 <= j < begin ==> s[j].0 < s[i].0
    requires forall j :: begin <= j < i ==> s[j].0 == s[i].0
    ensures With(Concordant, s[i], s[..k]) == Below(s[i].1, s[..if k < begin then k else begin])
    ensures With(Discordant, s[i], s[..k]) == Above(s[i].1, s[..if k < begin then k else begin])
  {
    if k > 0 {
      WithByLevels(s, begin, i, k - 1);
      assert s[..k][..k - 1] == s[..k - 1];
      if k <= begin { assert s[..k][..|s[..k]| - 1] == s[..k - 1]; }
    }
  }

  lemma {:induction false} TiesInGroup(rel: Relation, s: seq<Point>, begin: nat, i: nat, k: nat)
    requires k <= i < |s| && begin <= i
    requires forall j :: 0 <= j < begin ==> !rel.Holds(s[i], s[j])
    requires forall j :: begin <= j < i ==> rel.Holds(s[i], s[j])
    ensures With(rel, s[i], s[..k]) == if k < begin then 0 else k - begin
  {
    if k > 0 {
      TiesInGroup(rel, s, begin, i, k - 1);
      assert s[..k][..k - 1] == s[..k - 1];
    }
  }

  lemma PairStep(rel: Relation, s: seq<Point>, i: nat)
    requires i < |s|
    ensures PairCount(rel, s[..i + 1]) == PairCount(rel, s[..i]) + With(rel, s[i], s[..i])
  {
    assert s[..i + 1][..i] == s[..i];
  }

  /** The key that groups are runs of: x in the first order, y in the second. */
  function Key(order: Order, a: Point): real { if order == ByXY then a.0 else a.1 }

  function Tie(order: Order): Relation { if order == ByXY then SameX else SameY }

  /** [begin, end) is a maximal run of equal keys, after strictly smaller ones. */
  ghost predicate Group(order: Order, s: seq<Point>, begin: nat, end: nat) {
    && begin < end <= |s|
    && (forall j :: 0 <= j < begin ==> Key(order, s[j]) < Key(order, s[begin]))
    && (forall j :: begin <= j < end ==> Key(order, s[j]) == Key(order, s[begin]))
    && (forall j :: end <= j < |s| ==> Key(order, s[j]) > Key(order, s[begin]))
  }

  method GroupEnd(order: Order, s: seq<Point>, begin: nat) returns (end: nat)
    requires Sorted(order, s) && begin < |s|
    requires forall j :: 0 <= j < begin ==> Key(order, s[j]) < Key(order, s[begin])
    ensures Group(order, s, begin, end)
  {
    end := begin + 1;
    while end < |s| && Key(order, s[end]) == Key(order, s[begin])
      invariant begin < end <= |s|
      invariant forall j :: begin <= j < end ==> Key(order, s[j]) == Key(order, s[begin])
    {
      end := end + 1;
    }
    forall j | end <= j < |s| ensures Key(order, s[j]) > Key(order, s[begin]) {
      assert order.AtMost(s[end], s[j]) && order.AtMost(s[begin], s[end]);
    }
  }

  /** The tie loop: a run of length m contributes m(m-1)/2 pairs. */
  method CountTies(order: Order, s: seq<Point>) returns (ties: nat)
    requires Sorted(order, s)
    ensures ties == PairCount(Tie(order), s)
  {
    ties := 0;
    var begin := 0;
    while begin < |s|
      invariant begin <= |s|
      invariant begin < |s| ==> forall j :: 0 <= j < begin ==> Key(order, s[j]) < Key(order, s[begin])
      invariant ties == PairCount(Tie(order), s[..begin])
    {
      var end := GroupEnd(order, s, begin);
      GroupTies(order, s, begin, end, end);
      ties := ties + Choose2(end - begin);
      begin := end;
    }
    assert s[..|s|] == s;
  }

  lemma {:induction false} GroupTies(order: Order, s: seq<Point>, begin: nat, end: nat, k: nat)
    requires Group(order, s, begin, end) && begin <= k <= end
    ensures PairCount(Tie(order), s[..k]) == PairCount(Tie(order), s[..begin]) + Choose2(k - begin)
    decreases k
  {
    if k > begin {
      GroupTies(order, s, begin, end, k - 1);
      PairStep(Tie(order), s, k - 1);
      TiesInGroup(Tie(order), s, begin, k - 1, k - 1);
      Choose2Step(k - 1 - begin);
    }
  }

  /** What the two prefix sums at the rank of point i contribute. */
  lemma ItemScore(s: seq<Point>, levels: seq<real>, added: seq<nat>, begin: nat, end: nat, i: nat, rank: nat)
    requires Sorted(ByXY, s) && Group(ByXY, s, begin, end) && begin <= i < end
    requires Increasing(levels) && |added| == begin && RanksOf(levels, s, added) && rank < |levels|
      && levels[rank] == s[i].1
    ensures With(Concordant, s[i], s[..i]) == CountIn(added, 0, rank)
    ensures CountIn(added, 0, rank + 1) <= begin
    ensures With(Discordant, s[i], s[..i]) == begin - CountIn(added, 0, rank + 1)
  {
    CountIsBelow(levels, s[..begin], added, rank);
    WithByLevels(s, begin, i, i);
  }

  method ScoreGroup(s: seq<Point>, levels: seq<real>, tree: Tree, begin: nat, end: nat)
    returns (concordant: nat, discordant: nat)
    requires Sorted(ByXY, s) && Group(ByXY, s, begin, end) && levels == Levels(s)
    requires tree.Valid() && tree.nodes.Length == |levels| + 1
    requires |tree.added| == begin && RanksOf(levels, s, tree.added)
    ensures PairCount(Concordant, s[..end]) == PairCount(Concordant, s[..begin]) + concordant
    ensures PairCount(Discordant, s[..end]) == PairCount(Discordant, s[..begin]) + discordant
  {
    hide Levels, CountIn, LowBit, With, PairCount, Tree.Valid;
    concordant, discordant := 0, 0;
    for i := begin to end
      invariant PairCount(Concordant, s[..i]) == PairCount(Concordant, s[..begin]) + concordant
      invariant PairCount(Discordant, s[..i]) == PairCount(Discordant, s[..begin]) + discordant
    {
      assert s[i].1 in levels;
      var rank := LowerBound(levels, s[i].1);
      var lower := tree.Sum(rank);
      var lowerOrEqual := tree.Sum(rank + 1);
      ItemScore(s, levels, tree.added, begin, end, i, rank);
      PairStep(Concordant, s, i);
      PairStep(Discordant, s, i);
      concordant := concordant + lower;
      discordant := discordant + (begin - lowerOrEqual);
    }
  }

  method AddGroup(s: seq<Point>, levels: seq<real>, tree: Tree, begin: nat, end: nat)
    requires begin <= end <= |s| && levels == Levels(s)
    requires tree.Valid() && tree.nodes.Length == |levels| + 1
    requires |tree.added| == begin && RanksOf(levels, s, tree.added)
    modifies tree`added, tree.nodes
    ensures tree.Valid() && tree.nodes == old(tree.nodes)
    ensures |tree.added| == end && RanksOf(levels, s, tree.added)
  {
    hide Levels, CountIn, LowBit, Tree.Valid;
    for i := begin to end
      invariant tree.Valid() && tree.nodes == old(tree.nodes)
      invariant |tree.added| == i && RanksOf(levels, s, tree.added)
    {
      assert s[i].1 in levels;
      var rank := LowerBound(levels, s[i].1);
      tree.Add(rank);
    }
  }

  method CountOrders(s: seq<Point>) returns (concordant: nat, discordant: nat)
    requires Sorted(ByXY, s)
    ensures concordant == PairCount(Concordant, s) && discordant == PairCount(Discordant, s)
  {
    hide Levels, CountIn, LowBit, Tree.Valid;
    var levels := Levels(s);
    var tree := new Tree(|levels|);
    concordant, discordant := 0, 0;
    var begin := 0;
    while begin < |s|
      invariant begin <= |s|
      invariant begin < |s| ==> forall j :: 0 <= j < begin ==> s[j].0 < s[begin].0
      invariant tree.Valid() && fresh(tree) && fresh(tree.nodes) && tree.nodes.Length == |levels| + 1
      invariant |tree.added| == begin && RanksOf(levels, s, tree.added)
      invariant concordant == PairCount(Concordant, s[..begin]) && discordant == PairCount(Discordant, s[..begin])
    {
      var end := GroupEnd(ByXY, s, begin);
      var c, d := ScoreGroup(s, levels, tree, begin, end);
      concordant, discordant := concordant + c, discordant + d;
      AddGroup(s, levels, tree, begin, end);
      begin := end;
    }
    assert s[..|s|] == s;
  }

  // ----- the statistic -----

  datatype Tau = LengthMismatch | Tau(value: real)

  function Zip(x: seq<real>, y: seq<real>): (s: seq<Point>)
    requires |x| == |y|
    ensures |s| == |x|
  {
    seq(|x|, i requires 0 <= i < |x| => (x[i], y[i]))
  }

  function Numerator(s: seq<Point>): int {
    PairCount(Concordant, s) as int - PairCount(Discordant, s) as int
  }

  /** The square of the denominator. */
  function Denominator2(s: seq<Point>): nat {
    TauBounded(s);
    Product(Choose2(|s|) - PairCount(SameX, s), Choose2(|s|) - PairCount(SameY, s))
  }

  /** v is n over the root of the square, or 0 when that is 0, and never beyond one. */
  predicate IsFraction(n: real, square: real, v: real) {
    && (if square == 0.0 then v == 0.0 else Times(Times(v, v), square) == Times(n, n))
    && (v > 0.0 ==> n > 0.0) && (v < 0.0 ==> n < 0.0)
    && -1.0 <= v <= 1.0
  }

  predicate IsTauB(s: seq<Point>, value: real) {
    IsFraction(Numerator(s) as real, Denominator2(s) as real, value)
  }

  lemma TauIs(s: seq<Point>)
    ensures PairCount(SameX, s) <= Choose2(|s|) && PairCount(SameY, s) <= Choose2(|s|)
    ensures Denominator2(s) == Product(Choose2(|s|) - PairCount(SameX, s), Choose2(|s|) - PairCount(SameY, s))
    ensures Squared(Numerator(s)) <= Denominator2(s)
  {
    hide PairCount, Choose2, Product, Squared;
    TauBounded(s);
  }

  function Ratio(numerator: int, denominator: real): real {
    if denominator > 0.0 then numerator as real / denominator else 0.0
  }

  lemma TauValue(s: seq<Point>, root: real)
    requires root >= 0.0 && Times(root, root) == Denominator2(s) as real
    ensures IsTauB(s, Ratio(Numerator(s), root))
  {
    hide Numerator, Denominator2, Squared, IsFraction, Times;
    TauIs(s);
    SquaredReal(Numerator(s));
    Fraction(Numerator(s) as real, root);
  }

  lemma Fraction(n: real, root: real)
    requires root >= 0.0 && Times(n, n) <= Times(root, root)
    ensures IsFraction(n, Times(root, root), if root > 0.0 then n / root else 0.0)
  {
    if root > 0.0 {
      hide Times;
      if n > root { Larger(n, root); }
      if -n > root { Larger(-n, root); OppositeSquare(n); }
      ScaledFraction(n / root, root);
      TimesQuotient(n, root);
    }
  }

  lemma TimesQuotient(n: real, root: real)
    requires root > 0.0
    ensures Times(n / root, root) == n
  {}

  lemma Larger(x: real, y: real)
    requires 0.0 < y < x
    ensures Times(x, x) > Times(y, y)
  {
    assert x * x > x * y;
    assert x * y > y * y;
  }

  lemma OppositeSquare(x: real)
    ensures Times(-x, -x) == Times(x, x)
  {}

  lemma ScaledFraction(v: real, root: real)
    requires root > 0.0 && -root <= Times(v, root) <= root
    ensures IsFraction(Times(v, root), Times(root, root), v)
  {
    hide Times;
    AtMostOne(v, root);
    Opposite(v, root);
    AtMostOne(-v, root);
    SameSign(v, root);
    SameSign(root, root);
    SquaredQuotient(v, root);
  }

  lemma Opposite(v: real, root: real)
    ensures Times(-v, root) == -Times(v, root)
  {}

  lemma SquaredQuotient(v: real, root: real)
    ensures Times(Times(v, v), Times(root, root)) == Times(Times(v, root), Times(v, root))
  {}

  lemma AtMostOne(v: real, root: real)
    requires root > 0.0 && Times(v, root) <= root
    ensures v <= 1.0
  {
    if v > 1.0 { Exceeds(v, root); }
  }

  lemma Exceeds(v: real, root: real)
    requires v > 1.0 && root > 0.0
    ensures Times(v, root) > root
  {}

  lemma SameSign(v: real, root: real)
    requires root > 0.0
    ensures (v > 0.0 <==> Times(v, root) > 0.0) && (v < 0.0 <==> Times(v, root) < 0.0)
  {}

  lemma SquaredReal(n: int)
    ensures Squared(n) as real == Times(n as real, n as real)
  {}

  function Times(x: real, y: real): real { x * y }

  function Product(a: nat, b: nat): nat { a * b }

  function Squared(n: int): int { n * n }

  /** No denominator factor underflows and the square of the numerator is at most their product,
      so tau-b lies in [-1, 1]. */
  lemma TauBounded(s: seq<Point>)
    ensures PairCount(SameX, s) <= Choose2(|s|) && PairCount(SameY, s) <= Choose2(|s|)
    ensures var n := PairCount(Concordant, s) - PairCount(Discordant, s);
      Squared(n) <= Product(Choose2(|s|) - PairCount(SameX, s), Choose2(|s|) - PairCount(SameY, s))
  {
    hide PairCount, Choose2;
    Trichotomy(s);
    SameBothIsSameY(s);
    ProductBound(PairCount(Concordant, s) - PairCount(Discordant, s),
                 Choose2(|s|) - PairCount(SameX, s), Choose2(|s|) - PairCount(SameY, s));
  }

  lemma ProductBound(n: int, a: int, b: int)
    requires -a <= n <= a && -b <= n <= b
    ensures n * n <= a * b
  {
    var m := if n >= 0 then n else -n;
    assert m * m == n * n;
    Monotone(m, a, m);
    Monotone(m, b, a);
  }

  lemma Monotone(x: int, y: int, k: int)
    requires x <= y && 0 <= k
    ensures x * k <= y * k && k * x <= k * y
  {}

  method KendallTauB(x: seq<real>, y: seq<real>, root: real -> real) returns (tau: Tau)
    requires IsRoot(root)
    ensures |x| != |y| <==> tau == LengthMismatch
    ensures |x| == |y| ==> tau.Tau? && if |x| < 2 then tau.value == 0.0 else IsTauB(Zip(x, y), tau.value)
  {
    hide IsTauB, Zip, IsRoot, Numerator, Denominator2, Times;
    if |x| != |y| { return LengthMismatch; }
    if |x| < 2 { return Tau(0.0); }
    var numerator, square := Counts(Zip(x, y));
    RootOf(root, square as real);
    var denominator := root(square as real);
    TauValue(Zip(x, y), denominator);
    tau := Tau(Ratio(numerator, denominator));
  }

  lemma RootOf(root: real -> real, v: real)
    requires IsRoot(root) && v >= 0.0
    ensures root(v) >= 0.0 && Times(root(v), root(v)) == v
  {}

  /** The numerator and the square of the denominator, from the sorted pairs. */
  method Counts(points: seq<Point>) returns (numerator: int, square: nat)
    ensures numerator == Numerator(points) && square == Denominator2(points)
  {
    hide PairCount, Choose2, Sort, Product, Sorted, Denominator2;
    TauIs(points);
    var pairs := Sort(ByXY, points);
    SortedCounts(ByXY, points);
    var concordant, discordant := CountOrders(pairs);
    var total := Choose2(|points|);
    var tiesX := CountTies(ByXY, pairs);
    var byY := Sort(ByYX, pairs);
    SortedCounts(ByYX, pairs);
    var tiesY := CountTies(ByYX, byY);
    numerator, square := concordant as int - discordant as int, Product(total - tiesX, total - tiesY);
  }
}
