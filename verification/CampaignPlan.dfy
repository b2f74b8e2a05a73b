// Planning a campaign: how many contexts of each prevhash, which ones, how the prevhashes are
// split into three partitions and how the blocks are shared out (make_plan in
// src/research/context_campaign.cpp). A prevhash is the number of its archived contexts.
module CampaignPlan {
  import opened Arith
  import opened RoundRobin

  // ----- quotas -----

  /** The turns that hand out the wanted contexts: all of them, no more than a prevhash has, and fairly. */
  method Quotas(sizes: seq<nat>, requested: nat) returns (quotas: seq<nat>)
    ensures |quotas| == |sizes| && Total(quotas) == Min(requested, Total(sizes))
    ensures IsTurn(sizes, quotas)
  {
    hide Total, Share;
    var available := Total(sizes);
    var wanted := Min(requested, available);
    var given := 0;
    quotas := seq(|sizes|, i => 0);
    ghost var rounds := 0;
    NoShares(sizes);
    StartOfTurns(sizes);
    while given < wanted
      invariant 0 <= given == Total(quotas) <= wanted && 0 <= rounds
      invariant given < wanted ==> quotas == Shares(sizes, rounds, 0)
      invariant IsTurn(sizes, quotas) && |quotas| == |sizes|
      decreases wanted - given
    {
      var added := false;
      ghost var before := given;
      for i := 0 to |sizes|
        invariant before <= given == Total(quotas) <= wanted && |quotas| == |sizes|
        invariant given < wanted ==> quotas == Shares(sizes, rounds, i)
        invariant IsTurn(sizes, quotas)
        invariant added <==> before < given
        invariant !added ==> forall j :: 0 <= j < i ==> sizes[j] <= rounds
      {
        TurnStep(sizes, rounds, i);
        ShareAt(sizes, rounds, i);
        if quotas[i] < sizes[i] && given < wanted {
          TotalUpdate(quotas, i, 1);
          quotas := quotas[i := quotas[i] + 1];
          given := given + 1;
          added := true;
        }
      }
      NextRound(sizes, rounds);
      if !added {
        AllShared(sizes, rounds);
        NextRoundFull(sizes, rounds);
        break;
      }
      rounds := rounds + 1;
    }
  }

  lemma StartOfTurns(sizes: seq<nat>)
    ensures Shares(sizes, 0, 0) == seq(|sizes|, i => 0)
    ensures IsTurn(sizes, Shares(sizes, 0, 0))
  {}

  lemma ShareAt(sizes: seq<nat>, rounds: nat, i: nat)
    requires i < |sizes|
    ensures Shares(sizes, rounds, i)[i] == Min(sizes[i], rounds)
    ensures IsTurn(sizes, Shares(sizes, rounds, i)) && IsTurn(sizes, Shares(sizes, rounds, i + 1))
  {}

  lemma NextRoundFull(sizes: seq<nat>, rounds: nat)
    requires forall i :: 0 <= i < |sizes| ==> sizes[i] <= rounds
    ensures Shares(sizes, rounds, |sizes|) == sizes
  {}

  // ----- representatives -----

  predicate Ascending(s: seq<nat>) { forall i, j :: 0 <= i < j < |s| ==> s[i] < s[j] }

  function StratumStart(stratum: nat, size: nat, count: nat): nat
    requires count > 0
  {
    stratum * size / count
  }

  lemma StrataAdvance(stratum: nat, size: nat, count: nat)
    requires 0 < count <= size
    ensures StratumStart(stratum, size, count) < StratumStart(stratum + 1, size, count)
  {
    MulDistributes(stratum, 1, size);
    Advance(stratum * size, size, count);
  }

  lemma Advance(x: nat, size: nat, count: nat)
    requires 0 < count <= size
    ensures x / count < (x + size) / count
  {
    var q := x / count;
    assert x == q * count + x % count;
    MulDistributes(q, 1, count);
    DivAtLeast(x + size, count, q + 1);
  }

  lemma LastStratum(size: nat, count: nat)
    requires 0 < count
    ensures StratumStart(count, size, count) == size && StratumStart(0, size, count) == 0
  {
    assert count * size == size * count;
    DivisionIs(size * count, count, size, 0);
    DivisionIs(0, count, 0, 0);
  }

  /** One context from each of `count` strata: whatever is drawn, the choices ascend, so they are distinct. */
  method PickStrata(size: nat, count: nat) returns (chosen: seq<nat>)
    requires count <= size
    ensures |chosen| == count && Ascending(chosen) && forall i :: 0 <= i < count ==> chosen[i] < size
    ensures forall i :: 0 <= i < count ==>
      StratumStart(i, size, count) <= chosen[i] < StratumStart(i + 1, size, count)
  {
    hide StratumStart;
    chosen := [];
    if count > 0 { LastStratum(size, count); }
    for stratum := 0 to count
      invariant |chosen| == stratum && Ascending(chosen)
      invariant forall i :: 0 <= i < stratum ==>
        StratumStart(i, size, count) <= chosen[i] < StratumStart(i + 1, size, count)
      invariant forall i :: 0 <= i < stratum ==> chosen[i] < StratumStart(stratum, size, count)
    {
      StrataAdvance(stratum, size, count);
      var begin, end := StratumStart(stratum, size, count), StratumStart(stratum + 1, size, count);
      var drawn: nat :| begin <= drawn < end;
      chosen := chosen + [drawn];
    }
  }

  // ----- selection -----

  datatype Pick = Pick(prevhash: nat, index: nat)

  function Lengths(reps: seq<seq<nat>>): (s: seq<nat>)
    ensures |s| == |reps| && forall i :: 0 <= i < |s| ==> s[i] == |reps[i]|
  {
    seq(|reps|, i requires 0 <= i < |reps| => |reps[i]|)
  }

  predicate Distinct(s: seq<Pick>) { forall i, j :: 0 <= i < j < |s| ==> s[i] != s[j] }

  /** How many of the picks are of prevhash g. */
  function CountOf(s: seq<Pick>, g: nat): nat {
    if s == [] then 0
    else CountOf(s[..|s| - 1], g) + if s[|s| - 1].prevhash == g then 1 else 0
  }

  function Counts(s: seq<Pick>, n: nat): (c: seq<nat>)
    ensures |c| == n && forall g :: 0 <= g < n ==> c[g] == CountOf(s, g)
  {
    seq(n, g requires 0 <= g < n => CountOf(s, g))
  }

  /** Wherever the selection is cut, each prevhash has what it would have after so many turns. */
  ghost predicate InTurns(sizes: seq<nat>, selected: seq<Pick>) {
    forall k :: 0 <= k <= |selected| ==> IsTurn(sizes, Counts(selected[..k], |sizes|))
  }

  /** Pick k is the next representative of its prevhash. */
  predicate NextOf(reps: seq<seq<nat>>, selected: seq<Pick>, k: nat)
    requires k < |selected|
  {
    var g := selected[k].prevhash;
    var d := CountOf(selected[..k], g);
    g < |reps| && d < |reps[g]| && selected[k].index == reps[g][d]
  }

  predicate InOrder(reps: seq<seq<nat>>, selected: seq<Pick>) {
    forall k :: 0 <= k < |selected| ==> NextOf(reps, selected, k)
  }

  /** Selecting depth by depth: all representatives wanted, each once, in turns and in their order. */
  method Select(reps: seq<seq<nat>>, wanted: nat) returns (selected: seq<Pick>)
    requires forall g :: 0 <= g < |reps| ==> Ascending(reps[g])
    requires wanted == Total(Lengths(reps))
    ensures |selected| == wanted && Distinct(selected)
    ensures Counts(selected, |reps|) == Lengths(reps)
    ensures InTurns(Lengths(reps), selected) && InOrder(reps, selected)
  {
    hide Total, Share, Ascending, CountOf, IsTurn, NextOf;
    selected := [];
    var depth := 0;
    ghost var sizes := Lengths(reps);
    NoShares(sizes);
    NothingSelected(sizes);
    while |selected| < wanted
      invariant 0 <= depth && |selected| <= wanted
      invariant InTurns(sizes, selected) && InOrder(reps, selected)
      invariant |selected| == Total(Shares(sizes, depth, 0)) && Counts(selected, |reps|) == Shares(sizes, depth, 0)
      decreases wanted - |selected|
    {
      var added := false;
      ghost var before := |selected|;
      for g := 0 to |reps|
        invariant before <= |selected| <= wanted
        invariant InTurns(sizes, selected) && InOrder(reps, selected)
        invariant |selected| == Total(Shares(sizes, depth, g)) && Counts(selected, |reps|) == Shares(sizes, depth, g)
        invariant added <==> before < |selected|
        invariant !added ==> forall j :: 0 <= j < g ==> sizes[j] <= depth
      {
        TurnStep(sizes, depth, g);
        SharesBelow(sizes, depth, g);
        if depth < |reps[g]| && |selected| < wanted {
          TotalUpdate(Shares(sizes, depth, g), g, 1);
          OneMore(reps, selected, depth, g);
          selected := selected + [Pick(g, reps[g][depth])];
          added := true;
        }
      }
      NextRound(sizes, depth);
      if !added {
        NextRoundFull(sizes, depth);
        break;
      }
      depth := depth + 1;
    }
    OrderIsDistinct(reps, selected);
    CountsComplete(sizes, selected);
  }

  lemma NothingSelected(sizes: seq<nat>)
    ensures Counts([], |sizes|) == Shares(sizes, 0, 0) && InTurns(sizes, [])
  {
    var none: seq<Pick> := [];
    assert none[..0] == none;
    IsTurnOf(sizes, 0, 0);
  }

  lemma IsTurnOf(sizes: seq<nat>, rounds: nat, cut: nat)
    requires cut <= |sizes|
    ensures IsTurn(sizes, Shares(sizes, rounds, cut))
  {}

  lemma CountSnoc(s: seq<Pick>, p: Pick, g: nat)
    ensures CountOf(s + [p], g) == CountOf(s, g) + if p.prevhash == g then 1 else 0
  {
    assert (s + [p])[..|s|] == s;
  }

  lemma {:induction false} CountGrows(s: seq<Pick>, k: nat, g: nat)
    requires k <= |s|
    ensures CountOf(s[..k], g) <= CountOf(s, g)
  {
    if k == |s| {
      assert s[..k] == s;
    } else {
      CountGrows(s[..|s| - 1], k, g);
      assert s[..|s| - 1][..k] == s[..k];
    }
  }

  /** The pick of slot (depth, g) keeps the turns and the order. */
  lemma OneMore(reps: seq<seq<nat>>, selected: seq<Pick>, depth: nat, g: nat)
    requires g < |reps| && depth < |reps[g]|
    requires InTurns(Lengths(reps), selected) && InOrder(reps, selected)
    requires Counts(selected, |reps|) == Shares(Lengths(reps), depth, g)
    ensures var t := selected + [Pick(g, reps[g][depth])];
      && InTurns(Lengths(reps), t) && InOrder(reps, t)
      && Counts(t, |reps|) == Shares(Lengths(reps), depth, g + 1)
  {
    hide CountOf, IsTurn, Share;
    var sizes, p := Lengths(reps), Pick(g, reps[g][depth]);
    var t := selected + [p];
    forall h | 0 <= h < |reps| ensures Counts(t, |reps|)[h] == Shares(sizes, depth, g + 1)[h] {
      CountSnoc(selected, p, h);
      TurnStep(sizes, depth, g);
    }
    IsTurnOf(sizes, depth, g + 1);
    assert Counts(t, |reps|) == Shares(sizes, depth, g + 1);
    forall k | 0 <= k <= |t| ensures IsTurn(sizes, Counts(t[..k], |sizes|)) {
      if k <= |selected| { assert t[..k] == selected[..k]; } else { assert t[..k] == t; }
    }
    forall k | 0 <= k < |t| ensures NextOf(reps, t, k) {
      if k < |selected| {
        assert t[..k] == selected[..k] && NextOf(reps, selected, k);
      } else {
        assert t[..k] == selected;
        ShareIs(sizes, depth, g);
      }
    }
  }

  lemma ShareIs(sizes: seq<nat>, depth: nat, g: nat)
    requires g < |sizes| && depth < sizes[g]
    ensures Shares(sizes, depth, g)[g] == depth
  {}

  /** Picks in the order of ascending representatives are pairwise different. */
  lemma OrderIsDistinct(reps: seq<seq<nat>>, selected: seq<Pick>)
    requires InOrder(reps, selected) && forall g :: 0 <= g < |reps| ==> Ascending(reps[g])
    ensures Distinct(selected)
  {
    hide CountOf;
    forall i, j | 0 <= i < j < |selected|
      ensures selected[i] != selected[j]
    {
      assert NextOf(reps, selected, i) && NextOf(reps, selected, j);
      var g := selected[i].prevhash;
      CountSnoc(selected[..i], selected[i], g);
      assert selected[..i + 1] == selected[..i] + [selected[i]];
      CountGrows(selected[..j], i + 1, g);
      assert selected[..j][..i + 1] == selected[..i + 1];
    }
  }

  /** Shares that add up to the total are the whole. */
  lemma CountsComplete(sizes: seq<nat>, selected: seq<Pick>)
    requires InTurns(sizes, selected) && Total(Counts(selected, |sizes|)) == Total(sizes)
    ensures Counts(selected, |sizes|) == sizes
  {
    hide CountOf, Total;
    assert selected[..|selected|] == selected;
    QuotasFit(sizes, Counts(selected, |sizes|));
    SameTotal(Counts(selected, |sizes|), sizes);
  }

  lemma {:induction false} SameTotal(s: seq<nat>, t: seq<nat>)
    requires |s| == |t| && Total(s) == Total(t) && forall i :: 0 <= i < |s| ==> s[i] <= t[i]
    ensures s == t
  {
    if s != [] {
      SmallerTotal(s[..|s| - 1], t[..|t| - 1]);
      SameTotal(s[..|s| - 1], t[..|t| - 1]);
      assert s == s[..|s| - 1] + [s[|s| - 1]];
      assert t == t[..|t| - 1] + [t[|t| - 1]];
    }
  }

  /** Two points of the turns with one total are the same shares. */
  lemma OnePointPerTotal(sizes: seq<nat>, s: seq<nat>, t: seq<nat>)
    requires IsTurn(sizes, s) && IsTurn(sizes, t) && Total(s) == Total(t)
    ensures s == t
  {
    hide Total;
    var r: nat, c: nat :| c <= |sizes| && s == Shares(sizes, r, c);
    var r': nat, c': nat :| c' <= |sizes| && t == Shares(sizes, r', c');
    if r < r' || (r == r' && c <= c') { SameTotal(s, t); } else { SameTotal(t, s); }
  }

  lemma {:induction false} TotalOfCounts(s: seq<Pick>, n: nat)
    requires forall i :: 0 <= i < |s| ==> s[i].prevhash < n
    ensures Total(Counts(s, n)) == |s|
  {
    if s == [] {
      NoCounts(n);
    } else {
      var t, p := s[..|s| - 1], s[|s| - 1];
      TotalOfCounts(t, n);
      assert s == t + [p];
      forall g | 0 <= g < n
        ensures Counts(s, n)[g] == Counts(t, n)[g] + if g == p.prevhash then 1 else 0
      {
        CountSnoc(t, p, g);
      }
      TotalUpdate(Counts(t, n), p.prevhash, 1);
      assert Counts(s, n) == Counts(t, n)[p.prevhash := Counts(t, n)[p.prevhash] + 1];
    }
  }

  lemma {:induction false} NoCounts(n: nat)
    ensures Total(Counts([], n)) == 0
  {
    if n > 0 {
      NoCounts(n - 1);
      assert Counts([], n)[..n - 1] == Counts([], n - 1);
    }
  }

  /** Turns and order leave no choice: the representatives and the number of picks determine the selection. */
  lemma {:induction false} SelectionIsUnique(reps: seq<seq<nat>>, s: seq<Pick>, t: seq<Pick>)
    requires InTurns(Lengths(reps), s) && InOrder(reps, s)
    requires InTurns(Lengths(reps), t) && InOrder(reps, t) && |s| == |t|
    ensures s == t
  {
    hide CountOf, IsTurn, Total;
    if s != [] {
      var n := |s| - 1;
      Shorter(reps, s);
      Shorter(reps, t);
      SelectionIsUnique(reps, s[..n], t[..n]);
      assert NextOf(reps, s, n) && NextOf(reps, t, n) && s == s[..n] + [s[n]] && t == t[..n] + [t[n]];
      SameCounts(reps, s, t);
      CountSnoc(s[..n], s[n], s[n].prevhash);
      CountSnoc(t[..n], t[n], s[n].prevhash);
      assert Counts(s, |reps|)[s[n].prevhash] == Counts(t, |reps|)[s[n].prevhash];
    }
  }

  lemma Shorter(reps: seq<seq<nat>>, s: seq<Pick>)
    requires InTurns(Lengths(reps), s) && InOrder(reps, s) && s != []
    ensures InTurns(Lengths(reps), s[..|s| - 1]) && InOrder(reps, s[..|s| - 1])
  {
    hide CountOf, IsTurn;
    var t := s[..|s| - 1];
    assert forall k :: 0 <= k <= |t| ==> t[..k] == s[..k];
    forall k | 0 <= k < |t| ensures NextOf(reps, t, k) { assert NextOf(reps, s, k); }
  }

  lemma SameCounts(reps: seq<seq<nat>>, s: seq<Pick>, t: seq<Pick>)
    requires InTurns(Lengths(reps), s) && InOrder(reps, s)
    requires InTurns(Lengths(reps), t) && InOrder(reps, t) && |s| == |t|
    ensures Counts(s, |reps|) == Counts(t, |reps|)
  {
    hide CountOf, IsTurn, Total;
    assert s[..|s|] == s && t[..|t|] == t;
    forall i | 0 <= i < |s| ensures s[i].prevhash < |reps| && t[i].prevhash < |reps| {
      assert NextOf(reps, s, i) && NextOf(reps, t, i);
    }
    TotalOfCounts(s, |reps|);
    TotalOfCounts(t, |reps|);
    OnePointPerTotal(Lengths(reps), Counts(s, |reps|), Counts(t, |reps|));
  }

  /** Cut to at least as many contexts as there are prevhashes, the selection still has every prevhash. */
  lemma CutKeepsEveryPrevhash(sizes: seq<nat>, shares: seq<nat>, g: nat)
    requires IsTurn(sizes, shares) && g < |sizes| && sizes[g] > 0
    requires Total(shares) >= |sizes|
    ensures shares[g] > 0
  {
    hide Total;
    if shares[g] == 0 {
      var rounds: nat, cut: nat :| cut <= |sizes| && shares == Shares(sizes, rounds, cut);
      FirstTurn(sizes, cut);
    }
  }

  lemma {:induction false} FirstTurn(sizes: seq<nat>, cut: nat)
    requires cut <= |sizes|
    ensures Total(Shares(sizes, 0, cut)) <= cut
  {
    if sizes != [] {
      var n := |sizes| - 1;
      FirstTurn(sizes[..n], Min(cut, n));
      assert Shares(sizes, 0, cut)[..n] == Shares(sizes[..n], 0, Min(cut, n));
    }
  }

  /** While a party can still take, the shares have not reached the total. */
  lemma SharesBelow(sizes: seq<nat>, depth: nat, g: nat)
    requires g < |sizes|
    ensures Total(Shares(sizes, depth, g)) <= Total(sizes)
    ensures depth < sizes[g] ==> Total(Shares(sizes, depth, g)) < Total(sizes)
  {
    hide Total;
    SmallerTotal(Shares(sizes, depth, g), sizes);
    if depth < sizes[g] {
      var s := Shares(sizes, depth, g);
      TotalUpdate(s, g, 1);
      SmallerTotal(s[g := s[g] + 1], sizes);
    }
  }

  // ----- partitions: largest remainders -----

  /** A fraction of n. */
  function Exact(f: real, n: nat): real { f * n as real }

  predicate ValidFractions(f: seq<real>) {
    |f| == 3 && forall p :: 0 <= p < 3 ==> 0.0 <= f[p] <= 1.0
  }

  function Sum3(f: seq<real>): real
    requires |f| == 3
  {
    f[0] + f[1] + f[2]
  }

  const TOLERANCE: real := 0.000000001

  /** The fractions sum to one closely enough for n prevhashes: exactly, or off by less than one prevhash. */
  predicate CloseEnough(f: seq<real>, n: nat)
    requires |f| == 3
  {
    -1.0 < Exact(Sum3(f), n) - n as real < 1.0
  }

  function PositiveCount(r: seq<real>): nat
    requires |r| == 3
  {
    (if r[0] > 0.0 then 1 else 0) + (if r[1] > 0.0 then 1 else 0) + (if r[2] > 0.0 then 1 else 0)
  }

  /** std::max_element on three values: the first of the largest. */
  method ArgMaxReal(r: seq<real>) returns (best: nat)
    requires |r| == 3
    ensures best < 3 && forall i :: 0 <= i < 3 ==> r[i] <= r[best]
    ensures forall i :: 0 <= i < best ==> r[i] < r[best]
  {
    best := 0;
    for i := 1 to 3
      invariant best < i && (forall j :: 0 <= j < i ==> r[j] <= r[best])
      invariant forall j :: 0 <= j < best ==> r[j] < r[best]
    {
      if r[best] < r[i] { best := i; }
    }
  }

  method ArgMaxNat(r: seq<nat>) returns (best: nat)
    requires |r| == 3
    ensures best < 3 && forall i :: 0 <= i < 3 ==> r[i] <= r[best]
    ensures forall i :: 0 <= i < best ==> r[i] < r[best]
  {
    best := 0;
    for i := 1 to 3
      invariant best < i && (forall j :: 0 <= j < i ==> r[j] <= r[best])
      invariant forall j :: 0 <= j < best ==> r[j] < r[best]
    {
      if r[best] < r[i] { best := i; }
    }
  }

  predicate FloorOrNext(c: nat, x: real) { c == x.Floor || (c == x.Floor + 1 && x > x.Floor as real) }

  lemma FloorParts(f: real, n: nat)
    requires 0.0 <= f
    ensures Exact(f, n) >= 0.0 && 0 <= Exact(f, n).Floor
    ensures f == 0.0 ==> Exact(f, n) == 0.0
    ensures 0.0 <= Exact(f, n) - Exact(f, n).Floor as real < 1.0
  {
    RealProduct(f, n as real);
  }

  lemma RealProduct(x: real, y: real)
    requires 0.0 <= x && 0.0 <= y
    ensures x * y >= 0.0 && (x == 0.0 ==> x * y == 0.0)
  {}

  lemma ExactAdds(f: seq<real>, n: nat)
    requires |f| == 3
    ensures Exact(f[0], n) + Exact(f[1], n) + Exact(f[2], n) == Exact(Sum3(f), n)
  {
    var x := n as real;
    assert (f[0] + f[1] + f[2]) * x == f[0] * x + f[1] * x + f[2] * x;
  }

  /** The floors leave at most as many prevhashes over as there are positive remainders. */
  lemma LeftOver(c: seq<nat>, r: seq<real>, n: nat, exact: real)
    requires |c| == 3 && |r| == 3 && forall p :: 0 <= p < 3 ==> 0.0 <= r[p] < 1.0
    requires (c[0] + c[1] + c[2]) as real + (r[0] + r[1] + r[2]) == exact && -1.0 < exact - n as real < 1.0
    ensures c[0] + c[1] + c[2] <= n <= c[0] + c[1] + c[2] + PositiveCount(r)
  {
    var k := PositiveCount(r);
    assert r[0] + r[1] + r[2] <= k as real;
    assert k > 0 ==> r[0] + r[1] + r[2] < k as real;
    var s := c[0] + c[1] + c[2];
    assert s as real < n as real + 1.0;
    assert n as real < s as real + k as real + 1.0;
  }

  /** The shares rounded down. */
  function Floors(f: seq<real>, n: nat): (c: seq<nat>)
    requires ValidFractions(f)
    ensures |c| == 3
  {
    FloorParts(f[0], n);
    FloorParts(f[1], n);
    FloorParts(f[2], n);
    [Exact(f[0], n).Floor, Exact(f[1], n).Floor, Exact(f[2], n).Floor]
  }

  function Remainders(f: seq<real>, n: nat): (r: seq<real>)
    requires ValidFractions(f)
    ensures |r| == 3 && forall p :: 0 <= p < 3 ==> 0.0 <= r[p] < 1.0
  {
    FloorParts(f[0], n);
    FloorParts(f[1], n);
    FloorParts(f[2], n);
    [Exact(f[0], n) - Exact(f[0], n).Floor as real, Exact(f[1], n) - Exact(f[1], n).Floor as real,
     Exact(f[2], n) - Exact(f[2], n).Floor as real]
  }

  function Sum(c: seq<nat>): nat
    requires |c| == 3
  {
    c[0] + c[1] + c[2]
  }

  /** What the floors leave to hand out. */
  function Left(f: seq<real>, n: nat): nat
    requires ValidFractions(f)
  {
    if Sum(Floors(f, n)) <= n then n - Sum(Floors(f, n)) else 0
  }

  predicate Before(r: seq<real>, i: nat, p: nat)
    requires i < |r| && p < |r|
  {
    r[i] > r[p] || (r[i] == r[p] && i < p)
  }

  /** The place of a partition in the order of remainders, the largest first and ties by position. */
  function Rank(r: seq<real>, p: nat): (k: nat)
    requires |r| == 3 && p < 3
    ensures k < 3
  {
    (if Before(r, 0, p) then 1 else 0) + (if Before(r, 1, p) then 1 else 0) + (if Before(r, 2, p) then 1 else 0)
  }

  /** What partition p has after `turns` turns of handing out; turns beyond three go to the first. */
  function Apportioned(c: seq<nat>, r: seq<real>, turns: nat, p: nat): nat
    requires |c| == 3 && |r| == 3 && p < 3
  {
    c[p] + (if Rank(r, p) < turns then 1 else 0) + (if p == 0 && turns > 3 then turns - 3 else 0)
  }

  function ApportionedSizes(f: seq<real>, n: nat): (c: seq<nat>)
    requires ValidFractions(f)
    ensures |c| == 3
  {
    seq(3, p requires 0 <= p < 3 => Apportioned(Floors(f, n), Remainders(f, n), Left(f, n), p))
  }

  /** What is left of the remainders after the turns. */
  predicate Used(r: seq<real>, now: seq<real>, turns: nat)
    requires |r| == 3
  {
    |now| == 3 && forall p :: 0 <= p < 3 ==> now[p] == if Rank(r, p) < turns then -1.0 else r[p]
  }

  /** The first of the largest remainders is the one whose turn it is. */
  lemma NextInRank(r: seq<real>, now: seq<real>, turns: nat, best: nat)
    requires |r| == 3 && (forall p :: 0 <= p < 3 ==> 0.0 <= r[p]) && Used(r, now, turns) && best < 3
    requires (forall i :: 0 <= i < 3 ==> now[i] <= now[best]) && forall i :: 0 <= i < best ==> now[i] < now[best]
    ensures if turns < 3 then Rank(r, best) == turns else best == 0
    ensures Used(r, now[best := -1.0], turns + 1)
  {
    RanksDiffer(r);
    var p := AtRank(r, if turns < 3 then turns else 0);
  }

  lemma RanksDiffer(r: seq<real>)
    requires |r| == 3
    ensures Rank(r, 0) != Rank(r, 1) && Rank(r, 0) != Rank(r, 2) && Rank(r, 1) != Rank(r, 2)
  {}

  lemma AtRank(r: seq<real>, k: nat) returns (p: nat)
    requires |r| == 3 && k < 3
    ensures p < 3 && Rank(r, p) == k
  {
    RanksDiffer(r);
    p := if Rank(r, 0) == k then 0 else if Rank(r, 1) == k then 1 else 2;
  }

  /** Largest-remainder apportionment: the shares rounded down, and one more for as many partitions as
      prevhashes are left, in the order of their remainders. */
  method Apportion(f: seq<real>, n: nat) returns (counts: seq<nat>)
    requires ValidFractions(f)
    ensures |counts| == 3
    ensures forall p :: 0 <= p < 3 ==> counts[p] == Apportioned(Floors(f, n), Remainders(f, n), Left(f, n), p)
    ensures Sum(counts) == Sum(Floors(f, n)) + Left(f, n)
  {
    hide Exact, Floors, Remainders, Rank, Used;
    ghost var start, r := Floors(f, n), Remainders(f, n);
    counts := Floors(f, n);
    var remainders := Remainders(f, n);
    var partitioned := Sum(counts);
    ghost var turns := 0;
    NothingUsed(r);
    while partitioned < n
      invariant |counts| == 3 && partitioned == Sum(counts) == Sum(start) + turns
      invariant turns > 0 ==> partitioned <= n
      invariant Used(r, remainders, turns) && |remainders| == 3
      invariant forall p :: 0 <= p < 3 ==> counts[p] == Apportioned(start, r, turns, p)
      decreases n - partitioned
    {
      var best := ArgMaxReal(remainders);
      NextInRank(r, remainders, turns, best);
      RanksDiffer(r);
      counts := counts[best := counts[best] + 1];
      remainders := remainders[best := -1.0];
      partitioned := partitioned + 1;
      turns := turns + 1;
    }
  }

  lemma NothingUsed(r: seq<real>)
    requires |r| == 3
    ensures Used(r, r, 0)
  {}

  /** The counts add up to the prevhashes exactly when the floors do not exceed them; they are shares
      rounded down or up exactly when no more is left than there are positive remainders; and a zero
      fraction gets nothing exactly when no more is left than there are partitions before it. */
  lemma WhenApportioned(f: seq<real>, n: nat, counts: seq<nat>)
    requires ValidFractions(f) && |counts| == 3
    requires forall p :: 0 <= p < 3 ==> counts[p] == Apportioned(Floors(f, n), Remainders(f, n), Left(f, n), p)
    ensures Sum(Floors(f, n)) + Left(f, n) == n <==> Sum(Floors(f, n)) <= n
    ensures (forall p :: 0 <= p < 3 ==> FloorOrNext(counts[p], Exact(f[p], n)))
      <==> Left(f, n) <= PositiveCount(Remainders(f, n))
    ensures forall p :: 0 <= p < 3 && f[p] == 0.0 ==> (counts[p] == 0 <==> Left(f, n) <= Rank(Remainders(f, n), p))
  {
    hide Exact;
    var c, r := Floors(f, n), Remainders(f, n);
    forall p | 0 <= p < 3
      ensures c[p] == Exact(f[p], n).Floor && (r[p] > 0.0 <==> Exact(f[p], n) > c[p] as real)
      ensures f[p] == 0.0 ==> c[p] == 0 && r[p] == 0.0
    {
      FloorParts(f[p], n);
    }
    PositiveFirst(r, Left(f, n));
  }

  /** Positive remainders come before the others. */
  lemma PositiveFirst(r: seq<real>, left: nat)
    requires |r| == 3 && forall p :: 0 <= p < 3 ==> 0.0 <= r[p]
    ensures forall p :: 0 <= p < 3 ==> (r[p] > 0.0 <==> Rank(r, p) < PositiveCount(r))
    ensures left <= PositiveCount(r) <==> forall p :: 0 <= p < 3 && Rank(r, p) < left ==> r[p] > 0.0 && left <= 3
  {
    RanksDiffer(r);
    if left > PositiveCount(r) {
      var p := AtRank(r, if PositiveCount(r) < 3 then PositiveCount(r) else 0);
      assert Rank(r, p) < left;
    }
  }

  /** Fractions close enough to one leave no more than there are positive remainders. */
  lemma CloseLeaves(f: seq<real>, n: nat)
    requires ValidFractions(f) && CloseEnough(f, n)
    ensures Sum(Floors(f, n)) <= n && Left(f, n) <= PositiveCount(Remainders(f, n))
  {
    hide Exact;
    ExactAdds(f, n);
    LeftOver(Floors(f, n), Remainders(f, n), n, Exact(Sum3(f), n));
  }

  /** Accepted fractions, well within the tolerance, whose floors exceed the prevhashes. */
  lemma TooManyFloors() returns (f: seq<real>, n: nat)
    ensures ValidFractions(f) && -TOLERANCE < Sum3(f) - 1.0 < TOLERANCE
    ensures n == 3_000_000_000 && Sum(Floors(f, n)) == n + 2
  {
    f, n := [0.5000000004, 0.5000000004, 0.0], 3_000_000_000;
    assert Exact(f[0], n) == 1500000001.2 && Exact(f[2], n) == 0.0;
  }

  /** Accepted fractions, well within the tolerance, with a zero fraction that gets a prevhash. */
  lemma ZeroGetsOne() returns (f: seq<real>, n: nat)
    ensures ValidFractions(f) && -TOLERANCE < Sum3(f) - 1.0 < TOLERANCE
    ensures n == 3_000_000_000 && f[2] == 0.0 && Rank(Remainders(f, n), 2) < Left(f, n)
  {
    f, n := [0.4999999996, 0.4999999996, 0.0], 3_000_000_000;
    assert Exact(f[0], n) == 1499999998.8 && Exact(f[2], n) == 0.0;
  }

  /** An empty partition with a positive fraction. */
  predicate Needy(f: seq<real>, c: seq<nat>, p: nat)
    requires |f| == 3 && |c| == 3 && p < 3
  {
    f[p] > 0.0 && c[p] == 0
  }

  /** How many of the first k partitions are needy. */
  function NeedyBelow(f: seq<real>, c: seq<nat>, k: nat): nat
    requires |f| == 3 && |c| == 3 && k <= 3
  {
    if k == 0 then 0 else NeedyBelow(f, c, k - 1) + if Needy(f, c, k - 1) then 1 else 0
  }

  predicate FirstLargest(c: seq<nat>, p: nat)
    requires |c| == 3 && p < 3
  {
    (forall i :: 0 <= i < 3 ==> c[i] <= c[p]) && forall i :: 0 <= i < p ==> c[i] < c[p]
  }

  /** What partition p has when the needy among the first k have been served: one for each of them, all of it
      from the first of the largest. */
  function Served(f: seq<real>, c: seq<nat>, k: nat, p: nat): int
    requires |f| == 3 && |c| == 3 && k <= 3 && p < 3
  {
    if Needy(f, c, p) then (if p < k then 1 else 0)
    else if FirstLargest(c, p) then c[p] - NeedyBelow(f, c, k)
    else c[p]
  }

  /** The repair: an empty partition with a positive fraction takes one from the largest. */
  method Repair(f: seq<real>, n: nat, counts: seq<nat>) returns (repaired: seq<nat>)
    requires ValidFractions(f) && |counts| == 3
    requires PositiveCount(f) > 0 && Sum(counts) >= n
    ensures |repaired| == 3 && Sum(repaired) == Sum(counts)
    ensures Roomy(f, counts) ==> forall p :: 0 <= p < 3 && f[p] == 0.0 ==> (repaired[p] == 0 <==> counts[p] == 0)
    ensures Roomy(f, counts) && n >= PositiveCount(f) ==> forall p :: 0 <= p < 3 && f[p] > 0.0 ==> repaired[p] > 0
    ensures n < PositiveCount(f) ==> repaired == counts
    ensures Roomy(f, counts) && n >= PositiveCount(f) ==>
      forall p :: 0 <= p < 3 ==> repaired[p] == Served(f, counts, 3, p)
  {
    hide Roomy, Served;
    repaired := counts;
    if n < PositiveCount(f) { return; }
    ghost var sound := Roomy(f, counts);
    NobodyServed(f, counts);
    for empty := 0 to 3
      invariant |repaired| == 3 && Sum(repaired) == Sum(counts)
      invariant sound ==> Roomy(f, repaired)
      invariant sound ==> forall p :: 0 <= p < 3 && f[p] == 0.0 ==> (repaired[p] == 0 <==> counts[p] == 0)
      invariant sound ==> forall p :: 0 <= p < empty && f[p] > 0.0 ==> repaired[p] > 0
      invariant sound ==> forall p :: 0 <= p < 3 ==> repaired[p] == Served(f, counts, empty, p)
    {
      if sound { FoundEmpty(f, counts, repaired, empty); }
      if f[empty] == 0.0 || repaired[empty] != 0 { continue; }
      var donor := ArgMaxNat(repaired);
      if sound {
        DonorIsRich(f, repaired, empty, donor);
        StillLargest(f, counts, repaired, empty, donor);
        ServeNext(f, counts, repaired, empty, donor);
      }
      repaired := repaired[donor := repaired[donor] - 1];
      repaired := repaired[empty := repaired[empty] + 1];
    }
  }

  lemma NobodyServed(f: seq<real>, c: seq<nat>)
    requires |f| == 3 && |c| == 3
    ensures forall p :: 0 <= p < 3 ==> Served(f, c, 0, p) == c[p]
  {}

  lemma NeedyFew(f: seq<real>, c: seq<nat>)
    requires |f| == 3 && |c| == 3
    ensures NeedyBelow(f, c, 0) == 0 && NeedyBelow(f, c, 1) == (if Needy(f, c, 0) then 1 else 0)
    ensures NeedyBelow(f, c, 2) == NeedyBelow(f, c, 1) + if Needy(f, c, 1) then 1 else 0
    ensures NeedyBelow(f, c, 3) == NeedyBelow(f, c, 2) + if Needy(f, c, 2) then 1 else 0
  {}

  /** The needy partitions are the ones the loop finds empty. */
  lemma FoundEmpty(f: seq<real>, c: seq<nat>, now: seq<nat>, empty: nat)
    requires ValidFractions(f) && |c| == 3 && |now| == 3 && empty < 3
    requires Sum(c) >= PositiveCount(f) && Roomy(f, c)
    requires forall p :: 0 <= p < 3 ==> now[p] == Served(f, c, empty, p)
    ensures f[empty] > 0.0 && now[empty] == 0 <==> Needy(f, c, empty)
    ensures !Needy(f, c, empty) ==> forall p :: 0 <= p < 3 ==> now[p] == Served(f, c, empty + 1, p)
  {
    NeedyFew(f, c);
  }

  /** The first of the largest by then is the first of the largest of the start. */
  lemma StillLargest(f: seq<real>, c: seq<nat>, now: seq<nat>, empty: nat, donor: nat)
    requires ValidFractions(f) && |c| == 3 && |now| == 3 && empty < 3 && donor < 3
    requires Sum(c) >= PositiveCount(f) && Roomy(f, c) && Needy(f, c, empty)
    requires forall p :: 0 <= p < 3 ==> now[p] == Served(f, c, empty, p)
    requires FirstLargest(now, donor)
    ensures FirstLargest(c, donor)
  {
    NeedyFew(f, c);
    assert now[0] == Served(f, c, empty, 0) && now[1] == Served(f, c, empty, 1) && now[2] == Served(f, c, empty, 2);
  }

  lemma ServeNext(f: seq<real>, c: seq<nat>, now: seq<nat>, empty: nat, donor: nat)
    requires ValidFractions(f) && |c| == 3 && |now| == 3 && empty < 3 && donor < 3
    requires Needy(f, c, empty) && FirstLargest(c, donor) && c[donor] > 0 && now[donor] > 0
    requires forall p :: 0 <= p < 3 ==> now[p] == Served(f, c, empty, p)
    ensures var t := now[donor := now[donor] - 1][empty := 1];
      forall p :: 0 <= p < 3 ==> t[p] == Served(f, c, empty + 1, p)
  {
    NeedyFew(f, c);
  }

  /** Zero fractions have nothing, or there are more prevhashes than partitions. */
  predicate Roomy(f: seq<real>, counts: seq<nat>)
    requires |f| == 3 && |counts| == 3
  {
    Sum(counts) > 3 || forall p :: 0 <= p < 3 && f[p] == 0.0 ==> counts[p] == 0
  }

  /** The donor never becomes empty. */
  lemma DonorIsRich(f: seq<real>, c: seq<nat>, empty: nat, donor: nat)
    requires ValidFractions(f) && |c| == 3 && empty < 3 && donor < 3
    requires f[empty] > 0.0 && c[empty] == 0 && Sum(c) >= PositiveCount(f) && Roomy(f, c)
    requires forall i :: 0 <= i < 3 ==> c[i] <= c[donor]
    ensures c[donor] >= 2 && donor != empty
    ensures Roomy(f, c[donor := c[donor] - 1][empty := 1])
  {}

  datatype Partitions = BadFractions | Partitioned(counts: seq<nat>)

  /** The partition sizes of a plan, for all accepted fractions. They add up to the prevhashes exactly
      when the floors do not exceed them, and with enough prevhashes no positive fraction goes empty. A
      zero fraction gets none exactly when no more is left over than there are partitions before it. Each
      size is the apportioned one, served by the repair. */
  method PartitionSizes(f: seq<real>, n: nat) returns (r: Partitions)
    requires |f| == 3 && n > 0
    ensures r.BadFractions? <==> !ValidFractions(f) || Sum3(f) - 1.0 > TOLERANCE || 1.0 - Sum3(f) > TOLERANCE
    ensures r.Partitioned? ==> |r.counts| == 3 && (Sum(r.counts) == n <==> Sum(Floors(f, n)) <= n)
    ensures r.Partitioned? ==>
      forall p :: 0 <= p < 3 && f[p] == 0.0 ==> (r.counts[p] == 0 <==> Left(f, n) <= Rank(Remainders(f, n), p))
    ensures r.Partitioned? && n >= PositiveCount(f) ==> forall p :: 0 <= p < 3 && f[p] > 0.0 ==> r.counts[p] > 0
    ensures r.Partitioned? && CloseEnough(f, n) ==>
      Sum(r.counts) == n && forall p :: 0 <= p < 3 && f[p] == 0.0 ==> r.counts[p] == 0
    ensures r.Partitioned? ==> var c := ApportionedSizes(f, n);
      forall p :: 0 <= p < 3 ==> r.counts[p] == if n < PositiveCount(f) then c[p] else Served(f, c, 3, p)
  {
    hide Exact, Floors, Remainders, Rank, PositiveCount, Served, Apportioned;
    if !(0.0 <= f[0] <= 1.0) || !(0.0 <= f[1] <= 1.0) || !(0.0 <= f[2] <= 1.0) { return BadFractions; }
    if Sum3(f) - 1.0 > TOLERANCE || 1.0 - Sum3(f) > TOLERANCE { return BadFractions; }
    var counts := Apportion(f, n);
    assert counts == ApportionedSizes(f, n);
    WhenApportioned(f, n, counts);
    AcceptedIsRoomy(f, n, counts);
    var repaired := Repair(f, n, counts);
    r := Partitioned(repaired);
  }

  /** With few prevhashes accepted fractions are close to one; with many there is room. */
  lemma AcceptedIsRoomy(f: seq<real>, n: nat, counts: seq<nat>)
    requires ValidFractions(f) && -TOLERANCE <= Sum3(f) - 1.0 <= TOLERANCE && |counts| == 3
    requires Sum(counts) == Sum(Floors(f, n)) + Left(f, n)
    requires forall p :: 0 <= p < 3 && f[p] == 0.0 ==> (counts[p] == 0 <==> Left(f, n) <= Rank(Remainders(f, n), p))
    ensures Roomy(f, counts) && PositiveCount(f) > 0
    ensures CloseEnough(f, n) ==>
      Sum(Floors(f, n)) <= n && forall p :: 0 <= p < 3 && f[p] == 0.0 ==> counts[p] == 0
  {
    hide Exact, Floors, Remainders, Rank;
    ToleratedIsClose(f, n);
    if CloseEnough(f, n) {
      CloseLeaves(f, n);
      PositiveFirst(Remainders(f, n), Left(f, n));
      forall p | 0 <= p < 3 && f[p] == 0.0
        ensures Remainders(f, n)[p] == 0.0
      {
        ZeroLeavesNothing(f, n, p);
      }
    }
  }

  lemma ZeroLeavesNothing(f: seq<real>, n: nat, p: nat)
    requires ValidFractions(f) && p < 3 && f[p] == 0.0
    ensures Remainders(f, n)[p] == 0.0
  {
    hide Exact;
    FloorParts(f[p], n);
  }

  /** Fractions that sum to one are always close enough, and fractions within the accepted tolerance
      are for fewer than 10^9 prevhashes. */
  lemma ToleratedIsClose(f: seq<real>, n: nat)
    requires |f| == 3 && -TOLERANCE <= Sum3(f) - 1.0 <= TOLERANCE
    ensures Sum3(f) == 1.0 || n < 1_000_000_000 ==> CloseEnough(f, n)
  {
    var s, x := Sum3(f), n as real;
    Offset(s, x);
    assert Exact(s, n) - x == (s - 1.0) * x;
    if n < 1_000_000_000 {
      SmallProduct(s - 1.0, x);
    } else if s == 1.0 {
      assert (s - 1.0) * x == 0.0 * x == 0.0;
    }
  }

  lemma Offset(s: real, x: real)
    ensures s * x - x == (s - 1.0) * x
  {}

  lemma SmallProduct(d: real, x: real)
    requires -TOLERANCE <= d <= TOLERANCE && 0.0 <= x < 1000000000.0
    ensures -1.0 < d * x < 1.0
  {
    Monotone(d, TOLERANCE, x);
    Monotone(-TOLERANCE, d, x);
  }

  lemma Monotone(a: real, b: real, x: real)
    requires a <= b && 0.0 <= x
    ensures a * x <= b * x
  {}

  // ----- the whole selection -----

  /** The d-th pick of a prevhash comes from its d-th stratum, of as many strata as it has picks. */
  predicate FromStratum(sizes: seq<nat>, selected: seq<Pick>, k: nat)
    requires k < |selected|
  {
    var g := selected[k].prevhash;
    var d, count := CountOf(selected[..k], g), CountOf(selected, g);
    && g < |sizes| && d < count <= sizes[g]
    && StratumStart(d, sizes[g], count) <= selected[k].index < StratumStart(d + 1, sizes[g], count)
  }

  /** Quotas, strata and selection together: as many contexts as wanted and available, pairwise distinct, each
      from its stratum, and shared out in turns wherever the selection is cut. */
  method SelectContexts(sizes: seq<nat>, requested: nat) returns (selected: seq<Pick>)
    ensures |selected| == Min(requested, Total(sizes)) && Distinct(selected)
    ensures forall i :: 0 <= i < |selected| ==>
      selected[i].prevhash < |sizes| && selected[i].index < sizes[selected[i].prevhash]
    ensures InTurns(sizes, selected)
    ensures forall k :: 0 <= k < |selected| ==> FromStratum(sizes, selected, k)
  {
    hide Total, Ascending, IsTurn, NextOf, CountOf, StratumStart;
    var quotas := Quotas(sizes, requested);
    QuotasFit(sizes, quotas);
    var reps: seq<seq<nat>> := [];
    for g := 0 to |sizes|
      invariant |reps| == g && forall h :: 0 <= h < g ==> Picked(sizes[h], quotas[h], reps[h])
    {
      var chosen := PickStrata(sizes[g], quotas[g]);
      reps := reps + [chosen];
    }
    assert Lengths(reps) == quotas;
    selected := Select(reps, Total(quotas));
    FairlyCut(sizes, quotas, selected);
    forall k | 0 <= k < |selected|
      ensures FromStratum(sizes, selected, k) && selected[k].index < sizes[selected[k].prevhash]
    {
      InStratum(sizes, reps, selected, k);
    }
  }

  predicate Picked(size: nat, count: nat, chosen: seq<nat>) {
    && count == |chosen| <= size && Ascending(chosen)
    && (forall i :: 0 <= i < count ==> chosen[i] < size)
    && forall i :: 0 <= i < count ==>
      StratumStart(i, size, count) <= chosen[i] < StratumStart(i + 1, size, count)
  }

  lemma InStratum(sizes: seq<nat>, reps: seq<seq<nat>>, selected: seq<Pick>, k: nat)
    requires k < |selected| && |reps| == |sizes| && NextOf(reps, selected, k)
    requires Counts(selected, |reps|) == Lengths(reps)
    requires forall h :: 0 <= h < |sizes| ==> Picked(sizes[h], |reps[h]|, reps[h])
    ensures FromStratum(sizes, selected, k) && selected[k].index < sizes[selected[k].prevhash]
  {
    hide CountOf, StratumStart;
    var g := selected[k].prevhash;
    assert Picked(sizes[g], |reps[g]|, reps[g]) && Counts(selected, |reps|)[g] == |reps[g]|;
  }

  /** Turns over what was handed out in turns are turns over what there is. */
  lemma FairlyCut(sizes: seq<nat>, quotas: seq<nat>, selected: seq<Pick>)
    requires |quotas| == |sizes| && IsTurn(sizes, quotas) && InTurns(quotas, selected)
    ensures InTurns(sizes, selected)
  {
    hide CountOf, IsTurn;
    forall k | 0 <= k <= |selected| ensures IsTurn(sizes, Counts(selected[..k], |sizes|)) {
      assert IsTurn(quotas, Counts(selected[..k], |quotas|));
      TurnsOfTurns(sizes, quotas, Counts(selected[..k], |sizes|));
    }
  }

  lemma TurnsOfTurns(sizes: seq<nat>, quotas: seq<nat>, shares: seq<nat>)
    requires IsTurn(sizes, quotas) && IsTurn(quotas, shares)
    ensures IsTurn(sizes, shares)
  {
    var r: nat, c: nat :| c <= |sizes| && quotas == Shares(sizes, r, c);
    var r': nat, c': nat :| c' <= |sizes| && shares == Shares(quotas, r', c');
    if r < r' || (r == r' && c <= c') {
      assert shares == Shares(sizes, r, c);
    } else {
      assert shares == Shares(sizes, r', c');
    }
  }

  lemma QuotasFit(sizes: seq<nat>, quotas: seq<nat>)
    requires IsTurn(sizes, quotas)
    ensures |quotas| == |sizes| && forall i :: 0 <= i < |sizes| ==> quotas[i] <= sizes[i]
  {}

  // ----- blocks -----

  /** The request a plan follows: the first of the three that is made. */
  datatype Budget = Blocks(total: nat) | Minutes(minutes: real) | PerContext(blocks: nat) | NoBudget

  datatype Sizing = Sized(total: nat) | NoRequest | NothingToDo | Overflow

  /** How many whole nonce spaces fit into the time. */
  function Fitting(minutes: real, hashesPerSecond: real): nat
    requires minutes >= 0.0 && hashesPerSecond > 0.0
  {
    RealProduct(minutes, 60.0);
    RealProduct(minutes * 60.0, hashesPerSecond);
    (minutes * 60.0 * hashesPerSecond / BASE as real).Floor
  }

  /** What the budget asks for, before any check. */
  function Wanted(budget: Budget, selected: nat, hashesPerSecond: real): nat
    requires budget.Minutes? ==> budget.minutes >= 0.0 && hashesPerSecond > 0.0
  {
    match budget
    case Blocks(total) => total
    case Minutes(minutes) => if Fitting(minutes, hashesPerSecond) == 0 then 1 else Fitting(minutes, hashesPerSecond)
    case PerContext(blocks) => blocks * selected
    case NoBudget => 0
  }

  /** The total number of blocks: what the budget asks for, refused exactly when there is no request, nothing
      to do, or more hashes than 64 bits can count. */
  method TotalBlocks(budget: Budget, selected: nat, hashesPerSecond: real) returns (r: Sizing)
    requires selected > 0 && (budget.Minutes? ==> budget.minutes >= 0.0 && hashesPerSecond > 0.0)
    ensures r == NoRequest <==> budget.NoBudget?
    ensures r == NothingToDo <==> !budget.NoBudget? && Wanted(budget, selected, hashesPerSecond) == 0
    ensures r == Overflow <==> Wanted(budget, selected, hashesPerSecond) * BASE >= U64
    ensures r.Sized? ==> r.total == Wanted(budget, selected, hashesPerSecond)
  {
    var total := 0;
    match budget {
      case Blocks(n) => total := n;
      case Minutes(minutes) =>
        total := Fitting(minutes, hashesPerSecond);
        if total < 1 { total := 1; }
      case PerContext(blocks) =>
        if blocks > (U64 - 1) / selected {
          ProductOverflows(blocks, selected);
          return Overflow;
        }
        total := blocks * selected;
      case NoBudget => return NoRequest;
    }
    if total == 0 { return NothingToDo; }
    if total > (U64 - 1) / BASE { return Overflow; }
    r := Sized(total);
  }

  lemma ProductOverflows(blocks: nat, selected: nat)
    requires selected > 0 && blocks > (U64 - 1) / selected
    ensures blocks * selected >= U64 && blocks * selected * BASE >= U64
  {
    var q := (U64 - 1) / selected;
    assert U64 - 1 < (q + 1) * selected;
    MulMono(q + 1, blocks, selected);
  }

  /** A time budget is used up to less than one more nonce space, unless it is too small for any. */
  lemma TimeIsUsed(minutes: real, hashesPerSecond: real)
    requires minutes >= 0.0 && hashesPerSecond > 0.0
    ensures var n, hashes := Fitting(minutes, hashesPerSecond), minutes * 60.0 * hashesPerSecond;
      n as real * BASE as real <= hashes < (n + 1) as real * BASE as real
  {
    var hashes := minutes * 60.0 * hashesPerSecond;
    assert hashes / BASE as real * BASE as real == hashes;
  }

  /** The blocks of the selected contexts: exactly the total, in equal parts with the remainder on the first ones,
      and at least one each, since the selection is cut to the total. */
  method BlockCounts(selected: nat, total: nat) returns (counts: seq<nat>)
    requires selected > 0 && total > 0
    ensures counts == Parts(total, Min(selected, total)) && Total(counts) == total
    ensures forall i, j :: 0 <= i < |counts| && 0 <= j < |counts| ==> 1 <= counts[i] <= counts[j] + 1
  {
    hide Total;
    var n := if total < selected then total else selected;
    var base := total / n;
    var remainder := total % n;
    counts := [];
    for i := 0 to n
      invariant counts == Parts(total, n)[..i]
    {
      counts := counts + [base + (if i < remainder then 1 else 0)];
    }
    assert Parts(total, n)[..n] == Parts(total, n);
    PartsExact(total, n);
    AtLeastOneEach(total, n);
  }
}
