// Sharing things out one at a time, in turns and in equal parts: the loops both planners use
// (src/research/context_campaign.cpp, src/research/context_trajectory.cpp).
module RoundRobin {
  import opened Arith

  function Total(s: seq<nat>): nat {
    if s == [] then 0 else Total(s[..|s| - 1]) + s[|s| - 1]
  }

  lemma TotalSnoc(s: seq<nat>, x: nat)
    ensures Total(s + [x]) == Total(s) + x
  {
    assert (s + [x])[..|s|] == s;
  }

  /** Adding one to an entry adds one to the total. */
  lemma {:induction false} TotalUpdate(s: seq<nat>, i: nat, x: nat)
    requires i < |s|
    ensures Total(s[i := s[i] + x]) == Total(s) + x
  {
    var t := s[i := s[i] + x];
    if i == |s| - 1 {
      assert t[..|s| - 1] == s[..|s| - 1];
    } else {
      TotalUpdate(s[..|s| - 1], i, x);
      assert t[..|s| - 1] == s[..|s| - 1][i := s[i] + x];
    }
  }

  lemma {:induction false} SmallerTotal(s: seq<nat>, t: seq<nat>)
    requires |s| == |t| && forall i :: 0 <= i < |s| ==> s[i] <= t[i]
    ensures Total(s) <= Total(t)
  {
    if s != [] { SmallerTotal(s[..|s| - 1], t[..|t| - 1]); }
  }

  // ----- taking turns -----

  /** What each party holds after `rounds` full turns and a turn of the first `cut` parties, nobody
      taking more than there is. */
  function Share(sizes: seq<nat>, rounds: nat, cut: nat, i: nat): nat
    requires i < |sizes|
  {
    Min(sizes[i], if i < cut then rounds + 1 else rounds)
  }

  function Shares(sizes: seq<nat>, rounds: nat, cut: nat): (s: seq<nat>)
    ensures |s| == |sizes| && forall i :: 0 <= i < |s| ==> s[i] == Share(sizes, rounds, cut, i)
  {
    seq(|sizes|, i requires 0 <= i < |sizes| => Share(sizes, rounds, cut, i))
  }

  /** The shares are those of some point of the turns. */
  ghost predicate IsTurn(sizes: seq<nat>, shares: seq<nat>) {
    exists rounds: nat, cut: nat :: cut <= |sizes| && shares == Shares(sizes, rounds, cut)
  }

  lemma TurnStep(sizes: seq<nat>, rounds: nat, i: nat)
    requires i < |sizes|
    ensures Shares(sizes, rounds, i + 1) ==
      if rounds < sizes[i] then Shares(sizes, rounds, i)[i := Shares(sizes, rounds, i)[i] + 1]
        else Shares(sizes, rounds, i)
  {}

  lemma NextRound(sizes: seq<nat>, rounds: nat)
    ensures Shares(sizes, rounds, |sizes|) == Shares(sizes, rounds + 1, 0)
  {}

  lemma {:induction false} NoShares(sizes: seq<nat>)
    ensures Total(Shares(sizes, 0, 0)) == 0
  {
    if sizes != [] {
      NoShares(sizes[..|sizes| - 1]);
      assert Shares(sizes, 0, 0)[..|sizes| - 1] == Shares(sizes[..|sizes| - 1], 0, 0);
    }
  }

  /** When nobody can take another, everything is shared out. */
  lemma AllShared(sizes: seq<nat>, rounds: nat)
    requires forall i :: 0 <= i < |sizes| ==> sizes[i] <= rounds
    ensures Shares(sizes, rounds, 0) == sizes
  {}

  /** Two parties differ by more than one only when the poorer one has run out. */
  lemma TurnsAreFair(sizes: seq<nat>, rounds: nat, cut: nat, i: nat, j: nat)
    requires i < |sizes| && j < |sizes|
    ensures Share(sizes, rounds, cut, i) <= sizes[i]
    ensures Share(sizes, rounds, cut, i) < Share(sizes, rounds, cut, j) - 1 ==> Share(sizes, rounds, cut, i) == sizes[i]
  {}

  // ----- equal parts -----

  /** Part i of n parts of a total: the remainder goes to the first ones. */
  function Part(total: nat, n: nat, i: nat): nat
    requires n > 0
  {
    total / n + (if i < total % n then 1 else 0)
  }

  function Parts(total: nat, n: nat): (s: seq<nat>)
    requires n > 0
    ensures |s| == n && forall i :: 0 <= i < n ==> s[i] == Part(total, n, i)
  {
    seq(n, i requires 0 <= i < n => Part(total, n, i))
  }

  /** The first k parts. */
  lemma {:induction false} FirstParts(total: nat, n: nat, k: nat)
    requires n > 0 && k <= n
    ensures Total(Parts(total, n)[..k]) == k * (total / n) + Min(k, total % n)
  {
    hide Part;
    var p := Parts(total, n);
    if k > 0 {
      FirstParts(total, n, k - 1);
      assert p[..k][..k - 1] == p[..k - 1];
      PartOf(total, n, k - 1);
      MulDistributes(k - 1, 1, total / n);
    }
  }

  lemma PartOf(total: nat, n: nat, i: nat)
    requires n > 0
    ensures Part(total, n, i) == total / n + (if i < total % n then 1 else 0)
  {}

  /** The parts add up to the total and differ by at most one. */
  lemma PartsExact(total: nat, n: nat)
    requires n > 0
    ensures Total(Parts(total, n)) == total
    ensures forall i, j :: 0 <= i < n && 0 <= j < n ==> Parts(total, n)[i] <= Parts(total, n)[j] + 1
  {
    FirstParts(total, n, n);
    assert Parts(total, n)[..n] == Parts(total, n);
    assert total == n * (total / n) + total % n;
  }

  /** Handing out one at a time to i % n gives the same parts. */
  lemma NextPart(k: nat, n: nat)
    requires n > 0
    ensures Parts(k + 1, n) == Parts(k, n)[k % n := Parts(k, n)[k % n] + 1]
  {
    var q, r := k / n, k % n;
    assert k == q * n + r;
    if r + 1 < n {
      DivisionIs(k + 1, n, q, r + 1);
    } else {
      MulDistributes(q, 1, n);
      DivisionIs(k + 1, n, q + 1, 0);
    }
  }

  lemma NoParts(n: nat)
    requires n > 0
    ensures Parts(0, n) == seq(n, i => 0)
  {
    DivisionIs(0, n, 0, 0);
  }

  /** The quota loop of the trajectory planner. */
  method QuotasByTurn(count: nat, groups: nat) returns (quotas: seq<nat>)
    requires groups > 0
    ensures quotas == Parts(count, groups)
  {
    hide Part;
    quotas := seq(groups, i => 0);
    NoParts(groups);
    for i := 0 to count
      invariant quotas == Parts(i, groups)
    {
      NextPart(i, groups);
      quotas := quotas[i % groups := quotas[i % groups] + 1];
    }
  }

  datatype Interval = Interval(start: nat, count: nat)

  /** partition_cpu_nonce_range: contiguous intervals whose sizes are the parts; the final coverage
      check of the code can never fail. */
  method PartitionRange(count: nat, threads: nat) returns (ok: bool, intervals: seq<Interval>)
    ensures ok <==> 1 <= threads <= count <= BASE
    ensures ok ==> |intervals| == threads && forall i :: 0 <= i < threads ==>
      intervals[i].count == Parts(count, threads)[i] && intervals[i].start == Total(Parts(count, threads)[..i])
    ensures ok ==> Total(Parts(count, threads)) == count && forall i :: 0 <= i < threads ==> intervals[i].count > 0
  {
    hide Total;
    intervals := [];
    if threads < 1 || !(0 < count <= BASE) || threads > count { return false, intervals; }
    var base := count / threads;
    var remainder := count % threads;
    var cursor := 0;
    ghost var parts := Parts(count, threads);
    NoTotal(parts);
    AtLeastOneEach(count, threads);
    for thread := 0 to threads
      invariant |intervals| == thread && cursor == Total(parts[..thread])
      invariant forall i :: 0 <= i < thread ==>
        intervals[i].count == parts[i] && intervals[i].start == Total(parts[..i])
    {
      var size := base + (if thread < remainder then 1 else 0);
      intervals := intervals + [Interval(cursor, size)];
      TotalSnoc(parts[..thread], parts[thread]);
      assert parts[..thread + 1] == parts[..thread] + [parts[thread]];
      cursor := cursor + size;
    }
    PartsExact(count, threads);
    assert parts[..threads] == parts;
    if cursor != count { return false, intervals; }
    ok := true;
  }

  lemma NoTotal(s: seq<nat>)
    ensures Total(s[..0]) == 0
  {}

  lemma AtLeastOneEach(total: nat, n: nat)
    requires 0 < n <= total
    ensures total / n >= 1
  {
    DivAtLeast(total, n, 1);
  }
}
