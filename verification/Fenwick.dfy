// The Fenwick tree inside kendall_tau_b (src/research/context_phase2.cpp): counts of inserted
// positions, with both loops stepping by the lowest set bit.
module Fenwick {
  import opened Arith

  /** The lowest set bit; the program computes it as pos & (~pos + 1). */
  function LowBit(p: nat): (b: nat)
    requires p > 0
    ensures 1 <= b <= p
  {
    if p % 2 == 1 then 1 else 2 * LowBit(p / 2)
  }

  /** Adding the lowest bit at least doubles it. */
  lemma {:induction false} LowBitDoubles(p: nat)
    requires p > 0
    ensures LowBit(p + LowBit(p)) >= 2 * LowBit(p)
  {
    if p % 2 == 0 {
      LowBitDoubles(p / 2);
      assert (p + LowBit(p)) / 2 == p / 2 + LowBit(p / 2);
    }
  }

  /** Between p and p + lowbit(p), every block starts at or after p. */
  lemma {:induction false} LowBitBetween(p: nat, r: nat)
    requires 0 < p < r < p + LowBit(p)
    ensures LowBit(r) <= r - p
    decreases r
  {
    if r % 2 == 0 {
      LowBitBetween(p / 2, r / 2);
    }
  }

  // ----- the bit trick -----

  /** Bitwise and of two naturals. */
  function And(x: nat, y: nat): nat {
    if x == 0 || y == 0 then 0 else 2 * And(x / 2, y / 2) + (x % 2) * (y % 2)
  }

  /** ~x + 1 in words of `width` bits; it wraps for zero. */
  function Negated(x: nat, width: nat): nat
    requires x < Pow(2, width)
  {
    if x == 0 then 0 else Complement(x, width) + 1
  }

  function Complement(x: nat, width: nat): nat
    requires x < Pow(2, width)
  {
    Pow(2, width) - 1 - x
  }

  /** A word and its complement share no bit. */
  lemma {:induction false} NothingShared(x: nat, width: nat)
    requires x < Pow(2, width)
    ensures And(x, Complement(x, width)) == 0
  {
    if width > 0 {
      NothingShared(x / 2, width - 1);
      assert Complement(x, width) / 2 == Complement(x / 2, width - 1);
    }
  }

  /** In unsigned words of any width, pos & (~pos + 1) is the lowest set bit. */
  lemma {:induction false} BitTrick(pos: nat, width: nat)
    requires 0 < pos < Pow(2, width)
    ensures And(pos, Negated(pos, width)) == LowBit(pos)
  {
    hide Pow;
    PowZero(2);
    PowNext(2, width - 1);
    var q, n := Pow(2, width - 1), Negated(pos, width);
    assert n == 2 * q - pos;
    AndHalves(pos, n);
    if pos % 2 == 1 {
      NothingShared(pos / 2, width - 1);
      assert n / 2 == Complement(pos / 2, width - 1) && n % 2 == 1;
    } else {
      BitTrick(pos / 2, width - 1);
      assert n / 2 == Negated(pos / 2, width - 1);
    }
  }

  lemma AndHalves(x: nat, y: nat)
    requires x > 0 && y > 0
    ensures And(x, y) == 2 * And(x / 2, y / 2) + (x % 2) * (y % 2)
  {}

  lemma OwnBlock(p: nat)
    requires p > 0
    ensures p - LowBit(p) <= p - 1
  {}

  /** How many of the inserted positions lie in [lo, hi). */
  function CountIn(s: seq<nat>, lo: nat, hi: nat): nat {
    if s == [] then 0
    else CountIn(s[..|s| - 1], lo, hi) + if lo <= s[|s| - 1] < hi then 1 else 0
  }

  lemma {:induction false} CountSplits(s: seq<nat>, lo: nat, mid: nat, hi: nat)
    requires lo <= mid <= hi
    ensures CountIn(s, lo, hi) == CountIn(s, lo, mid) + CountIn(s, mid, hi)
  {
    if s != [] { CountSplits(s[..|s| - 1], lo, mid, hi); }
  }

  lemma {:induction false} CountEmpty(s: seq<nat>, lo: nat)
    ensures CountIn(s, lo, lo) == 0
  {
    if s != [] { CountEmpty(s[..|s| - 1], lo); }
  }

  lemma CountSnoc(s: seq<nat>, q: nat, lo: nat, hi: nat)
    ensures CountIn(s + [q], lo, hi) == CountIn(s, lo, hi) + if lo <= q < hi then 1 else 0
  {
    assert (s + [q])[..|s + [q]| - 1] == s;
  }

  class Tree {
    var nodes: array<nat>
    ghost var added: seq<nat>

    /** Node p counts the insertions in its block [p - lowbit(p), p). */
    ghost predicate Valid()
      reads this, nodes
    {
      && nodes.Length > 0
      && forall p {:trigger nodes[p]} :: 0 < p < nodes.Length ==> nodes[p] == CountIn(added, p - LowBit(p), p)
    }

    constructor (size: nat)
      ensures Valid() && fresh(nodes) && nodes.Length == size + 1 && added == []
    {
      nodes := new nat[size + 1](i => 0);
      added := [];
    }

    method Add(pos: nat)
      requires Valid() && pos + 1 < nodes.Length
      modifies this`added, nodes
      ensures Valid() && nodes == old(nodes) && added == old(added) + [pos]
    {
      hide LowBit, CountIn;
      var p := pos + 1;
      OwnBlock(p);
      while p < nodes.Length
        invariant pos < p && p - LowBit(p) <= pos && added == old(added)
        invariant forall r {:trigger nodes[r]} :: 0 < r < nodes.Length ==>
          nodes[r] == CountIn(added, r - LowBit(r), r) + if r < p && r - LowBit(r) <= pos < r then 1 else 0
        decreases nodes.Length - p
      {
        nodes[p] := nodes[p] + 1;
        LowBitDoubles(p);
        forall r: nat | p < r < p + LowBit(p) ensures r - LowBit(r) >= p { LowBitBetween(p, r); }
        p := p + LowBit(p);
      }
      forall r | 0 < r < nodes.Length ensures nodes[r] == CountIn(added + [pos], r - LowBit(r), r) {
        CountSnoc(added, pos, r - LowBit(r), r);
      }
      added := added + [pos];
    }

    /** The number of insertions below pos. */
    method Sum(pos: nat) returns (result: nat)
      requires Valid() && pos < nodes.Length
      ensures result == CountIn(added, 0, pos)
    {
      result := 0;
      var p := pos;
      while p > 0
        invariant 0 <= p <= pos
        invariant result + CountIn(added, 0, p) == CountIn(added, 0, pos)
      {
        CountSplits(added, 0, p - LowBit(p), p);
        result := result + nodes[p];
        p := p - LowBit(p);
      }
      CountEmpty(added, 0);
    }
  }
}
