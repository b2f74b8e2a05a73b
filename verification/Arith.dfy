// Powers and nested division, shared by the integer models of the project.
module Arith {

  /** The number of 32-bit words. */
  const BASE: nat := 0x1_0000_0000

  /** The number of 64-bit words. */
  const U64: nat := 0x1_0000_0000_0000_0000

  function Min(x: nat, y: nat): nat { if x <= y then x else y }

  /** What std::sqrt is over the reals. */
  ghost predicate IsRoot(root: real -> real) {
    forall v :: v >= 0.0 ==> root(v) >= 0.0 && root(v) * root(v) == v
  }

  function Pow(base: nat, n: nat): (p: nat)
    ensures base > 0 ==> p > 0
  {
    if n == 0 then 1 else base * Pow(base, n - 1)
  }

  lemma PowZero(base: nat)
    ensures Pow(base, 0) == 1
  {}

  lemma PowNext(base: nat, n: nat)
    ensures Pow(base, n + 1) == base * Pow(base, n)
  {}

  lemma {:induction false} PowPositive(base: nat, n: nat)
    requires base > 0
    ensures Pow(base, n) > 0
  {
    if n > 0 { PowPositive(base, n - 1); }
  }

  lemma {:induction false} PowAdd(base: nat, a: nat, b: nat)
    ensures Pow(base, a + b) == Pow(base, a) * Pow(base, b)
  {
    if a == 0 {
    } else {
      PowAdd(base, a - 1, b);
      assert Pow(base, a + b) == base * (Pow(base, a - 1) * Pow(base, b));
      assert base * (Pow(base, a - 1) * Pow(base, b)) == (base * Pow(base, a - 1)) * Pow(base, b) by {
        MulAssoc(base, Pow(base, a - 1), Pow(base, b));
      }
    }
  }

  lemma MulAssoc(x: int, y: int, z: int)
    ensures x * (y * z) == (x * y) * z
  {}

  lemma MulMono(x: int, y: int, k: int)
    requires x <= y && 0 <= k
    ensures x * k <= y * k
  {}

  lemma PowGrows(a: nat, b: nat)
    requires a <= b
    ensures Pow(2, a) <= Pow(2, b)
  {
    PowAdd(2, a, b - a);
    MulMono(1, Pow(2, b - a), Pow(2, a));
  }

  /** The quotient is the only integer whose multiple of d brackets n. */
  lemma DivUnique(n: int, d: int, q: int)
    requires d > 0
    requires q * d <= n < (q + 1) * d
    ensures n / d == q
  {
    var r := n / d;
    assert r * d <= n < (r + 1) * d;
    if r < q { MulMono(r + 1, q, d); assert false; }
    if q < r { MulMono(q + 1, r, d); assert false; }
  }

  /** Dividing twice is dividing once by the product. */
  lemma DivDiv(n: nat, a: nat, b: nat)
    requires a > 0 && b > 0
    ensures a * b > 0
    ensures (n / a) / b == n / (a * b)
  {
    var m := n / a;
    var q := m / b;
    Bracket(m, b);
    Bracket(n, a);
    MulMono(q * b, m, a);
    MulMono(m + 1, (q + 1) * b, a);
    Regroup(q, a, b);
    Regroup(q + 1, a, b);
    DivUnique(n, a * b, q);
  }

  lemma Bracket(n: int, d: int)
    requires d > 0
    ensures n / d * d <= n < (n / d + 1) * d
  {}

  lemma Regroup(q: int, a: nat, b: nat)
    requires a > 0 && b > 0
    ensures (q * b) * a == q * (a * b) && a * b > 0
  {
    assert b * a == a * b;
    MulAssoc(q, b, a);
  }

  lemma DivAtLeast(n: int, d: int, k: int)
    requires d > 0 && k * d <= n
    ensures n / d >= k
  {
    var q := n / d;
    assert q * d <= n < (q + 1) * d;
    if q < k { MulMono(q + 1, k, d); assert false; }
  }

  lemma CancelLe(x: int, y: int, d: int)
    requires d > 0 && x * d <= y * d
    ensures x <= y
  {
    if y < x { MulMono(y + 1, x, d); MulDistributes(y, 1, d); assert false; }
  }

  lemma MulDistributes(x: int, y: int, z: int)
    ensures (x + y) * z == x * z + y * z && z * (x + y) == z * x + z * y
  {}

  lemma DivAddMultiple(a: int, k: int, m: int)
    requires m > 0
    ensures (a + k * m) / m == a / m + k && (a + k * m) % m == a % m
  {
    var q, r := a / m, a % m;
    assert a == q * m + r;
    MulDistributes(q, k, m);
    assert (q + k) * m + r == a + k * m;
    MulDistributes(q + k, 1, m);
    DivUnique(a + k * m, m, q + k);
    var n := a + k * m;
    assert n == (n / m) * m + n % m;
  }

  lemma DivisionIs(n: int, d: int, q: int, r: int)
    requires d > 0 && n == q * d + r && 0 <= r < d
    ensures n / d == q && n % d == r
  {
    MulDistributes(q, 1, d);
    DivUnique(n, d, q);
    assert n == (n / d) * d + n % d;
  }
}
