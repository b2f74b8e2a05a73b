// Where the constants of SHA-256 come from (sections 4.2.2 and 5.3.3 of FIPS 180-4): the first 32 bits of
// the fractional parts of the cube roots of the first 64 primes and of the square roots of the first eight
// (src/crypto/sha256.cpp).
module Sha256Constants {
  import opened Arith
  import opened Sha256

  // ----- the first 64 primes -----

  ghost predicate IsPrime(n: nat) { n >= 2 && forall d: nat :: 2 <= d < n ==> n % d != 0 }

  function Prime(t: nat): nat
    requires t < 64
  {
    match t
    case 0 => 2 case 1 => 3 case 2 => 5 case 3 => 7 case 4 => 11 case 5 => 13 case 6 => 17 case 7 => 19
    case 8 => 23 case 9 => 29 case 10 => 31 case 11 => 37 case 12 => 41 case 13 => 43 case 14 => 47 case 15 => 53
    case 16 => 59 case 17 => 61 case 18 => 67 case 19 => 71 case 20 => 73 case 21 => 79 case 22 => 83 case 23 => 89
    case 24 => 97 case 25 => 101 case 26 => 103 case 27 => 107
    case 28 => 109 case 29 => 113 case 30 => 127 case 31 => 131
    case 32 => 137 case 33 => 139 case 34 => 149 case 35 => 151
    case 36 => 157 case 37 => 163 case 38 => 167 case 39 => 173
    case 40 => 179 case 41 => 181 case 42 => 191 case 43 => 193
    case 44 => 197 case 45 => 199 case 46 => 211 case 47 => 223
    case 48 => 227 case 49 => 229 case 50 => 233 case 51 => 239
    case 52 => 241 case 53 => 251 case 54 => 257 case 55 => 263
    case 56 => 269 case 57 => 271 case 58 => 277 case 59 => 281
    case 60 => 283 case 61 => 293 case 62 => 307 case 63 => 311
  }

  /** Divisible by one of the primes whose squares are below 361. */
  predicate HasSmallFactor(n: nat) {
    n % 2 == 0 || n % 3 == 0 || n % 5 == 0 || n % 7 == 0 || n % 11 == 0 || n % 13 == 0 || n % 17 == 0
  }

  /** Every number from 2 to 18 has such a factor, and so have its multiples. */
  lemma MultipleHasFactor(m: nat, e: nat)
    requires 2 <= m <= 18
    ensures HasSmallFactor(m * e)
  {
    var f := [2, 3, 2, 5, 2, 7, 2, 3, 2, 11, 2, 13, 2, 3, 2, 17, 2][m - 2];
    MultipleOf(m, f, e);
  }

  lemma MultipleOf(m: nat, f: nat, e: nat)
    requires 0 < f && m % f == 0
    ensures m * e % f == 0
  {
    var k := m / f;
    assert m == k * f;
    MulAssoc(f, k, e);
    assert m * e == (k * e) * f;
    DivisionIs(m * e, f, k * e, 0);
  }

  lemma PrimeIff(n: nat)
    requires 18 < n < 361
    ensures IsPrime(n) <==> !HasSmallFactor(n)
  {
    hide HasSmallFactor;
    if !HasSmallFactor(n) {
      forall d: nat | 2 <= d < n
        ensures n % d != 0
      {
        if n % d == 0 { DivisorMeansFactor(n, d); }
      }
    } else {
      FactorDivides(n);
    }
  }

  lemma FactorDivides(n: nat)
    requires HasSmallFactor(n) && n > 18
    ensures !IsPrime(n)
  {
    var q := if n % 2 == 0 then 2 else if n % 3 == 0 then 3 else if n % 5 == 0 then 5 else if n % 7 == 0 then 7
      else if n % 11 == 0 then 11 else if n % 13 == 0 then 13 else 17;
    assert n % q == 0;
  }

  lemma DivisorMeansFactor(n: nat, d: nat)
    requires 18 < n < 361 && 2 <= d < n && n % d == 0
    ensures HasSmallFactor(n)
  {
    hide HasSmallFactor;
    var e := n / d;
    assert n == d * e;
    if d <= 18 {
      MultipleHasFactor(d, e);
    } else {
      CofactorIsSmall(n, d, e);
      MultipleHasFactor(e, d);
      assert e * d == n;
    }
  }

  lemma CofactorIsSmall(n: nat, d: nat, e: nat)
    requires n == d * e && 18 < d < n < 361
    ensures 2 <= e <= 18
  {
    if e > 18 {
      MulMono(19, d, e);
      MulMono(19, e, 19);
    }
  }

  predicate IsSmallPrime(n: nat) {
    n == 2 || n == 3 || n == 5 || n == 7 || n == 11 || n == 13 || n == 17 || n == 19
  }

  lemma SmallPrimes(n: nat)
    requires n <= 19
    ensures IsPrime(n) <==> IsSmallPrime(n)
  {
    if n == 4 || n == 6 || n == 8 || n == 10 || n == 12 || n == 14 || n == 16 || n == 18 { assert n % 2 == 0; }
    if n == 9 || n == 15 { assert n % 3 == 0; }
  }

  /** Every number of [lo, hi) has a small factor. */
  predicate Composites(lo: nat, hi: nat)
    decreases hi - lo
  {
    lo >= hi || (HasSmallFactor(lo) && Composites(lo + 1, hi))
  }

  lemma {:induction false} CompositesMean(lo: nat, hi: nat, n: nat)
    requires Composites(lo, hi) && lo <= n < hi
    ensures HasSmallFactor(n)
    decreases hi - lo
  {
    if lo < n { CompositesMean(lo + 1, hi, n); }
  }

  /** The entry after t has no small factor, and every number between has one. */
  predicate IsNext(t: nat)
    requires t < 63
  {
    19 <= Prime(t) < Prime(t + 1) < 361 && !HasSmallFactor(Prime(t + 1)) && Composites(Prime(t) + 1, Prime(t + 1))
  }

  lemma Next7To14(t: nat)
    requires 7 <= t < 15
    ensures IsNext(t)
  {
    match t
    case 7 => assert Composites(20, 23);
    case 8 => assert Composites(24, 29);
    case 9 => assert Composites(30, 31);
    case 10 => assert Composites(32, 37);
    case 11 => assert Composites(38, 41);
    case 12 => assert Composites(42, 43);
    case 13 => assert Composites(44, 47);
    case 14 => assert Composites(48, 53);
  }

  lemma Next15To22(t: nat)
    requires 15 <= t < 23
    ensures IsNext(t)
  {
    match t
    case 15 => assert Composites(54, 59);
    case 16 => assert Composites(60, 61);
    case 17 => assert Composites(62, 67);
    case 18 => assert Composites(68, 71);
    case 19 => assert Composites(72, 73);
    case 20 => assert Composites(74, 79);
    case 21 => assert Composites(80, 83);
    case 22 => assert Composites(84, 89);
  }

  lemma Next23To30(t: nat)
    requires 23 <= t < 31
    ensures IsNext(t)
  {
    match t
    case 23 => assert Composites(90, 97);
    case 24 => assert Composites(98, 101);
    case 25 => assert Composites(102, 103);
    case 26 => assert Composites(104, 107);
    case 27 => assert Composites(108, 109);
    case 28 => assert Composites(110, 113);
    case 29 => assert Composites(114, 127);
    case 30 => assert Composites(128, 131);
  }

  lemma Next31To38(t: nat)
    requires 31 <= t < 39
    ensures IsNext(t)
  {
    match t
    case 31 => assert Composites(132, 137);
    case 32 => assert Composites(138, 139);
    case 33 => assert Composites(140, 149);
    case 34 => assert Composites(150, 151);
    case 35 => assert Composites(152, 157);
    case 36 => assert Composites(158, 163);
    case 37 => assert Composites(164, 167);
    case 38 => assert Composites(168, 173);
  }

  lemma Next39To46(t: nat)
    requires 39 <= t < 47
    ensures IsNext(t)
  {
    match t
    case 39 => assert Composites(174, 179);
    case 40 => assert Composites(180, 181);
    case 41 => assert Composites(182, 191);
    case 42 => assert Composites(192, 193);
    case 43 => assert Composites(194, 197);
    case 44 => assert Composites(198, 199);
    case 45 => assert Composites(200, 211);
    case 46 => assert Composites(212, 223);
  }

  lemma Next47To54(t: nat)
    requires 47 <= t < 55
    ensures IsNext(t)
  {
    match t
    case 47 => assert Composites(224, 227);
    case 48 => assert Composites(228, 229);
    case 49 => assert Composites(230, 233);
    case 50 => assert Composites(234, 239);
    case 51 => assert Composites(240, 241);
    case 52 => assert Composites(242, 251);
    case 53 => assert Composites(252, 257);
    case 54 => assert Composites(258, 263);
  }

  lemma Next55To62(t: nat)
    requires 55 <= t < 63
    ensures IsNext(t)
  {
    match t
    case 55 => assert Composites(264, 269);
    case 56 => assert Composites(270, 271);
    case 57 => assert Composites(272, 277);
    case 58 => assert Composites(278, 281);
    case 59 => assert Composites(282, 283);
    case 60 => assert Composites(284, 293);
    case 61 => assert Composites(294, 307);
    case 62 => assert Composites(308, 311);
  }

  lemma TableIsDense(t: nat)
    requires 7 <= t < 63
    ensures IsNext(t)
  {
    hide IsNext, Prime;
    if t < 15 { Next7To14(t); } else if t < 23 { Next15To22(t); } else if t < 31 { Next23To30(t); }
    else if t < 39 { Next31To38(t); } else if t < 47 { Next39To46(t); } else if t < 55 { Next47To54(t); }
    else { Next55To62(t); }
  }

  /** The first entry is the first prime, and there is no prime between an entry and the next: the table holds
      exactly the first 64 primes. */
  lemma NextPrime(t: nat)
    requires t < 63
    ensures Prime(0) == 2 && IsPrime(Prime(t + 1)) && Prime(t) < Prime(t + 1)
    ensures forall n: nat :: Prime(t) < n < Prime(t + 1) ==> !IsPrime(n)
  {
    if t < 7 {
      forall n: nat | n <= 19 ensures IsPrime(n) <==> IsSmallPrime(n) { SmallPrimes(n); }
    } else {
      hide IsPrime, HasSmallFactor;
      TableIsDense(t);
      PrimeIff(Prime(t + 1));
      forall n: nat | Prime(t) < n < Prime(t + 1)
        ensures !IsPrime(n)
      {
        CompositesMean(Prime(t) + 1, Prime(t + 1), n);
        PrimeIff(n);
      }
    }
  }

  // ----- the roots -----

  const CUBE: nat := BASE * BASE * BASE

  /** c is the integer part and k / 2^32 the first 32 bits of the fractional part of the cube root of p. */
  predicate IsCubeRoot(c: nat, k: nat, p: nat) {
    var x := c * BASE + k;
    k < BASE && x * x * x <= p * CUBE < (x + 1) * (x + 1) * (x + 1)
  }

  predicate IsSquareRoot(c: nat, k: nat, p: nat) {
    var x := c * BASE + k;
    k < BASE && x * x <= p * BASE * BASE < (x + 1) * (x + 1)
  }

  /** The constant is the word of such a k. */
  ghost predicate StartsCubeRoot(w: Word, p: nat) {
    exists c: nat, k: nat :: IsCubeRoot(c, k, p) && k < BASE && w == k as Word
  }

  ghost predicate StartsSquareRoot(w: Word, p: nat) {
    exists c: nat, k: nat :: IsSquareRoot(c, k, p) && k < BASE && w == k as Word
  }

  lemma Roots0To7(t: nat)
    requires 0 <= t < 8
    ensures StartsCubeRoot(K(t), Prime(t))
  {
    match t
    case 0 => assert IsCubeRoot(1, 0x428a2f98, 2);
    case 1 => assert IsCubeRoot(1, 0x71374491, 3);
    case 2 => assert IsCubeRoot(1, 0xb5c0fbcf, 5);
    case 3 => assert IsCubeRoot(1, 0xe9b5dba5, 7);
    case 4 => assert IsCubeRoot(2, 0x3956c25b, 11);
    case 5 => assert IsCubeRoot(2, 0x59f111f1, 13);
    case 6 => assert IsCubeRoot(2, 0x923f82a4, 17);
    case 7 => assert IsCubeRoot(2, 0xab1c5ed5, 19);
  }

  lemma Roots8To15(t: nat)
    requires 8 <= t < 16
    ensures StartsCubeRoot(K(t), Prime(t))
  {
    match t
    case 8 => assert IsCubeRoot(2, 0xd807aa98, 23);
    case 9 => assert IsCubeRoot(3, 0x12835b01, 29);
    case 10 => assert IsCubeRoot(3, 0x243185be, 31);
    case 11 => assert IsCubeRoot(3, 0x550c7dc3, 37);
    case 12 => assert IsCubeRoot(3, 0x72be5d74, 41);
    case 13 => assert IsCubeRoot(3, 0x80deb1fe, 43);
    case 14 => assert IsCubeRoot(3, 0x9bdc06a7, 47);
    case 15 => assert IsCubeRoot(3, 0xc19bf174, 53);
  }

  lemma Roots16To23(t: nat)
    requires 16 <= t < 24
    ensures StartsCubeRoot(K(t), Prime(t))
  {
    match t
    case 16 => assert IsCubeRoot(3, 0xe49b69c1, 59);
    case 17 => assert IsCubeRoot(3, 0xefbe4786, 61);
    case 18 => assert IsCubeRoot(4, 0x0fc19dc6, 67);
    case 19 => assert IsCubeRoot(4, 0x240ca1cc, 71);
    case 20 => assert IsCubeRoot(4, 0x2de92c6f, 73);
    case 21 => assert IsCubeRoot(4, 0x4a7484aa, 79);
    case 22 => assert IsCubeRoot(4, 0x5cb0a9dc, 83);
    case 23 => assert IsCubeRoot(4, 0x76f988da, 89);
  }

  lemma Roots24To31(t: nat)
    requires 24 <= t < 32
    ensures StartsCubeRoot(K(t), Prime(t))
  {
    match t
    case 24 => assert IsCubeRoot(4, 0x983e5152, 97);
    case 25 => assert IsCubeRoot(4, 0xa831c66d, 101);
    case 26 => assert IsCubeRoot(4, 0xb00327c8, 103);
    case 27 => assert IsCubeRoot(4, 0xbf597fc7, 107);
    case 28 => assert IsCubeRoot(4, 0xc6e00bf3, 109);
    case 29 => assert IsCubeRoot(4, 0xd5a79147, 113);
    case 30 => assert IsCubeRoot(5, 0x06ca6351, 127);
    case 31 => assert IsCubeRoot(5, 0x14292967, 131);
  }

  lemma Roots32To39(t: nat)
    requires 32 <= t < 40
    ensures StartsCubeRoot(K(t), Prime(t))
  {
    match t
    case 32 => assert IsCubeRoot(5, 0x27b70a85, 137);
    case 33 => assert IsCubeRoot(5, 0x2e1b2138, 139);
    case 34 => assert IsCubeRoot(5, 0x4d2c6dfc, 149);
    case 35 => assert IsCubeRoot(5, 0x53380d13, 151);
    case 36 => assert IsCubeRoot(5, 0x650a7354, 157);
    case 37 => assert IsCubeRoot(5, 0x766a0abb, 163);
    case 38 => assert IsCubeRoot(5, 0x81c2c92e, 167);
    case 39 => assert IsCubeRoot(5, 0x92722c85, 173);
  }

  lemma Roots40To47(t: nat)
    requires 40 <= t < 48
    ensures StartsCubeRoot(K(t), Prime(t))
  {
    match t
    case 40 => assert IsCubeRoot(5, 0xa2bfe8a1, 179);
    case 41 => assert IsCubeRoot(5, 0xa81a664b, 181);
    case 42 => assert IsCubeRoot(5, 0xc24b8b70, 191);
    case 43 => assert IsCubeRoot(5, 0xc76c51a3, 193);
    case 44 => assert IsCubeRoot(5, 0xd192e819, 197);
    case 45 => assert IsCubeRoot(5, 0xd6990624, 199);
    case 46 => assert IsCubeRoot(5, 0xf40e3585, 211);
    case 47 => assert IsCubeRoot(6, 0x106aa070, 223);
  }

  lemma Roots48To55(t: nat)
    requires 48 <= t < 56
    ensures StartsCubeRoot(K(t), Prime(t))
  {
    match t
    case 48 => assert IsCubeRoot(6, 0x19a4c116, 227);
    case 49 => assert IsCubeRoot(6, 0x1e376c08, 229);
    case 50 => assert IsCubeRoot(6, 0x2748774c, 233);
    case 51 => assert IsCubeRoot(6, 0x34b0bcb5, 239);
    case 52 => assert IsCubeRoot(6, 0x391c0cb3, 241);
    case 53 => assert IsCubeRoot(6, 0x4ed8aa4a, 251);
    case 54 => assert IsCubeRoot(6, 0x5b9cca4f, 257);
    case 55 => assert IsCubeRoot(6, 0x682e6ff3, 263);
  }

  lemma Roots56To63(t: nat)
    requires 56 <= t < 64
    ensures StartsCubeRoot(K(t), Prime(t))
  {
    match t
    case 56 => assert IsCubeRoot(6, 0x748f82ee, 269);
    case 57 => assert IsCubeRoot(6, 0x78a5636f, 271);
    case 58 => assert IsCubeRoot(6, 0x84c87814, 277);
    case 59 => assert IsCubeRoot(6, 0x8cc70208, 281);
    case 60 => assert IsCubeRoot(6, 0x90befffa, 283);
    case 61 => assert IsCubeRoot(6, 0xa4506ceb, 293);
    case 62 => assert IsCubeRoot(6, 0xbef9a3f7, 307);
    case 63 => assert IsCubeRoot(6, 0xc67178f2, 311);
  }

  /** Section 4.2.2 of FIPS 180-4: the constant of round t starts the fractional part of the cube root of the
      prime with index t. */
  lemma RoundConstants(t: nat)
    requires t < 64
    ensures StartsCubeRoot(K(t), Prime(t))
  {
    hide StartsCubeRoot, K, Prime;
    if t < 8 { Roots0To7(t); } else if t < 16 { Roots8To15(t); } else if t < 24 { Roots16To23(t); }
    else if t < 32 { Roots24To31(t); } else if t < 40 { Roots32To39(t); } else if t < 48 { Roots40To47(t); }
    else if t < 56 { Roots48To55(t); } else { Roots56To63(t); }
  }

  /** Section 5.3.3: the initial hash value, from the square roots of the first eight primes. */
  lemma InitialHash(i: nat)
    requires i < 8
    ensures StartsSquareRoot(Initial()[i], Prime(i))
  {
    assert IsSquareRoot(1, 0x6a09e667, 2);
    assert IsSquareRoot(1, 0xbb67ae85, 3);
    assert IsSquareRoot(2, 0x3c6ef372, 5);
    assert IsSquareRoot(2, 0xa54ff53a, 7);
    assert IsSquareRoot(3, 0x510e527f, 11);
    assert IsSquareRoot(3, 0x9b05688c, 13);
    assert IsSquareRoot(4, 0x1f83d9ab, 17);
    assert IsSquareRoot(4, 0x5be0cd19, 19);
  }
}
