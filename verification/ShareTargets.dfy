// The share target of a pool difficulty and the target of compact nBits
// (src/bitcoin/difficulty.cpp). A finite positive double is its 53-bit mantissa and its
// binary exponent, as frexp and ldexp deliver them: the value is mantissa * 2^(exponent - 53).
module ShareTargets {
  import opened Arith
  import opened ByteNumbers
  import opened Targets

  datatype Difficulty = NotPositiveFinite | Finite(mantissa: nat, exponent: int)

  datatype Error = BadDifficulty | WrongLength | Negative | Overflow

  datatype Outcome = Target(bytes: seq<Byte>) | Failure(error: Error)

  const DIFF1: nat := 0xffff * Pow(2, 208)

  predicate Normalised(d: Difficulty) {
    d.Finite? ==> Pow(2, 52) <= d.mantissa < Pow(2, 53)
  }

  // ----- reading the difficulty-one target into limbs -----

  /** limb |= b << 8k, for a limb whose low k + 1 bytes are still clear */
  function OrByte(limb: nat, k: nat, b: Byte): nat
    requires k < 4 && limb % Pow(256, k + 1) == 0
  {
    limb + b * Pow(256, k)
  }

  lemma FreeByte(s: seq<nat>, little: nat, n: nat)
    requires Words(s) && little < 4 * |s| && Value(s) == n * Pow(256, little + 1)
    ensures s[little / 4] % Pow(256, little % 4 + 1) == 0
  {
    hide Value, Pow;
    var l, k := little / 4, little % 4;
    UpperPart(s, l);
    BytesOfLimbs(l);
    PowAdd(256, k + 1, 4 * l);
    MulAssoc(n, Pow(256, k + 1), Pow(BASE, l));
    DivisionIs(Value(s), Pow(BASE, l), n * Pow(256, k + 1), 0);
    LimbOfPowers(k + 1);
    Divides(s[l], Value(s[l + 1..]), n, Pow(256, k + 1), Pow(256, 3 - k));
  }

  lemma {:induction false} BytesOfLimbs(l: nat)
    ensures Pow(BASE, l) == Pow(256, 4 * l)
  {
    BytesInBits(4 * l);
    BasePower(l);
  }

  lemma LimbOfPowers(k: nat)
    requires k <= 4
    ensures BASE == Pow(256, k) * Pow(256, 4 - k)
  {
    PowOfTwo32();
    hide Pow;
    BytesInBits(4);
    PowAdd(256, k, 4 - k);
  }

  lemma Divides(x: nat, high: nat, n: nat, p: nat, q: nat)
    requires p > 0 && x + (p * q) * high == n * p
    ensures x % p == 0
  {
    assert (p * q) * high == (q * high) * p;
    DivAddMultiple(x, q * high, p);
    DivisionIs(n * p, p, n, 0);
  }

  lemma OrByteFits(x: nat, k: nat, b: Byte)
    requires k < 4 && x < BASE && x % Pow(256, k + 1) == 0
    ensures OrByte(x, k, b) < BASE
  {
    hide Pow;
    LimbOfPowers(k + 1);
    PowNext(256, k);
    RoomForByte(x, b, Pow(256, k), Pow(256, 3 - k));
  }

  lemma RoomForByte(x: nat, b: Byte, p: nat, q: nat)
    requires p > 0 && x % (256 * p) == 0 && x < (256 * p) * q
    ensures x + b * p < (256 * p) * q
  {
    var y := x / (256 * p);
    assert x == y * (256 * p);
    if q <= y { MulMono(q, y, 256 * p); }
    MulMono(y + 1, q, 256 * p);
    MulDistributes(y, 1, 256 * p);
    MulMono(b, 255, p);
  }

  /** from_target: the limbs carry the big-endian number of the target. */
  method FromTarget(target: seq<Byte>) returns (limbs: array<nat>)
    requires IsTarget(target)
    ensures fresh(limbs) && limbs.Length == LIMBS && Words(limbs[..])
    ensures Value(limbs[..]) == BigEndian(target)
  {
    hide Value, Pow, OrByte, BigEndian;
    limbs := new nat[LIMBS](i => 0);
    ValueZeros(limbs[..]);
    BigEndianZeros(target[..0]);
    for byte := 0 to 32
      invariant Words(limbs[..]) && Value(limbs[..]) == BigEndian(target[..byte]) * Pow(256, 32 - byte)
    {
      var little := 31 - byte;
      ghost var before := limbs[..];
      FreeByte(before, little, BigEndian(target[..byte]));
      limbs[little / 4] := OrByte(limbs[little / 4], little % 4, target[byte]);
      assert limbs[..] == before[little / 4 := OrByte(before[little / 4], little % 4, target[byte])];
      assert target[..byte + 1] == target[..byte] + [target[byte]];
      ByteStep(before, target[..byte], target[byte], little);
    }
    PowZero(256);
    assert target[..32] == target;
  }

  lemma ByteStep(s: seq<nat>, done: seq<Byte>, b: Byte, little: nat)
    requires Words(s) && little < 4 * |s| && Value(s) == BigEndian(done) * Pow(256, little + 1)
    requires s[little / 4] % Pow(256, little % 4 + 1) == 0
    ensures var t := s[little / 4 := OrByte(s[little / 4], little % 4, b)];
      Words(t) && Value(t) == BigEndian(done + [b]) * Pow(256, little)
  {
    hide Value, Pow, BigEndian;
    var l, k := little / 4, little % 4;
    OrByteFits(s[l], k, b);
    ValueSet(s, l, b * Pow(256, k));
    BytesOfLimbs(l);
    PowAdd(256, k, 4 * l);
    MulAssoc(b, Pow(256, k), Pow(BASE, l));
    BigEndianSnoc(done, b);
    PowNext(256, little);
    MulDistributes(256 * BigEndian(done), b, Pow(256, little));
    Shuffle(BigEndian(done), Pow(256, little));
  }

  lemma Shuffle(x: nat, p: nat)
    ensures x * (256 * p) == (256 * x) * p
  {}

  function DiffOneTarget(): seq<Byte> { seq(32, i => if i == 4 || i == 5 then 255 else 0) }

  lemma DiffOneValue()
    ensures BigEndian(DiffOneTarget()) == DIFF1
  {
    hide BigEndian, Pow;
    var t := DiffOneTarget();
    assert t == t[..6] + t[6..];
    assert t[..6] == (t[..4] + [255]) + [255];
    BigEndianZeros(t[..4]);
    BigEndianSnoc(t[..4], 255);
    BigEndianSnoc(t[..4] + [255], 255);
    BigEndianZeros(t[6..]);
    BigEndianAppend(t[..6], t[6..]);
    BytesInBits(26);
  }

  // ----- the exact target -----

  /** floor(DIFF1 / difficulty) */
  function Exact(m: nat, e: int): nat
    requires m > 0
  {
    if e <= 53 then DIFF1 * Pow(2, 53 - e) / m else DIFF1 / Product(Pow(2, e - 53), m)
  }

  function Product(x: nat, y: nat): (r: nat)
    ensures x > 0 && y > 0 ==> r > 0
  {
    ProductPositive(x, y);
    x * y
  }

  lemma ProductPositive(x: nat, y: nat)
    ensures x > 0 && y > 0 ==> x * y > 0
  {}

  /** What the 384-bit numerator holds after the shift. */
  function Numerator(e: int): nat {
    if e <= 53 then Shifted(DIFF1, 53 - e) else DIFF1 / Pow(2, e - 53)
  }

  /** The value of the target the code returns. */
  function ShareValue(m: nat, e: int): nat
    requires m > 0
  {
    if e >= -122 then Min(Exact(m, e), MAX_TARGET) else 0
  }

  lemma DiffOneBounds()
    ensures Pow(2, 208) <= DIFF1 < Pow(2, 224)
  {
    PowOfTwo32();
    hide Pow;
    PowAdd(2, 16, 208);
  }

  lemma RegisterSize()
    ensures Pow(BASE, LIMBS) == Pow(2, 384)
  {
    BasePower(12);
  }

  /** Up to 160 bits nothing leaves the register. */
  lemma SmallShift(s: nat)
    requires s <= 160
    ensures Shifted(DIFF1, s) == DIFF1 * Pow(2, s)
  {
    hide Pow;
    DiffOneBounds();
    RegisterSize();
    PowGrows(s, 160);
    PowAdd(2, 224, 160);
    ProductBelow(DIFF1, Pow(2, 224), Pow(2, s), Pow(2, 160));
    DivisionIs(DIFF1 * Pow(2, s), Pow(2, 384), 0, DIFF1 * Pow(2, s));
  }

  lemma ProductBelow(x: nat, y: nat, p: nat, q: nat)
    requires x < y && 0 < p <= q
    ensures x * p < y * q
  {
    MulMono(x + 1, y, p);
    MulDistributes(x, 1, p);
    MulMono(p, q, y);
  }

  /** What a longer shift leaves: the low bits of the sixteen ones, 368 places up. */
  lemma LongShift(j: nat)
    ensures Shifted(DIFF1, 160 + j) == (0xffff * Pow(2, j) % 0x10000) * Pow(2, 368)
  {
    PowOfTwo32();
    hide Pow;
    RegisterSize();
    PowAdd(2, 160, j);
    PowAdd(2, 208, 160);
    PowAdd(2, 16, 368);
    Gather(0xffff, Pow(2, 208), Pow(2, 160), Pow(2, j));
    ScaledRemainder(0xffff * Pow(2, j), 0x10000, Pow(2, 368));
  }

  lemma Gather(c: nat, x: nat, y: nat, z: nat)
    ensures (c * x) * (y * z) == (c * z) * (x * y)
  {
    MulAssoc(c * x, y, z);
    MulAssoc(c, x, y);
    MulAssoc(c, x * y, z);
    MulAssoc(c, z, x * y);
  }

  lemma ScaledRemainder(n: nat, d: nat, k: nat)
    requires d > 0 && k > 0
    ensures d * k > 0 && (n * k) % (d * k) == (n % d) * k
  {
    var q, r := n / d, n % d;
    MulDistributes(q * d, r, k);
    MulAssoc(q, d, k);
    MulMono(r + 1, d, k);
    MulDistributes(r, 1, k);
    DivisionIs(n * k, d * k, q, r * k);
  }

  /** 65535 * 2^j is a multiple of 65536 exactly from j = 16 on. */
  lemma OnesShifted(j: nat)
    ensures 0xffff * Pow(2, j) % 0x10000 == 0 <==> j >= 16
  {
    PowOfTwo32();
    hide Pow;
    if j >= 16 {
      PowAdd(2, 16, j - 16);
      var k := Pow(2, j - 16);
      assert 0xffff * Pow(2, j) == (0xffff * k) * 0x10000;
      DivisionIs(0xffff * Pow(2, j), 0x10000, 0xffff * k, 0);
    } else {
      PowAdd(2, j, 16 - j);
      PowNext(2, 15 - j);
      SmallPower(Pow(2, j), Pow(2, 15 - j));
      DivisionIs(0xffff * Pow(2, j), 0x10000, Pow(2, j) - 1, 0x10000 - Pow(2, j));
    }
  }

  lemma SmallPower(p: nat, q: nat)
    requires p > 0 && q > 0 && p * (2 * q) == 0x10000
    ensures p < 0x10000
  {
    MulMono(2, 2 * q, p);
  }

  lemma Saturates(n: nat, m: nat)
    requires 0 < m < Pow(2, 53) && n >= Pow(2, 368)
    ensures n / m > MAX_TARGET
  {
    hide Pow;
    BytesInBits(32);
    PowAdd(2, 256, 53);
    PowGrows(309, 368);
    MulMono(m, Pow(2, 53), Pow(2, 256));
    assert m * Pow(2, 256) == Pow(2, 256) * m;
    DivAtLeast(n, m, Pow(2, 256));
  }

  /** Below 2^-107 the exact target is past the maximum. */
  lemma TinyDifficulty(m: nat, e: int)
    requires 0 < m < Pow(2, 53) && e < -107
    ensures Exact(m, e) > MAX_TARGET
  {
    hide Pow;
    DiffOneBounds();
    PowGrows(160, 53 - e);
    PowAdd(2, 208, 160);
    MulMono(Pow(2, 208), DIFF1, Pow(2, 160));
    MulMono(Pow(2, 160), Pow(2, 53 - e), DIFF1);
    assert Pow(2, 208) * Pow(2, 160) <= DIFF1 * Pow(2, 53 - e);
    Saturates(DIFF1 * Pow(2, 53 - e), m);
  }

  /** The quotient of the shifted numerator saturates to the share value. */
  lemma QuotientIsShare(m: nat, e: int)
    requires 0 < m < Pow(2, 53)
    ensures Min(Numerator(e) / m, MAX_TARGET) == ShareValue(m, e)
  {
    hide Pow, Shifted;
    if e > 53 {
      DivDiv(DIFF1, Pow(2, e - 53), m);
    } else if e >= -107 {
      SmallShift(53 - e);
    } else {
      LargeQuotient(m, e);
    }
  }

  lemma LargeQuotient(m: nat, e: int)
    requires 0 < m < Pow(2, 53) && e < -107
    ensures Min(Numerator(e) / m, MAX_TARGET) == ShareValue(m, e)
  {
    hide Pow, Shifted;
    var j := -107 - e;
    LongShift(j);
    OnesShifted(j);
    TinyDifficulty(m, e);
    var low := 0xffff * Pow(2, j) % 0x10000;
    if j < 16 {
      MulMono(1, low, Pow(2, 368));
      Saturates(low * Pow(2, 368), m);
    }
  }

  /** share_target_from_difficulty. It returns the exact share target, saturated at 2^256 - 1,
      exactly when the exponent is at least -122; for smaller difficulties every bit of the
      numerator leaves the register and the target collapses to zero. */
  method ShareTarget(d: Difficulty) returns (r: Outcome)
    requires Normalised(d)
    ensures d.NotPositiveFinite? <==> r.Failure?
    ensures r.Failure? ==> r.error == BadDifficulty
    ensures d.Finite? ==> d.mantissa > 0 && IsTarget(r.bytes)
    ensures d.Finite? ==> BigEndian(r.bytes) == ShareValue(d.mantissa, d.exponent)
    ensures d.Finite? ==>
      (BigEndian(r.bytes) == Min(Exact(d.mantissa, d.exponent), MAX_TARGET) <==> d.exponent >= -122)
  {
    hide Value, Pow, BigEndian, ShareValue, Shifted;
    if d.NotPositiveFinite? {
      return Failure(BadDifficulty);
    }
    DiffOneValue();
    var numerator := FromTarget(DiffOneTarget());
    var shift := 53 - d.exponent;
    if shift >= 0 {
      ShiftLeft(numerator, shift);
    } else {
      ShiftRight(numerator, -shift);
    }
    var quotient := Divide(numerator[..], d.mantissa);
    var target := LowerTarget(quotient[..]);
    r := Target(target);
    QuotientIsShare(d.mantissa, d.exponent);
    WhenExact(d.mantissa, d.exponent);
  }

  lemma WhenExact(m: nat, e: int)
    requires 0 < m < Pow(2, 53)
    ensures ShareValue(m, e) == Min(Exact(m, e), MAX_TARGET) <==> e >= -122
  {
    hide Pow, Exact;
    if e < -122 {
      TinyDifficulty(m, e);
      BytesInBits(32);
      PowGrows(1, 256);
      PowZero(2);
      PowNext(2, 0);
    }
  }

  /** The difficulty 2^-124, whose exact target saturates, gets the target zero. */
  lemma CollapsedTarget()
    ensures Pow(2, 52) < Pow(2, 53) && ShareValue(Pow(2, 52), -123) == 0
    ensures Min(Exact(Pow(2, 52), -123), MAX_TARGET) == MAX_TARGET > 0
  {
    hide Pow, Exact;
    PowNext(2, 52);
    PowPositive(2, 52);
    WhenExact(Pow(2, 52), -123);
    TinyDifficulty(Pow(2, 52), -123);
    BytesInBits(32);
    PowGrows(1, 256);
    PowZero(2);
    PowNext(2, 0);
  }

  // ----- order of difficulties and of targets -----

  /** m1 2^e1 <= m2 2^e2 */
  predicate AtMost(m1: nat, e1: int, m2: nat, e2: int) {
    if e1 <= e2 then m1 <= m2 * Pow(2, e2 - e1) else m1 * Pow(2, e1 - e2) <= m2
  }

  lemma CancelFactor(a: nat, b: nat, k: nat)
    requires b > 0 && k > 0
    ensures b * k > 0 && (a * k) / (b * k) == a / b
  {
    var q, r := a / b, a % b;
    MulDistributes(q * b, r, k);
    MulAssoc(q, b, k);
    MulMono(r + 1, b, k);
    MulDistributes(r, 1, k);
    DivisionIs(a * k, b * k, q, r * k);
  }

  lemma CrossDivide(a: nat, b: nat, c: nat, d: nat)
    requires b > 0 && d > 0 && c * b <= a * d
    ensures c / d <= a / b
  {
    var q := c / d;
    assert q * d <= c;
    MulMono(q * d, c, b);
    assert (q * b) * d == (q * d) * b;
    CancelLe(q * b, a, d);
    DivAtLeast(a, b, q);
  }

  /** The exact target over a common exponent n. */
  lemma OverCommon(m: nat, e: int, n: int)
    requires m > 0 && n >= e && n >= 53
    ensures m * Pow(2, n - 53) > 0
    ensures Exact(m, e) == DIFF1 * Pow(2, n - e) / (m * Pow(2, n - 53))
  {
    hide Pow;
    ProductPositive(m, Pow(2, n - 53));
    if e <= 53 {
      PowAdd(2, 53 - e, n - 53);
      MulAssoc(DIFF1, Pow(2, 53 - e), Pow(2, n - 53));
      CancelFactor(DIFF1 * Pow(2, 53 - e), m, Pow(2, n - 53));
    } else {
      PowAdd(2, e - 53, n - e);
      MulAssoc(m, Pow(2, e - 53), Pow(2, n - e));
      CancelFactor(DIFF1, Product(Pow(2, e - 53), m), Pow(2, n - e));
    }
  }

  lemma ScaledOrder(m1: nat, e1: int, m2: nat, e2: int, n: int)
    requires AtMost(m1, e1, m2, e2) && n >= e1 && n >= e2
    ensures m1 * Pow(2, n - e2) <= m2 * Pow(2, n - e1)
  {
    hide Pow;
    if e1 <= e2 {
      PowAdd(2, e2 - e1, n - e2);
      MulMono(m1, m2 * Pow(2, e2 - e1), Pow(2, n - e2));
      MulAssoc(m2, Pow(2, e2 - e1), Pow(2, n - e2));
    } else {
      PowAdd(2, e1 - e2, n - e1);
      MulMono(m1 * Pow(2, e1 - e2), m2, Pow(2, n - e1));
      MulAssoc(m1, Pow(2, e1 - e2), Pow(2, n - e1));
    }
  }

  /** A higher difficulty never has a larger exact target. */
  lemma ExactAntitone(m1: nat, e1: int, m2: nat, e2: int)
    requires m1 > 0 && m2 > 0 && AtMost(m1, e1, m2, e2)
    ensures Exact(m2, e2) <= Exact(m1, e1)
  {
    hide Pow, Exact, AtMost;
    var n := if e1 <= e2 then (if e2 <= 53 then 53 else e2) else (if e1 <= 53 then 53 else e1);
    OverCommon(m1, e1, n);
    OverCommon(m2, e2, n);
    ScaledOrder(m1, e1, m2, e2, n);
    CrossOrder(DIFF1, m1, Pow(2, n - e2), m2, Pow(2, n - e1), Pow(2, n - 53));
    CrossDivide(DIFF1 * Pow(2, n - e1), m1 * Pow(2, n - 53), DIFF1 * Pow(2, n - e2), m2 * Pow(2, n - 53));
  }

  lemma CrossOrder(d: nat, m1: nat, p2: nat, m2: nat, p1: nat, k: nat)
    requires m1 * p2 <= m2 * p1
    ensures (d * p2) * (m1 * k) <= (d * p1) * (m2 * k)
  {
    Gather(d, p2, m1, k);
    Gather(d, p1, m2, k);
    MulMono(m1 * p2, m2 * p1, d * k);
    assert (d * k) * (p2 * m1) == (m1 * p2) * (d * k);
    assert (d * k) * (p1 * m2) == (m2 * p1) * (d * k);
  }

  /** A normalised number that is no larger has no larger exponent. */
  lemma ExponentOrder(m1: nat, e1: int, m2: nat, e2: int)
    requires Pow(2, 52) <= m1 && m2 < Pow(2, 53) && AtMost(m1, e1, m2, e2)
    ensures e1 <= e2
  {
    hide Pow;
    if e1 > e2 {
      PowNext(2, 52);
      PowGrows(1, e1 - e2);
      PowZero(2);
      PowNext(2, 0);
      MulMono(2, Pow(2, e1 - e2), m1);
    }
  }

  /** The difficulty is larger than diff1, which is the double 0xffff 2^37 with exponent 224. */
  predicate BeyondDiffOne(m: nat, e: int) { e > 224 || (e == 224 && m > 0xffff * Pow(2, 37)) }

  /** Beyond diff1 the exact target is zero, and only there. */
  lemma ZeroTarget(m: nat, e: int)
    requires Pow(2, 52) <= m < Pow(2, 53) && m > 0
    ensures Exact(m, e) == 0 <==> BeyondDiffOne(m, e)
  {
    hide Pow;
    if e <= 53 {
      SmallDifficulty(m, e);
    } else {
      ProductPositive(Pow(2, e - 53), m);
      ZeroQuotient(DIFF1, m * Pow(2, e - 53));
      if e < 224 { BelowDiffOne(m, e); } else if e == 224 { AtDiffOne(m); } else { AboveDiffOne(m, e); }
    }
  }

  lemma ZeroQuotient(a: nat, b: nat)
    requires b > 0
    ensures a / b == 0 <==> a < b
  {
    if a >= b { DivAtLeast(a, b, 1); }
  }

  lemma SmallDifficulty(m: nat, e: int)
    requires 0 < m < Pow(2, 53) && e <= 53
    ensures DIFF1 * Pow(2, 53 - e) / m > 0
  {
    hide Pow;
    DiffOneFloor();
    PowGrows(53, 223);
    MulMono(1, Pow(2, 53 - e), DIFF1);
    DivAtLeast(DIFF1 * Pow(2, 53 - e), m, 1);
  }

  lemma BelowDiffOne(m: nat, e: nat)
    requires m < Pow(2, 53) && 53 <= e < 224
    ensures m * Pow(2, e - 53) <= DIFF1
  {
    hide Pow;
    DiffOneFloor();
    PowAdd(2, 53, e - 53);
    MulMono(m, Pow(2, 53), Pow(2, e - 53));
    PowGrows(e, 223);
  }

  lemma AtDiffOne(m: nat)
    ensures m * Pow(2, 171) <= DIFF1 <==> m <= 0xffff * Pow(2, 37)
  {
    hide Pow;
    PowAdd(2, 37, 171);
    MulAssoc(0xffff, Pow(2, 37), Pow(2, 171));
    OrderOfMultiples(m, 0xffff * Pow(2, 37), Pow(2, 171));
  }

  lemma OrderOfMultiples(x: nat, y: nat, k: nat)
    requires k > 0
    ensures x * k <= y * k <==> x <= y
  {
    if x > y {
      MulMono(y + 1, x, k);
      MulDistributes(y, 1, k);
    } else {
      MulMono(x, y, k);
    }
  }

  lemma AboveDiffOne(m: nat, e: nat)
    requires Pow(2, 52) <= m && e > 224
    ensures m * Pow(2, e - 53) > DIFF1
  {
    hide Pow;
    DiffOneBounds();
    PowAdd(2, 52, e - 53);
    MulMono(Pow(2, 52), m, Pow(2, e - 53));
    PowGrows(224, e - 1);
  }

  lemma DiffOneFloor()
    ensures Pow(2, 223) <= DIFF1
  {
    PowAdd(2, 15, 208);
    assert Pow(2, 15) == 0x8000;
    hide Pow;
    MulMono(0x8000, 0xffff, Pow(2, 208));
  }

  /** Raising the difficulty never raises the share target, except from below 2^-122, where the
      target has collapsed, to a difficulty from there up to diff1. */
  lemma ShareAntitone(m1: nat, e1: int, m2: nat, e2: int)
    requires Pow(2, 52) <= m1 < Pow(2, 53) && Pow(2, 52) <= m2 < Pow(2, 53) && AtMost(m1, e1, m2, e2)
    requires m1 > 0 && m2 > 0
    ensures ShareValue(m2, e2) <= ShareValue(m1, e1) <==> e1 >= -122 || e2 < -122 || BeyondDiffOne(m2, e2)
  {
    hide Pow, Exact, BeyondDiffOne;
    ZeroTarget(m2, e2);
    ExactAntitone(m1, e1, m2, e2);
    ExponentOrder(m1, e1, m2, e2);
    BytesInBits(32);
    PowGrows(1, 256);
    PowZero(2);
    PowNext(2, 0);
  }

  // ----- compact targets -----

  /** The value of a compact target. */
  function CompactValue(exponent: nat, mantissa: nat): nat {
    if exponent <= 3 then mantissa / Pow(256, 3 - exponent) else mantissa * Pow(256, exponent - 3)
  }

  /** The target of difficulty one is the compact target 1d00ffff. */
  lemma DiffOneIsCompact()
    ensures BigEndian(DiffOneTarget()) == CompactValue(0x1d, 0xffff)
  {
    hide BigEndian, Pow;
    DiffOneValue();
    BytesInBits(26);
  }

  /** target_from_nbits on the decoded bytes. */
  method TargetFromNbits(compact: seq<Byte>) returns (r: Outcome)
    ensures |compact| != 4 ==> r == Failure(WrongLength)
    ensures |compact| == 4 && compact[1] >= 0x80 ==> r == Failure(Negative)
    ensures |compact| == 4 && compact[1] < 0x80 && compact[0] > 32 ==> r == Failure(Overflow)
    ensures |compact| == 4 && compact[1] < 0x80 && compact[0] <= 32 ==>
      r.Target? && IsTarget(r.bytes) && BigEndian(r.bytes) == CompactValue(compact[0], BigEndian(compact[1..]))
  {
    if |compact| != 4 { return Failure(WrongLength); }
    if compact[1] >= 0x80 { return Failure(Negative); }
    hide BigEndian, CompactValue;
    var exponent, mantissa := compact[0], compact[1..];
    var result := new Byte[32](i => 0);
    if exponent == 0 {
      PlacedValue(result[..], mantissa, 0);
      return Target(result[..]);
    }
    if exponent <= 3 {
      var used := exponent;
      for i := 0 to used
        invariant forall j :: 0 <= j < 32 - used ==> result[j] == 0
        invariant forall j :: 0 <= j < i ==> result[..][32 - used + j] == mantissa[j]
      {
        result[32 - used + i] := mantissa[i];
      }
    } else {
      if exponent > 32 { return Failure(Overflow); }
      var start := 32 - exponent;
      for i := 0 to 3
        invariant forall j :: 0 <= j < start || start + i <= j < 32 ==> result[j] == 0
        invariant forall j :: 0 <= j < i ==> result[..][start + j] == mantissa[j]
      {
        result[start + i] := mantissa[i];
      }
    }
    PlacedValue(result[..], mantissa, exponent);
    r := Target(result[..]);
  }

  /** A mantissa whose first byte sits `exponent` bytes from the end, cut off at the end. */
  lemma PlacedValue(t: seq<Byte>, mantissa: seq<Byte>, exponent: nat)
    requires |t| == 32 && |mantissa| == 3 && exponent <= 32
    requires forall j :: 0 <= j < 32 - exponent || 32 - exponent + Min(exponent, 3) <= j < 32 ==> t[j] == 0
    requires forall j :: 0 <= j < Min(exponent, 3) ==> t[32 - exponent + j] == mantissa[j]
    ensures BigEndian(t) == CompactValue(exponent, BigEndian(mantissa))
  {
    hide BigEndian, Pow;
    var used := Min(exponent, 3);
    var start := 32 - exponent;
    assert t == t[..start] + mantissa[..used] + t[start + used..];
    Surrounded(t[..start], mantissa[..used], t[start + used..]);
    CutOff(mantissa, used);
    PowZero(256);
  }

  lemma Surrounded(left: seq<Byte>, middle: seq<Byte>, right: seq<Byte>)
    requires forall i :: 0 <= i < |left| ==> left[i] == 0
    requires forall i :: 0 <= i < |right| ==> right[i] == 0
    ensures BigEndian(left + middle + right) == BigEndian(middle) * Pow(256, |right|)
  {
    hide BigEndian, Pow;
    BigEndianZeros(left);
    BigEndianZeros(right);
    BigEndianAppend(left, middle);
    BigEndianAppend(left + middle, right);
  }

  lemma CutOff(s: seq<Byte>, used: nat)
    requires used <= |s|
    ensures BigEndian(s[..used]) == BigEndian(s) / Pow(256, |s| - used)
  {
    hide BigEndian, Pow;
    assert s == s[..used] + s[used..];
    BigEndianAppend(s[..used], s[used..]);
    BigEndianBound(s[used..]);
    DivisionIs(BigEndian(s), Pow(256, |s| - used), BigEndian(s[..used]), BigEndian(s[used..]));
  }
}
