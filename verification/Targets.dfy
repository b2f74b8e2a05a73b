// Share and network targets: 384-bit shifts, restoring division and saturation
// (src/bitcoin/difficulty.cpp). Limbs are 32-bit, least significant first.
module Targets {
  import opened Arith
  import opened ByteNumbers

  const LIMBS: nat := 12
  const MAX_TARGET: nat := Pow(256, 32) - 1

  predicate Words(s: seq<nat>) { forall i :: 0 <= i < |s| ==> s[i] < BASE }

  function Value(s: seq<nat>): nat {
    if s == [] then 0 else s[0] + BASE * Value(s[1..])
  }

  // ----- values of limb strings -----

  lemma {:induction false} ValueAppend(s: seq<nat>, t: seq<nat>)
    ensures Value(s + t) == Value(s) + Pow(BASE, |s|) * Value(t)
  {
    if s == [] {
      assert s + t == t;
    } else {
      assert (s + t)[1..] == s[1..] + t;
      ValueAppend(s[1..], t);
      Distribute(BASE, Value(s[1..]), Pow(BASE, |s| - 1), Value(t));
    }
  }

  lemma Distribute(b: nat, x: nat, p: nat, y: nat)
    ensures b * (x + p * y) == b * x + (b * p) * y
  {
    MulAssoc(b, p, y);
  }

  lemma ValueSingle(x: nat)
    ensures Value([x]) == x
  {}

  lemma {:induction false} ValueBound(s: seq<nat>)
    requires Words(s)
    ensures Value(s) < Pow(BASE, |s|)
  {
    if s != [] {
      ValueBound(s[1..]);
      MulMono(Value(s[1..]) + 1, Pow(BASE, |s| - 1), BASE);
    }
  }

  lemma {:induction false} ValueZeros(s: seq<nat>)
    requires forall i :: 0 <= i < |s| ==> s[i] == 0
    ensures Value(s) == 0
  {
    if s != [] { ValueZeros(s[1..]); }
  }

  lemma ValueSet(s: seq<nat>, i: nat, x: nat)
    requires i < |s|
    ensures Value(s[i := s[i] + x]) == Value(s) + x * Pow(BASE, i)
  {
    var t := s[i := s[i] + x];
    assert s == s[..i] + ([s[i]] + s[i + 1..]) && t == s[..i] + ([s[i] + x] + s[i + 1..]);
    ValueAppend(s[..i], [s[i]] + s[i + 1..]);
    ValueAppend(s[..i], [s[i] + x] + s[i + 1..]);
    assert ([s[i]] + s[i + 1..])[1..] == s[i + 1..] && ([s[i] + x] + s[i + 1..])[1..] == s[i + 1..];
    AddScaled(Pow(BASE, i), s[i] + BASE * Value(s[i + 1..]), x);
  }

  lemma AddScaled(p: nat, y: nat, x: nat)
    ensures p * (y + x) == p * y + x * p
  {}

  lemma {:induction false} BasePower(k: nat)
    ensures Pow(BASE, k) == Pow(2, 32 * k)
  {
    if k > 0 {
      BasePower(k - 1);
      assert Pow(2, 32) == BASE by { PowOfTwo32(); }
      PowAdd(2, 32, 32 * (k - 1));
    }
  }

  lemma PowOfTwo32()
    ensures Pow(2, 8) == 256 && Pow(2, 16) == 65536 && Pow(2, 32) == BASE
  {
    assert Pow(2, 4) == 16;
    PowAdd(2, 4, 4);
    PowAdd(2, 8, 8);
    PowAdd(2, 16, 16);
  }

  // ----- shifts -----

  function TopBit(x: nat): nat { x / 0x8000_0000 }

  function LowBits(x: nat): nat { x * 2 % BASE }

  /** One round of shift_left: every limb moves one bit up, the top bit is dropped. */
  method DoubleLimbs(limbs: array<nat>)
    requires limbs.Length == LIMBS && Words(limbs[..])
    modifies limbs
    ensures Words(limbs[..]) && Value(limbs[..]) == 2 * old(Value(limbs[..])) % Pow(BASE, LIMBS)
  {
    hide Value, Pow, LowBits, TopBit, Words;
    ghost var before := limbs[..];
    var carry := 0;
    ghost var done: seq<nat> := [];
    NothingDoubled(before);
    for i := 0 to LIMBS
      invariant 0 <= carry <= 1 && |done| == i
      invariant forall j :: 0 <= j < i ==> limbs[j] == done[j]
      invariant forall j :: i <= j < LIMBS ==> limbs[j] == before[j]
      invariant Words(done) && Value(done) + carry * Pow(BASE, i) == 2 * Value(before[..i])
    {
      var next := TopBit(limbs[i]);
      var low := LowBits(limbs[i]);
      DoubleStep(done, before, carry, i);
      limbs[i] := low + carry;
      carry := next;
      done := done + [limbs[i]];
    }
    assert limbs[..] == done && before[..LIMBS] == before;
    ValueBound(done);
    DivisionIs(2 * Value(before), Pow(BASE, LIMBS), carry, Value(done));
  }

  lemma NothingDoubled(before: seq<nat>)
    ensures Words([]) && Value([]) == 0 && Value(before[..0]) == 0
  {}

  lemma LimbDoubles(x: nat)
    requires x < BASE
    ensures TopBit(x) <= 1 && LowBits(x) + BASE * TopBit(x) == 2 * x && LowBits(x) + 1 < BASE
  {}

  lemma DoubleStep(done: seq<nat>, before: seq<nat>, carry: nat, i: nat)
    requires i < |before| && |done| == i && Words(before) && Words(done) && carry <= 1
    requires Value(done) + carry * Pow(BASE, i) == 2 * Value(before[..i])
    ensures TopBit(before[i]) <= 1 && Words(done + [LowBits(before[i]) + carry])
    ensures Value(done + [LowBits(before[i]) + carry]) + TopBit(before[i]) * Pow(BASE, i + 1)
      == 2 * Value(before[..i + 1])
  {
    hide Value, Pow, LowBits, TopBit;
    var x := before[i];
    LimbDoubles(x);
    assert before[..i + 1] == before[..i] + [x];
    ValueAppend(done, [LowBits(x) + carry]);
    ValueAppend(before[..i], [x]);
    ValueSingle(LowBits(x) + carry);
    ValueSingle(x);
    PowNext(BASE, i);
    DoubleAlgebra(Value(done), carry, Pow(BASE, i), Value(before[..i]), LowBits(x), TopBit(x), x);
  }

  lemma DoubleAlgebra(vd: nat, carry: nat, p: nat, vb: nat, low: nat, next: nat, x: nat)
    requires vd + carry * p == 2 * vb && low + BASE * next == 2 * x
    ensures vd + p * (low + carry) + next * (BASE * p) == 2 * (vb + p * x)
  {
    MulDistributes(low, carry, p);
    MulDistributes(low, BASE * next, p);
    assert next * (BASE * p) == p * (BASE * next);
    assert p * (2 * x) == 2 * (p * x);
  }

  lemma ModTwice(x: nat, m: nat)
    requires m > 0
    ensures 2 * (x % m) % m == 2 * x % m
  {
    var q, r := x / m, x % m;
    assert x == q * m + r;
    assert 2 * (q * m) == (2 * q) * m;
    DivAddMultiple(2 * r, 2 * q, m);
  }

  /** v shifted left by k bits in a 384-bit register. */
  function Shifted(v: nat, k: nat): nat { v * Pow(2, k) % Pow(BASE, LIMBS) }

  method ShiftLeft(limbs: array<nat>, bits: nat)
    requires limbs.Length == LIMBS && Words(limbs[..])
    modifies limbs
    ensures Words(limbs[..]) && Value(limbs[..]) == Shifted(old(Value(limbs[..])), bits)
  {
    ghost var v := Value(limbs[..]);
    ShiftedByZero(limbs[..]);
    hide Value, Pow, Shifted;
    for k := 0 to bits
      invariant Words(limbs[..]) && Value(limbs[..]) == Shifted(v, k)
    {
      DoubleLimbs(limbs);
      DoubleModulo(v, k);
    }
  }

  lemma ShiftedByZero(s: seq<nat>)
    requires |s| == LIMBS && Words(s)
    ensures Shifted(Value(s), 0) == Value(s)
  {
    hide Value, Pow;
    ValueBound(s);
    PowZero(2);
    DivisionIs(Value(s), Pow(BASE, LIMBS), 0, Value(s));
  }

  lemma DoubleModulo(v: nat, k: nat)
    ensures 2 * Shifted(v, k) % Pow(BASE, LIMBS) == Shifted(v, k + 1)
  {
    hide Pow;
    ModTwice(v * Pow(2, k), Pow(BASE, LIMBS));
    TwiceProduct(v, Pow(2, k));
    PowNext(2, k);
  }

  lemma TwiceProduct(v: nat, p: nat)
    ensures 2 * (v * p) == v * (2 * p)
  {}

  /** One round of shift_right: every limb moves one bit down. */
  method HalveLimbs(limbs: array<nat>)
    requires limbs.Length == LIMBS && Words(limbs[..])
    modifies limbs
    ensures Words(limbs[..]) && Value(limbs[..]) == old(Value(limbs[..])) / 2
  {
    ghost var before := limbs[..];
    var carry := 0;
    var i := LIMBS;
    while i > 0
      invariant 0 <= i <= LIMBS && 0 <= carry <= 1
      invariant forall j :: 0 <= j < i ==> limbs[j] == before[j]
      invariant Words(limbs[i..])
      invariant 2 * Value(limbs[i..]) + carry == Value(before[i..])
    {
      i := i - 1;
      ghost var done := limbs[i + 1..];
      var next := limbs[i] % 2;
      limbs[i] := limbs[i] / 2 + carry * 0x8000_0000;
      carry := next;
      assert limbs[i..] == [limbs[i]] + done;
      assert before[i..] == [before[i]] + before[i + 1..];
    }
    assert limbs[0..] == limbs[..] && before[0..] == before;
  }

  method ShiftRight(limbs: array<nat>, bits: nat)
    requires limbs.Length == LIMBS && Words(limbs[..])
    modifies limbs
    ensures Words(limbs[..]) && Value(limbs[..]) == old(Value(limbs[..])) / Pow(2, bits)
  {
    ghost var v := Value(limbs[..]);
    PowZero(2);
    hide Value, Pow;
    for k := 0 to bits
      invariant Words(limbs[..]) && Value(limbs[..]) == v / Pow(2, k)
    {
      HalveLimbs(limbs);
      DivDiv(v, Pow(2, k), 2);
      PowNext(2, k);
    }
  }

  // ----- division -----

  function Bit(s: seq<nat>, bit: nat): nat
    requires bit < 32 * |s|
  {
    s[bit / 32] / Pow(2, bit % 32) % 2
  }

  /** The value above limb l, that limb included. */
  lemma UpperPart(s: seq<nat>, l: nat)
    requires Words(s) && l < |s|
    ensures Value(s) / Pow(BASE, l) == s[l] + BASE * Value(s[l + 1..])
  {
    hide Value, Pow;
    var upper := [s[l]] + s[l + 1..];
    assert s == s[..l] + upper;
    ValueAppend(s[..l], upper);
    ValueHead(s[l], s[l + 1..]);
    ValueBound(s[..l]);
    DivisionWith(Value(s), Pow(BASE, l), Value(upper), Value(s[..l]));
  }

  lemma ValueHead(x: nat, rest: seq<nat>)
    ensures Value([x] + rest) == x + BASE * Value(rest)
  {
    assert ([x] + rest)[1..] == rest;
  }

  lemma DivisionWith(n: nat, p: nat, q: nat, r: nat)
    requires p > 0 && n == r + p * q && r < p
    ensures n / p == q
  {
    assert p * q == q * p;
    DivisionIs(n, p, q, r);
  }

  /** Bit b is what the value gains between the truncations to b + 1 and to b bits. */
  lemma BitOfValue(s: seq<nat>, bit: nat)
    requires Words(s) && bit < 32 * |s|
    ensures Value(s) / Pow(2, bit) == 2 * (Value(s) / Pow(2, bit + 1)) + Bit(s, bit)
  {
    hide Value, Pow;
    var l, r := bit / 32, bit % 32;
    var v, high := Value(s), Value(s[l + 1..]);
    UpperPart(s, l);
    BasePower(l);
    PowAdd(2, 32 * l, r);
    DivDiv(v, Pow(BASE, l), Pow(2, r));
    assert v / Pow(2, bit) == (s[l] + BASE * high) / Pow(2, r);
    UpperBit(s[l], high, r);
    PowNext(2, bit);
    assert Pow(2, bit) * 2 == 2 * Pow(2, bit);
    DivDiv(v, Pow(2, bit), 2);
  }

  lemma UpperBit(x: nat, high: nat, r: nat)
    requires x < BASE && r < 32
    ensures (x + BASE * high) / Pow(2, r) % 2 == x / Pow(2, r) % 2
  {
    hide Pow;
    SplitBase(r);
    UpperAlgebra(x, high, Pow(2, r), Pow(2, 31 - r));
  }

  lemma UpperAlgebra(x: nat, high: nat, p: nat, h: nat)
    requires p > 0 && BASE == p * (2 * h)
    ensures (x + BASE * high) / p % 2 == x / p % 2
  {
    var k := h * high;
    Regroup(p, h, high);
    DivAddMultiple(x, 2 * k, p);
    assert 2 * k == k * 2;
    DivAddMultiple(x / p, k, 2);
  }

  lemma Regroup(p: nat, h: nat, high: nat)
    ensures (p * (2 * h)) * high == (2 * (h * high)) * p
  {
    MulAssoc(p, 2 * h, high);
    MulAssoc(2, h, high);
  }

  lemma SplitBase(r: nat)
    requires r < 32
    ensures BASE == Pow(2, r) * (2 * Pow(2, 31 - r))
  {
    PowOfTwo32();
    hide Pow;
    PowAdd(2, r, 32 - r);
    PowNext(2, 31 - r);
  }

  /** limb |= 1 << r */
  function OrBit(limb: nat, r: nat): nat {
    if limb / Pow(2, r) % 2 == 1 then limb else limb + Pow(2, r)
  }

  lemma RoomForBit(x: nat, r: nat)
    requires x < BASE && r < 32 && x / Pow(2, r) % 2 == 0
    ensures x + Pow(2, r) < BASE
  {
    hide Pow;
    SplitBase(r);
    Room(x, Pow(2, r), Pow(2, 31 - r));
  }

  lemma Room(x: nat, p: nat, h: nat)
    requires p > 0 && p * (2 * h) == BASE && x < BASE && x / p % 2 == 0
    ensures x + p < BASE
  {
    var q := x / p;
    assert q * p <= x < q * p + p;
    if q >= 2 * h { MulMono(2 * h, q, p); }
    assert q + 2 <= 2 * h;
    MulMono(q + 2, 2 * h, p);
    MulDistributes(q, 2, p);
  }

  /** A value q 2^(bit+1) has bit `bit` clear, and 2q above it. */
  lemma ClearBit(s: seq<nat>, bit: nat, q: nat)
    requires Words(s) && bit < 32 * |s| && Value(s) == q * Pow(2, bit + 1)
    ensures Bit(s, bit) == 0 && Value(s) == (2 * q) * Pow(2, bit)
  {
    hide Value, Pow, Bit;
    BitOfValue(s, bit);
    var p := Pow(2, bit);
    PowNext(2, bit);
    assert q * (2 * p) == (2 * q) * p;
    DivisionIs(Value(s), 2 * p, q, 0);
    DivisionIs(Value(s), p, 2 * q, 0);
  }

  /** Writing a bit that the quotient does not have yet adds its weight. */
  lemma SetQuotientBit(s: seq<nat>, bit: nat, q: nat)
    requires Words(s) && bit < 32 * |s| && Value(s) == q * Pow(2, bit + 1)
    ensures var t := s[bit / 32 := OrBit(s[bit / 32], bit % 32)];
      Words(t) && Value(t) == (2 * q + 1) * Pow(2, bit)
  {
    hide Value, Pow;
    var l, r := bit / 32, bit % 32;
    ClearBit(s, bit, q);
    RoomForBit(s[l], r);
    BasePower(l);
    PowAdd(2, 32 * l, r);
    ValueSet(s, l, Pow(2, r));
    MulDistributes(2 * q, 1, Pow(2, bit));
  }

  /** Restoring division by a 53-bit denominator: the quotient is the floor. */
  method Divide(numerator: seq<nat>, denominator: nat) returns (quotient: array<nat>)
    requires |numerator| == LIMBS && Words(numerator) && 0 < denominator < Pow(2, 53)
    ensures fresh(quotient) && quotient.Length == LIMBS && Words(quotient[..])
    ensures Value(quotient[..]) == Value(numerator) / denominator
  {
    hide Value, Pow, Bit, OrBit;
    quotient := new nat[LIMBS](i => 0);
    var remainder := 0;
    var bit := 32 * LIMBS;
    ghost var q := 0;
    DivideStart(numerator, quotient[..]);
    while bit > 0
      invariant 0 <= bit <= 32 * LIMBS && 0 <= remainder < denominator && 0 <= q
      invariant Words(quotient[..]) && Value(quotient[..]) == q * Pow(2, bit)
      invariant Value(numerator) / Pow(2, bit) == q * denominator + remainder
    {
      bit := bit - 1;
      remainder := 2 * remainder + Bit(numerator, bit);
      DivideStep(numerator, denominator, quotient[..], bit, q, remainder);
      if remainder >= denominator {
        remainder := remainder - denominator;
        ghost var before := quotient[..];
        quotient[bit / 32] := OrBit(quotient[bit / 32], bit % 32);
        assert quotient[..] == before[bit / 32 := OrBit(before[bit / 32], bit % 32)];
        q := 2 * q + 1;
      } else {
        q := 2 * q;
      }
    }
    PowZero(2);
    DivisionIs(Value(numerator), denominator, q, remainder);
  }

  lemma DivideStart(numerator: seq<nat>, quotient: seq<nat>)
    requires |numerator| == |quotient| == LIMBS && Words(numerator) && forall i :: 0 <= i < LIMBS ==> quotient[i] == 0
    ensures Value(quotient) == 0 && Value(numerator) / Pow(2, 32 * LIMBS) == 0
  {
    hide Value, Pow;
    ValueZeros(quotient);
    ValueBound(numerator);
    BasePower(LIMBS);
    DivisionIs(Value(numerator), Pow(2, 32 * LIMBS), 0, Value(numerator));
  }

  lemma DivideStep(numerator: seq<nat>, denominator: nat, quotient: seq<nat>, bit: nat, q: nat, remainder: nat)
    requires |numerator| == |quotient| == LIMBS && Words(numerator) && Words(quotient) && bit < 32 * LIMBS
    requires 0 < denominator < Pow(2, 53) && Value(quotient) == q * Pow(2, bit + 1)
    requires Bit(numerator, bit) <= remainder && remainder - Bit(numerator, bit) <= 2 * (denominator - 1)
    requires 2 * (Value(numerator) / Pow(2, bit + 1)) == 2 * (q * denominator) + remainder - Bit(numerator, bit)
    ensures Value(quotient) == (2 * q) * Pow(2, bit)
    ensures var t := quotient[bit / 32 := OrBit(quotient[bit / 32], bit % 32)];
      Words(t) && Value(t) == (2 * q + 1) * Pow(2, bit)
    ensures Value(numerator) / Pow(2, bit) == (2 * q) * denominator + remainder
    ensures (2 * q + 1) * denominator == (2 * q) * denominator + denominator
    ensures remainder < 2 * denominator && remainder < Pow(2, 64)
  {
    hide Value, Pow, Bit, OrBit;
    BitOfValue(numerator, bit);
    ClearBit(quotient, bit, q);
    SetQuotientBit(quotient, bit, q);
    MulDistributes(2 * q, 1, denominator);
    assert 2 * (q * denominator) == (2 * q) * denominator;
    WideEnough(denominator);
    BitSmall(numerator, bit);
  }

  lemma BitSmall(s: seq<nat>, bit: nat)
    requires bit < 32 * |s|
    ensures Bit(s, bit) <= 1
  {}

  /** The remainder register never overflows 64 bits. */
  lemma WideEnough(denominator: nat)
    requires denominator < Pow(2, 53)
    ensures 2 * denominator < Pow(2, 64)
  {
    hide Pow;
    PowAdd(2, 53, 11);
    PowNext(2, 10);
    MulMono(2, Pow(2, 11), Pow(2, 53));
  }

  // ----- bytes and limbs -----

  /** The four bytes of a limb, most significant first. */
  function LimbBytes(x: nat): (b: seq<Byte>)
    requires x < BASE
    ensures |b| == 4
  {
    [x / 0x1000000, x / 0x10000 % 256, x / 0x100 % 256, x % 256]
  }

  lemma LimbBytesValue(x: nat)
    requires x < BASE
    ensures BigEndian(LimbBytes(x)) == x
  {
    hide BigEndian;
    var b := LimbBytes(x);
    FourBytes(b[0], b[1], b[2], b[3]);
    assert b == [b[0], b[1], b[2], b[3]];
    LimbDigits(x);
  }

  lemma LimbDigits(x: nat)
    requires x < BASE
    ensures 0x1000000 * (x / 0x1000000) + 0x10000 * (x / 0x10000 % 256) + 0x100 * (x / 0x100 % 256) + x % 256 == x
  {
    assert x == 256 * (x / 0x100) + x % 256;
    assert x / 0x100 == 256 * (x / 0x10000) + x / 0x100 % 256;
    assert x / 0x10000 == 256 * (x / 0x1000000) + x / 0x10000 % 256;
  }

  lemma FourBytes(p: Byte, q: Byte, r: Byte, t: Byte)
    ensures BigEndian([p, q, r, t]) == 0x1000000 * p + 0x10000 * q + 0x100 * r + t
  {
    BigEndianSnoc([], p);
    BigEndianSnoc([p], q);
    BigEndianSnoc([p, q], r);
    BigEndianSnoc([p, q, r], t);
    assert [] + [p] == [p] && [p] + [q] == [p, q] && [p, q] + [r] == [p, q, r] && [p, q, r] + [t] == [p, q, r, t];
  }

  /** The bytes of a limb string, most significant first. */
  function AllBytes(limbs: seq<nat>): (b: seq<Byte>)
    requires Words(limbs)
    ensures |b| == 4 * |limbs|
  {
    if limbs == [] then [] else AllBytes(limbs[1..]) + LimbBytes(limbs[0])
  }

  lemma {:induction false} AllBytesValue(limbs: seq<nat>)
    requires Words(limbs)
    ensures BigEndian(AllBytes(limbs)) == Value(limbs)
  {
    hide BigEndian, Pow, LimbBytes;
    if limbs == [] {
      BigEndianZeros([]);
    } else {
      AllBytesValue(limbs[1..]);
      LimbBytesValue(limbs[0]);
      BigEndianAppend(AllBytes(limbs[1..]), LimbBytes(limbs[0]));
      LimbPower();
    }
  }

  lemma LimbPower()
    ensures Pow(256, 4) == BASE
  {
    assert Pow(256, 2) == 65536;
    PowAdd(256, 2, 2);
  }

  /** limb >> 8k, truncated to a byte. */
  function ByteOf(x: nat, k: nat): Byte
    requires k < 4
  {
    (if k == 0 then x else if k == 1 then x / 0x100 else if k == 2 then x / 0x10000 else x / 0x1000000) % 256
  }

  lemma {:induction false} AllBytesAt(limbs: seq<nat>, little: nat)
    requires Words(limbs) && little < 4 * |limbs|
    ensures AllBytes(limbs)[4 * |limbs| - 1 - little] == ByteOf(limbs[little / 4], little % 4)
  {
    if little >= 4 {
      AllBytesAt(limbs[1..], little - 4);
      assert limbs[1..][(little - 4) / 4] == limbs[little / 4];
    }
  }

  predicate IsTarget(t: seq<Byte>) { |t| == 32 }

  /** The byte loop of lower_target: byte 31 - k of the target is byte k of the limbs. */
  method WriteBytes(low: seq<nat>) returns (target: seq<Byte>)
    requires |low| == 8 && Words(low)
    ensures IsTarget(target) && BigEndian(target) == Value(low)
  {
    hide Value, BigEndian, AllBytes, ByteOf;
    var bytes := new Byte[32](k => 0);
    for little := 0 to 32
      invariant forall j :: 32 - little <= j < 32 ==> bytes[j] == AllBytes(low)[j]
    {
      AllBytesAt(low, little);
      bytes[31 - little] := ByteOf(low[little / 4], little % 4);
    }
    target := bytes[..];
    assert target == AllBytes(low);
    AllBytesValue(low);
  }

  /** lower_target: saturate at 2^256 - 1, otherwise write the low eight limbs big-endian. */
  method LowerTarget(limbs: seq<nat>) returns (target: seq<Byte>)
    requires |limbs| == LIMBS && Words(limbs)
    ensures IsTarget(target)
    ensures BigEndian(target) == Min(Value(limbs), MAX_TARGET)
  {
    hide Value, Pow, BigEndian, AllBytes;
    LowAndHigh(limbs);
    for i := 8 to LIMBS
      invariant forall j :: 8 <= j < i ==> limbs[j] == 0
    {
      if limbs[i] != 0 {
        target := seq(32, k => 255);
        AllOnes(target);
        HighLimb(limbs, i);
        return;
      }
    }
    target := WriteBytes(limbs[..8]);
    NoHighLimbs(limbs);
  }

  lemma LowAndHigh(limbs: seq<nat>)
    requires |limbs| == LIMBS && Words(limbs)
    ensures Value(limbs) == Value(limbs[..8]) + Pow(256, 32) * Value(limbs[8..])
    ensures Value(limbs[..8]) < Pow(256, 32)
  {
    hide Value, Pow;
    assert limbs == limbs[..8] + limbs[8..];
    ValueAppend(limbs[..8], limbs[8..]);
    ValueBound(limbs[..8]);
    BytePower();
  }

  lemma BytePower()
    ensures Pow(BASE, 8) == Pow(256, 32) == Pow(2, 256)
  {
    PowOfTwo32();
    hide Pow;
    BasePower(8);
    BytesInBits(32);
  }

  lemma {:induction false} BytesInBits(k: nat)
    ensures Pow(256, k) == Pow(2, 8 * k)
  {
    if k > 0 {
      BytesInBits(k - 1);
      PowOfTwo32();
      PowAdd(2, 8, 8 * (k - 1));
    }
  }

  lemma NoHighLimbs(limbs: seq<nat>)
    requires |limbs| == LIMBS && forall j :: 8 <= j < LIMBS ==> limbs[j] == 0
    ensures Value(limbs[8..]) == 0
  {
    ValueZeros(limbs[8..]);
  }

  lemma {:induction false} ValueAtLeast(s: seq<nat>, i: nat)
    requires i < |s| && s[i] > 0
    ensures Value(s) >= 1
  {
    if i > 0 { ValueAtLeast(s[1..], i - 1); }
  }

  lemma HighLimb(limbs: seq<nat>, i: nat)
    requires |limbs| == LIMBS && Words(limbs) && 8 <= i < LIMBS && limbs[i] != 0
    ensures Value(limbs) > MAX_TARGET
  {
    hide Value, Pow;
    LowAndHigh(limbs);
    ValueAtLeast(limbs[8..], i - 8);
    MulMono(1, Value(limbs[8..]), Pow(256, 32));
    assert Value(limbs[8..]) * Pow(256, 32) == Pow(256, 32) * Value(limbs[8..]);
  }

  lemma {:induction false} Ones(s: seq<Byte>)
    requires forall i :: 0 <= i < |s| ==> s[i] == 255
    ensures BigEndian(s) == Pow(256, |s|) - 1
  {
    if s != [] { Ones(s[..|s| - 1]); }
  }

  lemma AllOnes(s: seq<Byte>)
    requires |s| == 32 && forall i :: 0 <= i < |s| ==> s[i] == 255
    ensures BigEndian(s) == MAX_TARGET
  {
    Ones(s);
  }
}
