// The orders in which digests are compared: the byte loop of the miner and of the target test,
// the eight-word value of the scan, its leading zeros, and the text of the displayed hash
// (src/mining/cpu_miner.cpp, src/bitcoin/difficulty.cpp, src/research/header_space.cpp).
// All of them are the order of the little-endian number of the digest.
module HashOrders {
  import opened Arith
  import opened ByteNumbers
  import opened Targets
  import WorkUnits
  import WorkAllocation

  type Digest = d: seq<Byte> | |d| == 32 witness seq(32, i => 0)

  // ----- digit strings, most significant first -----

  function Number(base: nat, s: seq<nat>): nat {
    if s == [] then 0 else base * Number(base, s[..|s| - 1]) + s[|s| - 1]
  }

  predicate Digits(base: nat, s: seq<nat>) { forall i :: 0 <= i < |s| ==> s[i] < base }

  /** Lexicographic order of strings of the same length: operator< of std::array. */
  predicate Precedes(s: seq<nat>, t: seq<nat>)
    requires |s| == |t|
  {
    s != [] && (s[0] < t[0] || (s[0] == t[0] && Precedes(s[1..], t[1..])))
  }

  lemma {:induction false} NumberBound(base: nat, s: seq<nat>)
    requires base > 0 && Digits(base, s)
    ensures Number(base, s) < Pow(base, |s|)
  {
    if s != [] {
      NumberBound(base, s[..|s| - 1]);
      MulMono(Number(base, s[..|s| - 1]) + 1, Pow(base, |s| - 1), base);
      MulDistributes(Number(base, s[..|s| - 1]), 1, base);
    }
  }

  lemma {:induction false} LeadingDigit(base: nat, s: seq<nat>)
    requires s != []
    ensures Number(base, s) == s[0] * Pow(base, |s| - 1) + Number(base, s[1..])
  {
    var r, last := s[..|s| - 1], s[|s| - 1];
    if r == [] {
      assert Number(base, s[1..]) == 0 && Number(base, []) == 0;
      PowZero(base);
    } else {
      LeadingDigit(base, r);
      assert r[1..] == s[1..][..|s[1..]| - 1];
      Rescale(base, s[0], Pow(base, |r| - 1), Number(base, r[1..]), last);
    }
  }

  lemma Rescale(base: nat, x: nat, p: nat, y: nat, last: nat)
    ensures base * (x * p + y) + last == x * (base * p) + (base * y + last)
  {}

  /** Lexicographic order is numeric order. */
  lemma {:induction false} OrderIsNumeric(base: nat, s: seq<nat>, t: seq<nat>)
    requires base > 0 && |s| == |t| && Digits(base, s) && Digits(base, t)
    ensures Precedes(s, t) <==> Number(base, s) < Number(base, t)
  {
    hide Number, Pow;
    if s != [] {
      LeadingDigit(base, s);
      LeadingDigit(base, t);
      NumberBound(base, s[1..]);
      NumberBound(base, t[1..]);
      var p := Pow(base, |s| - 1);
      if s[0] < t[0] {
        PrefixDecides(s[0], t[0], p, Number(base, s[1..]), Number(base, t[1..]));
      } else if t[0] < s[0] {
        PrefixDecides(t[0], s[0], p, Number(base, t[1..]), Number(base, s[1..]));
      } else {
        OrderIsNumeric(base, s[1..], t[1..]);
      }
    }
  }

  lemma {:induction false} NumberInjective(base: nat, s: seq<nat>, t: seq<nat>)
    requires base > 0 && |s| == |t| && Digits(base, s) && Digits(base, t) && Number(base, s) == Number(base, t)
    ensures s == t
  {
    if s != [] {
      var r, q := s[..|s| - 1], t[..|t| - 1];
      assert base * Number(base, r) == Number(base, r) * base && base * Number(base, q) == Number(base, q) * base;
      DivisionIs(Number(base, s), base, Number(base, r), s[|s| - 1]);
      DivisionIs(Number(base, t), base, Number(base, q), t[|t| - 1]);
      NumberInjective(base, r, q);
      assert s == r + [s[|s| - 1]] && t == q + [t[|t| - 1]];
    }
  }

  // ----- the byte loops -----

  /** Two byte strings of the same length that differ first at k. */
  lemma DifferAt(s: seq<Byte>, t: seq<Byte>, k: nat)
    requires |s| == |t| && k < |s| && s[..k] == t[..k] && s[k] != t[k]
    ensures BigEndian(s) < BigEndian(t) <==> s[k] < t[k]
    ensures BigEndian(s) != BigEndian(t)
  {
    hide BigEndian;
    if s[k] < t[k] { FirstDifference(s, t, k); } else { FirstDifference(t, s, k); }
  }

  /** better_hash: the candidate has the smaller number. */
  method BetterHash(candidate: Digest, best: Digest) returns (better: bool)
    ensures better <==> LittleEndian(candidate) < LittleEndian(best)
  {
    hide BigEndian;
    ghost var s, t := Reversed(candidate), Reversed(best);
    for i := 0 to 32
      invariant s[..i] == t[..i]
    {
      var left := candidate[31 - i];
      var right := best[31 - i];
      if left != right {
        DifferAt(s, t, i);
        return left < right;
      }
    }
    assert s == s[..32] && t == t[..32];
    better := false;
  }

  /** hash_meets_target: the number of the digest is at most the target. */
  method HashMeetsTarget(digest: Digest, target: seq<Byte>) returns (meets: bool)
    requires IsTarget(target)
    ensures meets <==> LittleEndian(digest) <= BigEndian(target)
  {
    hide BigEndian;
    ghost var s := Reversed(digest);
    for i := 0 to 32
      invariant s[..i] == target[..i]
    {
      var hashByte := digest[31 - i];
      if hashByte < target[i] { DifferAt(s, target, i); return true; }
      if hashByte > target[i] { DifferAt(s, target, i); return false; }
    }
    assert s == s[..32] && target == target[..32];
    meets := true;
  }

  // ----- the eight-word value -----

  predicate IsPowValue(v: seq<nat>) { |v| == 8 && Digits(BASE, v) }

  const ALL_ONES: seq<nat> :=
    [0xffff_ffff, 0xffff_ffff, 0xffff_ffff, 0xffff_ffff, 0xffff_ffff, 0xffff_ffff, 0xffff_ffff, 0xffff_ffff]

  /** pow_value: the words carry the number of the digest. */
  method PowValue(digest: Digest) returns (value: seq<nat>)
    ensures IsPowValue(value) && Number(BASE, value) == LittleEndian(digest)
  {
    hide BigEndian, Number;
    var words := new nat[8](i => 0);
    ghost var r := Reversed(digest);
    EmptyNumbers(r, words[..]);
    for word := 0 to 8
      invariant Digits(BASE, words[..word])
      invariant Number(BASE, words[..word]) == BigEndian(r[..4 * word])
    {
      var last := 31 - 4 * word;
      ghost var done := words[..word];
      var b3: nat, b2: nat, b1: nat, b0: nat := digest[last], digest[last - 1], digest[last - 2], digest[last - 3];
      words[word] := 0x1000000 * b3 + 0x10000 * b2 + 0x100 * b1 + b0;
      ghost var at := 4 * word;
      assert r[..at + 4] == r[..at] + [r[at], r[at + 1], r[at + 2], r[at + 3]];
      WordStep(done, r[..at], r[at], r[at + 1], r[at + 2], r[at + 3]);
      assert words[..word + 1] == done + [words[word]];
    }
    value := words[..];
    assert value == words[..8] && r == r[..32];
  }

  lemma EmptyNumbers(r: seq<Byte>, words: seq<nat>)
    ensures BigEndian(r[..0]) == 0 && Number(BASE, words[..0]) == 0
  {}

  lemma WordStep(done: seq<nat>, bytes: seq<Byte>, p: Byte, q: Byte, r: Byte, t: Byte)
    requires Number(BASE, done) == BigEndian(bytes)
    ensures Number(BASE, done + [0x1000000 * p + 0x10000 * q + 0x100 * r + t]) == BigEndian(bytes + [p, q, r, t])
  {
    hide BigEndian, Pow, Number;
    FourBytes(p, q, r, t);
    BigEndianAppend(bytes, [p, q, r, t]);
    NumberSnoc(done, 0x1000000 * p + 0x10000 * q + 0x100 * r + t);
    LimbPower();
    assert |[p, q, r, t]| == 4;
  }

  lemma NumberSnoc(s: seq<nat>, x: nat)
    ensures Number(BASE, s + [x]) == BASE * Number(BASE, s) + x
  {
    assert (s + [x])[..|s + [x]| - 1] == s;
  }

  /** The value order, with ties broken by the nonce, is the order of one number. */
  function Key(value: seq<nat>, nonce: nat): nat { Number(BASE, value) * BASE + nonce }

  predicate MinimumPrecedes(left: seq<nat>, leftNonce: nat, right: seq<nat>, rightNonce: nat)
    requires |left| == |right|
  {
    if Precedes(left, right) then true
    else if Precedes(right, left) then false
    else leftNonce < rightNonce
  }

  lemma MinimumIsKeyOrder(left: seq<nat>, leftNonce: nat, right: seq<nat>, rightNonce: nat)
    requires IsPowValue(left) && IsPowValue(right) && leftNonce < BASE && rightNonce < BASE
    ensures MinimumPrecedes(left, leftNonce, right, rightNonce) <==> Key(left, leftNonce) < Key(right, rightNonce)
    ensures Key(left, leftNonce) == Key(right, rightNonce) <==> left == right && leftNonce == rightNonce
  {
    hide Number, Precedes;
    OrderIsNumeric(BASE, left, right);
    OrderIsNumeric(BASE, right, left);
    var x, y := Number(BASE, left), Number(BASE, right);
    if x == y { NumberInjective(BASE, left, right); }
  }

  // ----- leading zeros -----

  /** std::countl_zero of a word of `bits` bits. */
  function CountlZero(w: nat, bits: nat): nat {
    if bits == 0 || w >= Pow(2, bits - 1) then 0 else 1 + CountlZero(w, bits - 1)
  }

  lemma {:induction false} CountlZeroIs(w: nat, bits: nat, t: nat)
    requires w < Pow(2, bits) && t <= bits
    ensures CountlZero(w, bits) <= bits
    ensures t <= CountlZero(w, bits) <==> w < Pow(2, bits - t)
  {
    if t == 0 {
      if bits > 0 && w < Pow(2, bits - 1) { CountlZeroIs(w, bits - 1, 0); }
    } else if w >= Pow(2, bits - 1) {
      PowGrows(bits - t, bits - 1);
    } else {
      CountlZeroIs(w, bits - 1, t - 1);
    }
  }

  /** z counts the leading zero bits of an n of `width` bits: it reaches t exactly when n < 2^(width - t). */
  ghost predicate LeadingZeros(n: nat, width: nat, z: nat) {
    z <= width && forall t: nat | t <= width :: Decides(n, width, z, t)
  }

  predicate Decides(n: nat, width: nat, z: nat, t: nat)
    requires t <= width
  {
    t <= z <==> n < Pow(2, width - t)
  }

  /** Zero words in front only shift the count; the first other word ends it. */
  lemma ZerosThenWord(value: seq<nat>, i: nat)
    requires IsPowValue(value) && i < 8 && Number(BASE, value[..i]) == 0
    ensures var z := CountlZero(value[i], 32);
      z <= 32 && LeadingZeros(Number(BASE, value[..i + 1]), 32 * (i + 1), 32 * i + z)
  {
    assert value[..i + 1] == value[..i] + [value[i]];
    NumberSnoc(value[..i], value[i]);
    hide Number, CountlZero, Pow, Decides;
    PowOfTwo32();
    CountlZeroIs(value[i], 32, 0);
    var width, z := 32 * (i + 1), 32 * i + CountlZero(value[i], 32);
    forall t: nat | t <= width
      ensures Decides(value[i], width, z, t)
    {
      WordDecides(value[i], i, t);
    }
  }

  lemma WordDecides(w: nat, i: nat, t: nat)
    requires w < Pow(2, 32) && t <= 32 * (i + 1)
    ensures Decides(w, 32 * (i + 1), 32 * i + CountlZero(w, 32), t)
  {
    hide CountlZero, Pow;
    if t < 32 * i {
      PowGrows(32, 32 * (i + 1) - t);
    } else {
      CountlZeroIs(w, 32, t - 32 * i);
    }
  }

  /** Words after the first nonzero one do not change the count. */
  lemma LowWordsIgnored(value: seq<nat>, i: nat, z: nat)
    requires IsPowValue(value) && i < 8 && LeadingZeros(Number(BASE, value[..i + 1]), 32 * (i + 1), z)
    requires z < 32 * (i + 1) || i == 7
    ensures LeadingZeros(Number(BASE, value), 256, z)
  {
    hide Number, Pow, Decides;
    var high, low := value[..i + 1], value[i + 1..];
    assert value == high + low;
    NumberAppend(high, low);
    NumberBound(BASE, low);
    BasePower(7 - i);
    var width, rest := 32 * (i + 1), 32 * (7 - i);
    forall t: nat | t <= 256
      ensures Decides(Number(BASE, value), 256, z, t)
    {
      assert t <= width ==> Decides(Number(BASE, high), width, z, t);
      assert Decides(Number(BASE, high), width, z, width);
      LowDecides(Number(BASE, high), Number(BASE, low), width, rest, z, t);
    }
  }

  lemma LowDecides(h: nat, l: nat, width: nat, rest: nat, z: nat, t: nat)
    requires l < Pow(2, rest) && t <= width + rest && z <= width && (z < width || rest == 0)
    requires t <= width ==> Decides(h, width, z, t)
    requires Decides(h, width, z, width)
    ensures Decides(h * Pow(2, rest) + l, width + rest, z, t)
  {
    hide Pow;
    PowZero(2);
    if t <= width {
      PowAdd(2, width - t, rest);
      BelowMultiple(h, l, Pow(2, rest), Pow(2, width - t));
    } else {
      MulMono(1, h, Pow(2, rest));
      PowGrows(width + rest - t, rest);
    }
  }

  lemma BelowMultiple(h: nat, l: nat, p: nat, k: nat)
    requires l < p
    ensures h * p + l < k * p <==> h < k
  {
    if h < k { MulMono(h + 1, k, p); MulDistributes(h, 1, p); } else { MulMono(k, h, p); }
  }

  lemma {:induction false} NumberAppend(s: seq<nat>, t: seq<nat>)
    ensures Number(BASE, s + t) == Number(BASE, s) * Pow(BASE, |t|) + Number(BASE, t)
  {
    if t == [] {
      assert s + t == s;
      PowZero(BASE);
    } else {
      var r := t[..|t| - 1];
      assert (s + t)[..|s + t| - 1] == s + r;
      NumberAppend(s, r);
      hide Pow;
      PowNext(BASE, |r|);
      Rescale(BASE, Number(BASE, s), Pow(BASE, |r|), Number(BASE, r), t[|t| - 1]);
    }
  }

  /** leading_zero_bits */
  method LeadingZeroBits(value: seq<nat>) returns (total: nat)
    requires IsPowValue(value)
    ensures LeadingZeros(Number(BASE, value), 256, total)
  {
    hide Number, CountlZero, LeadingZeros, Pow;
    total := 0;
    NumberOfNone(value);
    var i := 0;
    while i < 8
      invariant 0 <= i <= 8 && total == 32 * i && Number(BASE, value[..i]) == 0
      invariant i == 8 ==> LeadingZeros(Number(BASE, value), 256, total)
    {
      var zeros := CountlZero(value[i], 32);
      ZerosThenWord(value, i);
      total := total + zeros;
      if zeros != 32 {
        LowWordsIgnored(value, i, total);
        return;
      }
      AllZero(value[..i + 1], 32 * (i + 1));
      if i == 7 { LowWordsIgnored(value, i, total); }
      i := i + 1;
    }
  }

  lemma NumberOfNone(value: seq<nat>)
    ensures Number(BASE, value[..0]) == 0
  {}

  lemma AllZero(s: seq<nat>, width: nat)
    requires LeadingZeros(Number(BASE, s), width, width)
    ensures Number(BASE, s) == 0
  {
    hide Number;
    PowZero(2);
    assert Decides(Number(BASE, s), width, width, width);
  }

  datatype Checked = Answer(holds: bool) | BadThreshold

  /** below_power_of_two_threshold is the comparison its name announces. */
  method BelowPowerOfTwoThreshold(value: seq<nat>, bits: nat) returns (r: Checked)
    requires IsPowValue(value)
    ensures r.BadThreshold? <==> bits == 0 || bits > 256
    ensures r.Answer? ==> (r.holds <==> Number(BASE, value) < Pow(2, 256 - bits))
  {
    hide Number, Pow;
    if bits == 0 || bits > 256 { return BadThreshold; }
    var zeros := LeadingZeroBits(value);
    assert Decides(Number(BASE, value), 256, zeros, bits);
    r := Answer(zeros >= bits);
  }

  const TAILS: seq<nat> := [26, 28, 30, 32, 34, 36, 38]

  /** classify_tail: one for every threshold the value is below. */
  method ClassifyTail(value: seq<nat>) returns (counts: seq<nat>)
    requires IsPowValue(value)
    ensures |counts| == |TAILS| == 7
    ensures forall i :: 0 <= i < |TAILS| ==>
      TAILS[i] == 26 + 2 * i && counts[i] == if Number(BASE, value) < Pow(2, 256 - TAILS[i]) then 1 else 0
  {
    hide Number, Pow;
    var zeros := LeadingZeroBits(value);
    forall i | 0 <= i < |TAILS|
      ensures zeros >= TAILS[i] <==> Number(BASE, value) < Pow(2, 256 - TAILS[i])
    {
      assert Decides(Number(BASE, value), 256, zeros, TAILS[i]);
    }
    counts := seq(|TAILS|, i requires 0 <= i < |TAILS| => if zeros >= TAILS[i] then 1 else 0);
  }

  // ----- the displayed text -----

  /** to_hex */
  method ToHex(bytes: seq<Byte>) returns (text: string)
    ensures text == WorkUnits.Hex(BigEndian(bytes), 2 * |bytes|)
  {
    hide BigEndian, WorkUnits.Hex;
    text := "";
    NoText(bytes);
    for i := 0 to |bytes|
      invariant text == WorkUnits.Hex(BigEndian(bytes[..i]), 2 * i)
    {
      HexOfByte(bytes[..i], bytes[i]);
      assert bytes[..i + 1] == bytes[..i] + [bytes[i]];
      text := text + [WorkUnits.Digit(bytes[i] / 16), WorkUnits.Digit(bytes[i] % 16)];
    }
    assert bytes[..|bytes|] == bytes;
  }

  lemma NoText(bytes: seq<Byte>)
    ensures WorkUnits.Hex(BigEndian(bytes[..0]), 0) == ""
  {}

  lemma HexOfByte(s: seq<Byte>, b: Byte)
    ensures WorkUnits.Hex(BigEndian(s + [b]), 2 * |s| + 2)
      == WorkUnits.Hex(BigEndian(s), 2 * |s|) + [WorkUnits.Digit(b / 16), WorkUnits.Digit(b % 16)]
  {
    hide BigEndian, WorkUnits.Hex, WorkUnits.Digit;
    BigEndianSnoc(s, b);
    HexOfPair(BigEndian(s), b, 2 * |s|);
  }

  lemma HexOfPair(high: nat, b: Byte, width: nat)
    ensures WorkUnits.Hex(256 * high + b, width + 2)
      == WorkUnits.Hex(high, width) + [WorkUnits.Digit(b / 16), WorkUnits.Digit(b % 16)]
  {
    var n, m := 256 * high + b, 16 * high + b / 16;
    assert n / 16 == m && n % 16 == b % 16 && m / 16 == high && m % 16 == b / 16;
    var p, q := WorkUnits.Digit(b / 16), WorkUnits.Digit(b % 16);
    assert WorkUnits.Hex(n, width + 2) == WorkUnits.Hex(m, width + 1) + [q];
    assert WorkUnits.Hex(m, width + 1) == WorkUnits.Hex(high, width) + [p];
    assert [p] + [q] == [p, q];
  }

  /** bitcoin_hash_hex: the reversed digest in hex. */
  method BitcoinHashHex(digest: Digest) returns (text: string)
    ensures text == WorkUnits.Hex(LittleEndian(digest), 64)
  {
    text := ToHex(Reversed(digest));
  }

  lemma {:induction false} TextSnoc(s: string, t: string, c: char, d: char)
    requires |s| == |t|
    ensures WorkAllocation.TextLess(s + [c], t + [d]) <==> WorkAllocation.TextLess(s, t) || (s == t && c < d)
  {
    if s != [] {
      assert (s + [c])[1..] == s[1..] + [c] && (t + [d])[1..] == t[1..] + [d];
      TextSnoc(s[1..], t[1..], c, d);
      assert s == [s[0]] + s[1..] && t == [t[0]] + t[1..];
    }
  }

  lemma DigitOrder(a: nat, b: nat)
    requires a < 16 && b < 16
    ensures WorkUnits.Digit(a) < WorkUnits.Digit(b) <==> a < b
  {}

  /** Hexadecimal texts of one width compare as the numbers they show. */
  lemma {:induction false} HexOrder(a: nat, b: nat, width: nat)
    requires a < Pow(16, width) && b < Pow(16, width)
    ensures WorkAllocation.TextLess(WorkUnits.Hex(a, width), WorkUnits.Hex(b, width)) <==> a < b
  {
    if width > 0 {
      HexOrder(a / 16, b / 16, width - 1);
      var s, t := WorkUnits.Hex(a / 16, width - 1), WorkUnits.Hex(b / 16, width - 1);
      WorkUnits.HexLength(a / 16, width - 1);
      WorkUnits.HexLength(b / 16, width - 1);
      hide WorkAllocation.TextLess;
      TextSnoc(s, t, WorkUnits.Digit(a % 16), WorkUnits.Digit(b % 16));
      DigitOrder(a % 16, b % 16);
      if s == t { WorkUnits.HexInjective(a / 16, b / 16, width - 1); }
    }
  }

  /** The best_hash texts the allocator compares order digests as the miner does, and as the
      eight-word values of the scan do. */
  lemma OrdersAgree(a: Digest, b: Digest, va: seq<nat>, vb: seq<nat>)
    requires IsPowValue(va) && Number(BASE, va) == LittleEndian(a)
    requires IsPowValue(vb) && Number(BASE, vb) == LittleEndian(b)
    ensures WorkAllocation.TextLess(WorkUnits.Hex(LittleEndian(a), 64), WorkUnits.Hex(LittleEndian(b), 64))
      <==> LittleEndian(a) < LittleEndian(b)
    ensures Precedes(va, vb) <==> LittleEndian(a) < LittleEndian(b)
    ensures LittleEndian(a) == LittleEndian(b) <==> a == b
  {
    hide BigEndian, Number, Precedes, Pow, WorkUnits.Hex, WorkAllocation.TextLess;
    BigEndianBound(Reversed(a));
    BigEndianBound(Reversed(b));
    SixtyFourDigits();
    HexOrder(LittleEndian(a), LittleEndian(b), 64);
    OrderIsNumeric(BASE, va, vb);
    if LittleEndian(a) == LittleEndian(b) {
      BigEndianInjective(Reversed(a), Reversed(b));
      assert a == Reversed(Reversed(a)) == Reversed(Reversed(b)) == b;
    }
  }

  lemma SixtyFourDigits()
    ensures Pow(256, 32) == Pow(16, 64)
  {
    WorkUnits.CapacityIsHexRange(32);
  }
}
