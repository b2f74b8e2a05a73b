// Work units, their identifiers and the extranonce2 encoding
// (include/mining/work_allocator.h and src/mining/work_allocator.cpp).
module WorkUnits {
  import opened Arith

  datatype Option<+T> = None | Some(value: T)

  datatype Status = Pending | InProgress | Complete | Stale
  datatype Kind = Cpu | Gpu

  /** One nonce range [nonceStart, nonceEnd) of one extranonce2; nonceNext is the published cursor. */
  datatype WorkUnit = WorkUnit(
    id: string, jobId: string, prevhash: string, extranonce2: string,
    nonceStart: nat, nonceEnd: nat, nonceNext: nat,
    status: Status, worker: Kind, generation: nat,
    hashesTested: nat, bestHash: string, bestNonce: Option<nat>)
  {
    predicate Open() { status == Pending || status == InProgress }
  }

  const NONCE_SPACE: nat := BASE

  // ----- text encodings -----

  function Digit(d: nat): (c: char)
    requires d < 16
  {
    "0123456789abcdef"[d]
  }

  /** std::to_string of an unsigned integer. */
  function Decimal(n: nat): (s: string) {
    if n < 10 then [Digit(n)] else Decimal(n / 10) + [Digit(n % 10)]
  }

  /** Lower-case hexadecimal, zero filled to exactly `width` digits. */
  function Hex(value: nat, width: nat): (s: string) {
    if width == 0 then "" else Hex(value / 16, width - 1) + [Digit(value % 16)]
  }

  datatype EncodeError = SizeUnsupported | CounterExhausted
  datatype Encoded = Text(text: string) | Failed(error: EncodeError)

  /** The number of extranonce2 values of the given byte size. */
  function Capacity(size: nat): nat { Pow(256, size) }

  function EncodeExtranonce2(value: nat, size: nat): Encoded {
    if size == 0 then Text("")
    else if size > 8 then Failed(SizeUnsupported)
    else if size < 8 && value >= Capacity(size) then Failed(CounterExhausted)
    else Text(Hex(value, 2 * size))
  }

  lemma DigitInjective(a: nat, b: nat)
    requires a < 16 && b < 16 && Digit(a) == Digit(b)
    ensures a == b
  {}

  lemma {:induction false} HexInjective(a: nat, b: nat, width: nat)
    requires a < Pow(16, width) && b < Pow(16, width)
    requires Hex(a, width) == Hex(b, width)
    ensures a == b
  {
    if width > 0 {
      var ha, hb := Hex(a / 16, width - 1), Hex(b / 16, width - 1);
      HexLength(a / 16, width - 1);
      HexLength(b / 16, width - 1);
      assert Hex(a, width)[..width - 1] == ha && Hex(b, width)[..width - 1] == hb;
      assert Hex(a, width)[width - 1] == Digit(a % 16) && Hex(b, width)[width - 1] == Digit(b % 16);
      HexInjective(a / 16, b / 16, width - 1);
      DigitInjective(a % 16, b % 16);
    }
  }

  lemma {:induction false} HexLength(a: nat, width: nat)
    ensures |Hex(a, width)| == width
  {
    if width > 0 { HexLength(a / 16, width - 1); }
  }

  lemma {:induction false} CapacityIsHexRange(size: nat)
    ensures Capacity(size) == Pow(16, 2 * size)
  {
    if size > 0 {
      CapacityIsHexRange(size - 1);
      assert Pow(16, 2 * size) == 16 * Pow(16, 2 * size - 1) == 16 * (16 * Pow(16, 2 * size - 2));
    }
  }

  lemma CapacityOfEight()
    ensures Capacity(8) == U64
  {
    assert Pow(256, 2) == 65536;
    assert Pow(256, 4) == BASE by { PowAdd(256, 2, 2); }
    PowAdd(256, 4, 4);
  }

  /** Distinct counters below the capacity have distinct extranonce2 texts. */
  lemma EncodeInjective(a: nat, b: nat, size: nat)
    requires a < Capacity(size) && b < Capacity(size)
    requires Hex(a, 2 * size) == Hex(b, 2 * size)
    ensures a == b
  {
    CapacityIsHexRange(size);
    HexInjective(a, b, 2 * size);
  }

  // ----- unit identifiers -----

  predicate NoDash(s: string) { forall i :: 0 <= i < |s| ==> s[i] != '-' }

  lemma {:induction false} DecimalNoDash(n: nat)
    ensures NoDash(Decimal(n))
  {
    if n >= 10 { DecimalNoDash(n / 10); }
  }

  lemma {:induction false} HexNoDash(n: nat, width: nat)
    ensures NoDash(Hex(n, width))
  {
    if width > 0 { HexNoDash(n / 16, width - 1); }
  }

  lemma {:induction false} DecimalInjective(a: nat, b: nat)
    requires Decimal(a) == Decimal(b)
    ensures a == b
    decreases a
  {
    DecimalNonempty(a / 10);
    DecimalNonempty(b / 10);
    assert |Decimal(a)| == 1 <==> a < 10;
    if a < 10 {
      DigitInjective(a, b);
    } else {
      var da, db := Decimal(a / 10), Decimal(b / 10);
      assert Decimal(a)[..|Decimal(a)| - 1] == da && Decimal(b)[..|Decimal(b)| - 1] == db;
      assert Decimal(a)[|Decimal(a)| - 1] == Digit(a % 10) && Decimal(b)[|Decimal(b)| - 1] == Digit(b % 10);
      DecimalInjective(a / 10, b / 10);
      DigitInjective(a % 10, b % 10);
    }
  }

  lemma DecimalNonempty(n: nat)
    ensures |Decimal(n)| > 0
  {}

  /** A dash-free field is delimited by the first dash. */
  lemma DashSplits(a: string, x: string, b: string, y: string)
    requires NoDash(a) && NoDash(b)
    requires a + "-" + x == b + "-" + y
    ensures a == b && x == y
  {
    var s, t := a + "-" + x, b + "-" + y;
    assert s[|a|] == '-' && t[|b|] == '-';
    assert |a| >= |b| && |b| >= |a|;
    assert s[..|a|] == a && t[..|b|] == b;
    assert s[|a| + 1..] == x && t[|b| + 1..] == y;
  }

  lemma PrefixCancels(p: string, x: string, y: string)
    requires p + x == p + y
    ensures x == y
  {
    assert (p + x)[|p|..] == x && (p + y)[|p|..] == y;
  }

  /** Where a unit came from: the first layout of a job, or a later extranonce2 group. */
  datatype Origin =
    | FirstLayout(generation: nat, kind: Kind, index: nat)
    | LaterGroup(generation: nat, counter: nat, kind: Kind, index: nat)
  {
    /** The extranonce2 counter the unit searches (create_units gives CPU 0 and GPU 1). */
    function Counter(): nat {
      match this
      case FirstLayout(_, kind, _) => if kind.Cpu? then 0 else 1
      case LaterGroup(_, counter, _, _) => counter
    }
  }

  function Tail(o: Origin, size: nat): string {
    match o
    case FirstLayout(_, Cpu, index) => "cpu-" + Decimal(index)
    case FirstLayout(_, Gpu, index) => "gpu-0"
    case LaterGroup(_, counter, Cpu, index) => "x" + Hex(counter, 2 * size) + "-cpu-" + Decimal(index)
    case LaterGroup(_, counter, Gpu, index) => "x" + Hex(counter, 2 * size) + "-gpu"
  }

  function UnitId(job: string, size: nat, o: Origin): string {
    job + "-g" + Decimal(o.generation) + "-" + Tail(o, size)
  }

  predicate SameUnit(o: Origin, p: Origin) {
    o.Counter() == p.Counter() && o.kind == p.kind && (o.kind.Cpu? ==> o.index == p.index)
  }

  /** An identifier determines which extranonce2 counter, worker kind and slice it names,
      whatever generations the two units were created in. */
  lemma UnitIdInjective(job: string, size: nat, o: Origin, p: Origin)
    requires o.Counter() < Capacity(size) && p.Counter() < Capacity(size)
    requires UnitId(job, size, o) == UnitId(job, size, p)
    ensures SameUnit(o, p)
  {
    hide Hex, Decimal;
    var od, pd := Decimal(o.generation), Decimal(p.generation);
    var ot, pt := Tail(o, size), Tail(p, size);
    assert UnitId(job, size, o) == (job + "-g") + (od + "-" + ot);
    assert UnitId(job, size, p) == (job + "-g") + (pd + "-" + pt);
    PrefixCancels(job + "-g", od + "-" + ot, pd + "-" + pt);
    DecimalNoDash(o.generation);
    DecimalNoDash(p.generation);
    DashSplits(od, ot, pd, pt);
    TailInjective(size, o, p);
  }

  lemma TailInjective(size: nat, o: Origin, p: Origin)
    requires o.Counter() < Capacity(size) && p.Counter() < Capacity(size)
    requires Tail(o, size) == Tail(p, size)
    ensures SameUnit(o, p)
  {
    hide Hex, Decimal;
    var s, t := Tail(o, size), Tail(p, size);
    assert s[0] == (if o.LaterGroup? then 'x' else if o.kind.Cpu? then 'c' else 'g');
    assert t[0] == (if p.LaterGroup? then 'x' else if p.kind.Cpu? then 'c' else 'g');
    if o.FirstLayout? {
      if o.kind.Cpu? {
        PrefixCancels("cpu-", Decimal(o.index), Decimal(p.index));
        DecimalInjective(o.index, p.index);
      }
    } else {
      var oh, ph := Hex(o.counter, 2 * size), Hex(p.counter, 2 * size);
      var os := if o.kind.Cpu? then "cpu-" + Decimal(o.index) else "gpu";
      var ps := if p.kind.Cpu? then "cpu-" + Decimal(p.index) else "gpu";
      assert s == ("x" + oh) + "-" + os && t == ("x" + ph) + "-" + ps;
      HexNoDash(o.counter, 2 * size);
      HexNoDash(p.counter, 2 * size);
      DashSplits("x" + oh, os, "x" + ph, ps);
      PrefixCancels("x", oh, ph);
      EncodeInjective(o.counter, p.counter, size);
      assert os[0] == (if o.kind.Cpu? then 'c' else 'g');
      assert ps[0] == (if p.kind.Cpu? then 'c' else 'g');
      if o.kind.Cpu? {
        PrefixCancels("cpu-", Decimal(o.index), Decimal(p.index));
        DecimalInjective(o.index, p.index);
      }
    }
  }

  // ----- slicing the nonce space -----

  /** Slice i of [0, 2^32) cut into `count` slices starts here. */
  function SliceStart(i: nat, count: nat): nat
    requires count > 0
  {
    NONCE_SPACE * i / count
  }

  lemma SliceMonotone(i: nat, j: nat, count: nat)
    requires count > 0 && i <= j
    ensures SliceStart(i, count) <= SliceStart(j, count)
  {
    var x, y := NONCE_SPACE * i, NONCE_SPACE * j;
    var q := x / count;
    assert q * count <= x <= y < (y / count + 1) * count;
    if y / count + 1 <= q { MulMono(y / count + 1, q, count); assert false; }
  }

  /** The slices cover the whole space: every nonce lies in exactly the slice returned. */
  lemma {:induction false} SliceOf(n: nat, count: nat, upTo: nat) returns (i: nat)
    requires 0 < upTo <= count && n < SliceStart(upTo, count)
    ensures i < upTo && SliceStart(i, count) <= n < SliceStart(i + 1, count)
    decreases upTo
  {
    if SliceStart(upTo - 1, count) <= n {
      i := upTo - 1;
    } else {
      assert upTo - 1 > 0 by { assert SliceStart(0, count) == 0; }
      i := SliceOf(n, count, upTo - 1);
    }
  }

  lemma SliceEnds(count: nat)
    requires count > 0
    ensures SliceStart(0, count) == 0 && SliceStart(count, count) == NONCE_SPACE
  {
    DivUnique(NONCE_SPACE * count, count, NONCE_SPACE);
  }
}
