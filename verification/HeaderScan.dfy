// The scan of a header's nonce space (src/research/header_space.cpp). The double SHA-256 of a
// header is a parameter; everything after the digest is modelled.
module HeaderScan {
  import opened Arith
  import opened ByteNumbers
  import opened Targets
  import opened HashOrders
  import opened BlockHeader
  import ShareTargets

  const SENTINEL_NONCE: nat := 0xffff_ffff

  datatype Error =
    | EmptyRange | BadZoneSize | RangeTooLarge
    | NbitsRejected(cause: ShareTargets.Error)
    | NoCapacity | InvalidThreshold | CapacityOverflow
    | NoZones

  datatype Result<+T> = Ok(value: T) | Err(error: Error)

  datatype Range = Range(index: nat, first: nat, last: nat, count: nat)

  datatype Zone = Zone(range: Range, counts: seq<nat>, hits: nat, value: seq<nat>, nonce: nat)

  // ----- zone layout -----

  function LayoutError(start: nat, count: nat, size: nat): Result<()> {
    if count == 0 then Err(EmptyRange)
    else if size == 0 || size > BASE then Err(BadZoneSize)
    else if start >= BASE || count > BASE - start then Err(RangeTooLarge)
    else Ok(())
  }

  /** The slice of [start, end) whose nonces have natural zone `index`. */
  ghost predicate IsSlice(r: Range, start: nat, end: nat, size: nat, index: nat)
    requires size > 0
  {
    && r.index == index && r.first <= r.last && r.count == r.last - r.first + 1
    && forall n: nat :: InZone(n, start, end, size, index) <==> r.first <= n <= r.last
  }

  predicate InZone(n: nat, start: nat, end: nat, size: nat, index: nat)
    requires size > 0
  {
    start <= n < end && NaturalZone(n, size) == index
  }

  function NaturalZone(n: nat, size: nat): nat
    requires size > 0
  {
    n / size
  }

  ghost predicate IsLayout(zones: seq<Range>, start: nat, end: nat, size: nat) {
    && size > 0 && start < end
    && |zones| == NaturalZone(end - 1, size) - NaturalZone(start, size) + 1
    && forall i :: 0 <= i < |zones| ==> IsSlice(zones[i], start, end, size, NaturalZone(start, size) + i)
  }

  function ZoneStart(index: nat, size: nat): nat { index * size }

  lemma ZoneBounds(n: nat, size: nat, index: nat)
    requires size > 0
    ensures NaturalZone(n, size) == index <==> index * size <= n < index * size + size
  {
    MulDistributes(index, 1, size);
    if index * size <= n < index * size + size { DivUnique(n, size, index); }
  }

  lemma DivMono(a: nat, b: nat, size: nat)
    requires size > 0 && a <= b
    ensures a / size <= b / size
  {
    var p, q := a / size, b / size;
    if q < p { MulMono(q + 1, p, size); MulDistributes(q, 1, size); }
  }

  method MakeZoneLayout(start: nat, count: nat, size: nat) returns (r: Result<seq<Range>>)
    ensures LayoutError(start, count, size).Err? ==> r == Err(LayoutError(start, count, size).error)
    ensures LayoutError(start, count, size).Ok? ==> r.Ok? && IsLayout(r.value, start, start + count, size)
  {
    if count == 0 { return Err(EmptyRange); }
    if size == 0 || size > BASE { return Err(BadZoneSize); }
    if start >= BASE || count > BASE - start { return Err(RangeTooLarge); }
    hide IsSlice, NaturalZone, ZoneStart, Min;
    var rangeEnd := start + count;
    var firstZone := NaturalZone(start, size);
    var lastZone := NaturalZone(rangeEnd - 1, size);
    DivMono(start, rangeEnd - 1, size);
    var zones: seq<Range> := [];
    var index := firstZone;
    while index <= lastZone
      invariant firstZone <= index <= lastZone + 1 && |zones| == index - firstZone
      invariant forall i :: 0 <= i < |zones| ==> IsSlice(zones[i], start, rangeEnd, size, firstZone + i)
    {
      var naturalStart := ZoneStart(index, size);
      var naturalEnd := Min(BASE, naturalStart + size);
      var first := if naturalStart < start then start else naturalStart;
      var end := Min(rangeEnd, naturalEnd);
      SliceIsZone(start, rangeEnd, size, index, first, end);
      zones := zones + [Range(index, first, end - 1, end - first)];
      index := index + 1;
    }
    r := Ok(zones);
  }

  lemma SliceIsZone(start: nat, end: nat, size: nat, index: nat, first: nat, stop: nat)
    requires size > 0 && start < end <= BASE && NaturalZone(start, size) <= index <= NaturalZone(end - 1, size)
    requires first == if ZoneStart(index, size) < start then start else ZoneStart(index, size)
    requires stop == Min(end, Min(BASE, ZoneStart(index, size) + size))
    ensures first < stop
    ensures IsSlice(Range(index, first, stop - 1, stop - first), start, end, size, index)
  {
    hide NaturalZone;
    ZoneOverlaps(start, end, size, index);
    forall n: nat
      ensures InZone(n, start, end, size, index) <==> first <= n <= stop - 1
    {
      ZoneBounds(n, size, index);
    }
  }

  lemma ZoneOverlaps(start: nat, end: nat, size: nat, index: nat)
    requires size > 0 && start < end && NaturalZone(start, size) <= index <= NaturalZone(end - 1, size)
    ensures index * size < end && start < index * size + size
  {
    ZoneBounds(end - 1, size, (end - 1) / size);
    ZoneBounds(start, size, start / size);
    MulMono(index, (end - 1) / size, size);
    MulMono(start / size, index, size);
  }

  /** The zones follow each other without gap or overlap, from the first nonce to the last. */
  lemma LayoutTiles(zones: seq<Range>, start: nat, end: nat, size: nat)
    requires IsLayout(zones, start, end, size)
    ensures |zones| > 0 && zones[0].first == start && zones[|zones| - 1].last == end - 1
    ensures forall i :: 0 <= i < |zones| - 1 ==> zones[i].last + 1 == zones[i + 1].first
  {
    DivMono(start, end - 1, size);
    Edges(zones, start, end, size);
    forall i | 0 <= i < |zones| - 1
      ensures zones[i].last + 1 == zones[i + 1].first
    {
      Neighbours(zones, start, end, size, i);
    }
  }

  lemma Edges(zones: seq<Range>, start: nat, end: nat, size: nat)
    requires IsLayout(zones, start, end, size) && |zones| > 0
    ensures zones[0].first == start && zones[|zones| - 1].last == end - 1
  {
    assert IsSlice(zones[0], start, end, size, start / size);
    assert InZone(start, start, end, size, start / size);
    assert InZone(zones[0].first, start, end, size, start / size);
    assert InZone(end - 1, start, end, size, (end - 1) / size);
    assert InZone(zones[|zones| - 1].last, start, end, size, (end - 1) / size);
  }

  lemma Neighbours(zones: seq<Range>, start: nat, end: nat, size: nat, i: nat)
    requires IsLayout(zones, start, end, size) && i < |zones| - 1
    ensures zones[i].last + 1 == zones[i + 1].first
  {
    var a, b, z := zones[i], zones[i + 1], start / size + i;
    assert IsSlice(a, start, end, size, z) && IsSlice(b, start, end, size, z + 1);
    assert InZone(a.last, start, end, size, z) && InZone(b.first, start, end, size, z + 1);
    ZoneBounds(a.last, size, z);
    ZoneBounds(b.first, size, z + 1);
    MulDistributes(z, 1, size);
    ZoneBounds(a.last + 1, size, z);
    ZoneBounds(a.last + 1, size, z + 1);
    assert !InZone(a.last + 1, start, end, size, z);
    assert InZone(a.last + 1, start, end, size, z + 1);
  }

  // ----- one flat pass -----

  /** How many n in [lo, hi) satisfy p. */
  function Count(p: nat -> bool, lo: nat, hi: nat): (c: nat)
    ensures lo <= hi ==> c <= hi - lo
    decreases hi
  {
    if hi <= lo then 0 else Count(p, lo, hi - 1) + (if p(hi - 1) then 1 else 0)
  }

  lemma {:induction false} CountSplits(p: nat -> bool, lo: nat, mid: nat, hi: nat)
    requires lo <= mid <= hi
    ensures Count(p, lo, hi) == Count(p, lo, mid) + Count(p, mid, hi)
    decreases hi
  {
    if mid < hi { CountSplits(p, lo, mid, hi - 1); }
  }

  lemma {:induction false} CountNested(p: nat -> bool, q: nat -> bool, lo: nat, hi: nat)
    requires forall n: nat :: q(n) ==> p(n)
    ensures Count(q, lo, hi) <= Count(p, lo, hi)
    decreases hi
  {
    if lo < hi { CountNested(p, q, lo, hi - 1); }
  }

  /** The digest of every nonce of a header. */
  function Family(hash: Header -> Digest, input: Header): nat -> Digest {
    (n: nat) => hash(WithNonce(input, n))
  }

  function Below(f: nat -> Digest, bits: nat): nat -> bool
    requires bits <= 256
  {
    (n: nat) => LittleEndian(f(n)) < Pow(2, 256 - bits)
  }

  function Meets(f: nat -> Digest, target: nat): nat -> bool {
    (n: nat) => LittleEndian(f(n)) <= target
  }

  function KeyOf(f: nat -> Digest, n: nat): nat { LittleEndian(f(n)) * BASE + n }

  /** The least (value, nonce) of the nonces in [lo, hi). */
  ghost predicate Least(f: nat -> Digest, lo: nat, hi: nat, value: seq<nat>, nonce: nat) {
    && lo <= nonce < hi && IsPowValue(value) && Number(BASE, value) == LittleEndian(f(nonce))
    && forall n :: lo <= n < hi ==> KeyOf(f, nonce) <= KeyOf(f, n)
  }

  ghost predicate Counted(counts: seq<nat>, f: nat -> Digest, lo: nat, hi: nat) {
    |counts| == |TAILS| && forall i :: 0 <= i < |TAILS| ==> counts[i] == TailCount(f, i, lo, hi)
  }

  function TailCount(f: nat -> Digest, i: nat, lo: nat, hi: nat): nat
    requires i < |TAILS|
  {
    Count(Below(f, TAILS[i]), lo, hi)
  }

  /** The statistics of one flat pass over [lo, hi). */
  ghost predicate Summary(counts: seq<nat>, hits: nat, value: seq<nat>, nonce: nat,
                          f: nat -> Digest, target: nat, lo: nat, hi: nat) {
    && Counted(counts, f, lo, hi)
    && hits == Count(Meets(f, target), lo, hi)
    && Least(f, lo, hi, value, nonce)
  }

  // ----- scanning one zone -----

  /** What the minimum registers hold after [lo, n): the least key, or still the sentinel. */
  ghost predicate Running(f: nat -> Digest, lo: nat, n: nat, value: seq<nat>, nonce: nat) {
    && IsPowValue(value) && nonce < BASE
    && (forall m :: lo <= m < n ==> Key(value, nonce) <= KeyOf(f, m))
    && ((value == ALL_ONES && nonce == SENTINEL_NONCE) || Attains(f, lo, n, value, nonce))
  }

  predicate Attains(f: nat -> Digest, lo: nat, n: nat, value: seq<nat>, nonce: nat) {
    lo <= nonce < n && Number(BASE, value) == LittleEndian(f(nonce))
  }

  lemma RunningStart(f: nat -> Digest, lo: nat)
    ensures Running(f, lo, lo, ALL_ONES, SENTINEL_NONCE)
  {}

  /** One nonce: keep the registers, or take the new value when it precedes. */
  lemma RunningStep(f: nat -> Digest, lo: nat, n: nat, value: seq<nat>, nonce: nat, found: seq<nat>)
    requires lo <= n < BASE && Running(f, lo, n, value, nonce)
    requires IsPowValue(found) && Number(BASE, found) == LittleEndian(f(n))
    ensures MinimumPrecedes(found, n, value, nonce) ==> Running(f, lo, n + 1, found, n)
    ensures !MinimumPrecedes(found, n, value, nonce) ==> Running(f, lo, n + 1, value, nonce)
  {
    hide Number, BigEndian, MinimumPrecedes;
    MinimumIsKeyOrder(found, n, value, nonce);
    assert Key(found, n) == KeyOf(f, n);
  }

  lemma {:induction false} OnesNumber(s: seq<nat>)
    requires forall i :: 0 <= i < |s| ==> s[i] == 0xffff_ffff
    ensures Number(BASE, s) == Pow(BASE, |s|) - 1
  {
    if s != [] { OnesNumber(s[..|s| - 1]); }
  }

  lemma LargestValue()
    ensures Number(BASE, ALL_ONES) == Pow(256, 32) - 1
  {
    OnesNumber(ALL_ONES);
    BytePower();
  }

  /** A sentinel that survives a pass is the key of its last nonce. */
  lemma RunningEnd(f: nat -> Digest, lo: nat, hi: nat, value: seq<nat>, nonce: nat)
    requires lo < hi <= BASE && Running(f, lo, hi, value, nonce)
    ensures Least(f, lo, hi, value, nonce)
  {
    hide Number, BigEndian, Pow;
    if !Attains(f, lo, hi, value, nonce) {
      LargestValue();
      BigEndianBound(Reversed(f(hi - 1)));
      assert Key(value, nonce) <= KeyOf(f, hi - 1);
      KeyCeiling(Number(BASE, value), LittleEndian(f(hi - 1)), hi - 1);
    }
  }

  lemma KeyCeiling(top: nat, v: nat, n: nat)
    requires v <= top && n < BASE && top * BASE + SENTINEL_NONCE <= v * BASE + n
    ensures v == top && n == SENTINEL_NONCE
  {}

  lemma TailStep(f: nat -> Digest, lo: nat, n: nat, counts: seq<nat>, classified: seq<nat>, value: seq<nat>)
    requires lo <= n && Counted(counts, f, lo, n) && |classified| == |TAILS|
    requires Number(BASE, value) == LittleEndian(f(n))
    requires forall i :: 0 <= i < |TAILS| ==>
      TAILS[i] <= 256 && classified[i] == if Number(BASE, value) < Pow(2, 256 - TAILS[i]) then 1 else 0
    ensures Counted(Sum(counts, classified), f, lo, n + 1)
  {
    hide Number, BigEndian, Pow;
  }

  /** Element by element: for (i) total[i] += part[i] */
  function Sum(total: seq<nat>, part: seq<nat>): (r: seq<nat>)
    requires |total| == |part|
    ensures |r| == |total| && forall i :: 0 <= i < |r| ==> r[i] == total[i] + part[i]
  {
    seq(|total|, i requires 0 <= i < |total| => total[i] + part[i])
  }

  method AddCounts(total: seq<nat>, part: seq<nat>) returns (r: seq<nat>)
    requires |total| == |part|
    ensures r == Sum(total, part)
  {
    r := total;
    for i := 0 to |total|
      invariant |r| == |total|
      invariant forall j :: 0 <= j < i ==> r[j] == total[j] + part[j]
      invariant forall j :: i <= j < |total| ==> r[j] == total[j]
    {
      r := r[i := r[i] + part[i]];
    }
  }

  /** The statistics of one zone; `header` is scratch whose nonce field is overwritten. */
  method ScanZone(hash: Header -> Digest, input: Header, header: array<Byte>, range: Range, target: seq<Byte>)
    returns (zone: Zone)
    requires header.Length == 80 && header[..76] == input[..76]
    requires range.first <= range.last < BASE && IsTarget(target)
    modifies header
    ensures header[..76] == input[..76]
    ensures zone.range == range
    ensures Summary(zone.counts, zone.hits, zone.value, zone.nonce,
                    Family(hash, input), BigEndian(target), range.first, range.last + 1)
  {
    hide Number, BigEndian, Pow, Running, Counted, MinimumPrecedes, Least;
    ghost var f := Family(hash, input);
    var counts: seq<nat> := [0, 0, 0, 0, 0, 0, 0];
    var hits, value, nonce := 0, ALL_ONES, SENTINEL_NONCE;
    NoCounts(f, range.first);
    RunningStart(f, range.first);
    for n := range.first to range.last + 1
      invariant header[..76] == input[..76]
      invariant |counts| == |TAILS| && Counted(counts, f, range.first, n)
      invariant 0 <= hits == Count(Meets(f, BigEndian(target)), range.first, n)
      invariant nonce >= 0 && IsPowValue(value) && Running(f, range.first, n, value, nonce)
    {
      SetNonce(header, n);
      assert header[..] == WithNonce(input, n);
      var digest := hash(header[..]);
      assert digest == f(n);
      var found := PowValue(digest);
      var classified := ClassifyTail(found);
      TailStep(f, range.first, n, counts, classified, found);
      counts := AddCounts(counts, classified);
      var meets := HashMeetsTarget(digest, target);
      if meets { hits := hits + 1; }
      RunningStep(f, range.first, n, value, nonce, found);
      if MinimumPrecedes(found, n, value, nonce) {
        value := found;
        nonce := n;
      }
    }
    RunningEnd(f, range.first, range.last + 1, value, nonce);
    zone := Zone(range, counts, hits, value, nonce);
  }

  lemma NoCounts(f: nat -> Digest, lo: nat)
    ensures Counted([0, 0, 0, 0, 0, 0, 0], f, lo, lo)
  {}

  // ----- scan_cpu -----

  /** The big-endian bytes of the nBits field. */
  function Compact(input: Header): seq<Byte> { Reversed(input[72..76]) }

  ghost predicate IsScan(zones: seq<Zone>, f: nat -> Digest, target: nat, start: nat, end: nat, size: nat) {
    && IsLayout(Ranges(zones), start, end, size)
    && forall i :: 0 <= i < |zones| ==> ZoneSummary(zones[i], f, target)
  }

  ghost predicate ZoneSummary(z: Zone, f: nat -> Digest, target: nat) {
    Summary(z.counts, z.hits, z.value, z.nonce, f, target, z.range.first, z.range.last + 1)
  }

  function Ranges(zones: seq<Zone>): (r: seq<Range>)
    ensures |r| == |zones| && forall i :: 0 <= i < |r| ==> r[i] == zones[i].range
  {
    seq(|zones|, i requires 0 <= i < |zones| => zones[i].range)
  }

  method ScanCpu(hash: Header -> Digest, input: Header, start: nat, count: nat, size: nat)
    returns (r: Result<seq<Zone>>)
    ensures r.Err? <==> (LayoutError(start, count, size).Err? || input[74] >= 0x80 || input[75] > 32)
    ensures r.Ok? ==> IsScan(r.value, Family(hash, input),
                             ShareTargets.CompactValue(input[75], BigEndian(Compact(input)[1..])),
                             start, start + count, size)
  {
    hide IsSlice, BigEndian, ShareTargets.CompactValue, Summary;
    var layout := MakeZoneLayout(start, count, size);
    if layout.Err? { return Err(layout.error); }
    var network := ShareTargets.TargetFromNbits(Compact(input));
    if network.Failure? { return Err(NbitsRejected(network.error)); }
    var header := new Byte[80](i requires 0 <= i < 80 => input[i]);
    assert header[..76] == input[..76];
    LayoutTiles(layout.value, start, start + count, size);
    LayoutInside(layout.value, start, start + count, size);
    var zones: seq<Zone> := [];
    for k := 0 to |layout.value|
      invariant header[..76] == input[..76]
      invariant |zones| == k && forall i :: 0 <= i < k ==> zones[i].range == layout.value[i]
      invariant forall i :: 0 <= i < k ==> ZoneSummary(zones[i], Family(hash, input), BigEndian(network.bytes))
    {
      var zone := ScanZone(hash, input, header, layout.value[k], network.bytes);
      zones := zones + [zone];
    }
    assert Ranges(zones) == layout.value;
    r := Ok(zones);
  }

  lemma LayoutInside(zones: seq<Range>, start: nat, end: nat, size: nat)
    requires IsLayout(zones, start, end, size)
    ensures forall i :: 0 <= i < |zones| ==> start <= zones[i].first <= zones[i].last < end
  {
    forall i | 0 <= i < |zones|
      ensures start <= zones[i].first <= zones[i].last < end
    {
      assert IsSlice(zones[i], start, end, size, start / size + i);
      assert InZone(zones[i].first, start, end, size, start / size + i);
      assert InZone(zones[i].last, start, end, size, start / size + i);
    }
  }
}
