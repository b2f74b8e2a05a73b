// Sparse capture of the nonces below a threshold, and its retry with doubled capacity
// (src/research/header_space.cpp).
module SparseHits {
  import opened Arith
  import opened ByteNumbers
  import opened HashOrders
  import opened BlockHeader
  import opened HeaderScan

  const SIZE_MAX: nat := 0xffff_ffff_ffff_ffff

  datatype Capture = Capture(nonces: seq<nat>, totalHits: nat, captured: nat, overflow: bool, retries: nat)

  /** The nonces of [lo, hi) below the threshold, in ascending order. */
  function HitList(f: nat -> Digest, bits: nat, lo: nat, hi: nat): seq<nat>
    requires bits <= 256
    decreases hi
  {
    if hi <= lo then []
    else HitList(f, bits, lo, hi - 1) + (if Below(f, bits)(hi - 1) then [hi - 1] else [])
  }

  /** The list holds exactly the hits. */
  lemma {:induction false} HitListIsExact(f: nat -> Digest, bits: nat, lo: nat, hi: nat)
    requires bits <= 256
    ensures forall n :: n in HitList(f, bits, lo, hi) <==> lo <= n < hi && Below(f, bits)(n)
    ensures lo <= hi ==> |HitList(f, bits, lo, hi)| <= hi - lo
    decreases hi
  {
    hide Below, Pow, BigEndian;
    if lo < hi { HitListIsExact(f, bits, lo, hi - 1); }
  }

  /** Each hit is listed once, in ascending order. */
  lemma {:induction false} HitListAscends(f: nat -> Digest, bits: nat, lo: nat, hi: nat)
    requires bits <= 256
    ensures forall i, j :: 0 <= i < j < |HitList(f, bits, lo, hi)| ==>
      HitList(f, bits, lo, hi)[i] < HitList(f, bits, lo, hi)[j]
    decreases hi
  {
    hide Below, Pow, BigEndian;
    if lo < hi {
      var rest := HitList(f, bits, lo, hi - 1);
      HitListAscends(f, bits, lo, hi - 1);
      HitListIsExact(f, bits, lo, hi - 1);
      assert forall i :: 0 <= i < |rest| ==> rest[i] in rest;
    }
  }

  function Prefix(s: seq<nat>, k: nat): seq<nat> { if k < |s| then s[..k] else s }

  function SparseError(start: nat, count: nat, bits: nat, capacity: nat): Result<()> {
    if LayoutError(start, count, count).Err? then LayoutError(start, count, count)
    else if capacity == 0 then Err(NoCapacity)
    else if bits == 0 || bits > 256 then Err(InvalidThreshold)
    else Ok(())
  }

  predicate Captures(c: Capture, hits: seq<nat>, capacity: nat) {
    c == Capture(Prefix(hits, capacity), |hits|, |Prefix(hits, capacity)|, |hits| > capacity, 0)
  }

  /** scan_sparse_hits_cpu: every hit is counted, the first `capacity` of them are kept. */
  method ScanSparseHits(hash: Header -> Digest, input: Header, start: nat, count: nat, bits: nat, capacity: nat)
    returns (r: Result<Capture>)
    ensures SparseError(start, count, bits, capacity).Err? ==> r == Err(SparseError(start, count, bits, capacity).error)
    ensures SparseError(start, count, bits, capacity).Ok? ==> bits <= 256 && r.Ok?
    ensures r.Ok? ==> Captures(r.value, HitList(Family(hash, input), bits, start, start + count), capacity)
  {
    hide BigEndian, Number, Pow, IsLayout;
    var layout := MakeZoneLayout(start, count, count);
    if layout.Err? { return Err(layout.error); }
    if capacity == 0 { return Err(NoCapacity); }
    var zeros := seq(8, i => 0);
    var valid := BelowPowerOfTwoThreshold(zeros, bits);
    if valid.BadThreshold? { return Err(InvalidThreshold); }
    var header := new Byte[80](i requires 0 <= i < 80 => input[i]);
    assert header[..76] == input[..76];
    ghost var f := Family(hash, input);
    var nonces: seq<nat>, total := [], 0;
    for n := start to start + count
      invariant header[..76] == input[..76]
      invariant 0 <= total == |HitList(f, bits, start, n)|
      invariant nonces == Prefix(HitList(f, bits, start, n), capacity)
    {
      SetNonce(header, n);
      assert header[..] == WithNonce(input, n);
      var digest := hash(header[..]);
      var value := PowValue(digest);
      var below := BelowPowerOfTwoThreshold(value, bits);
      assert below.holds <==> Below(f, bits)(n);
      if !below.holds { continue; }
      total := total + 1;
      if |nonces| < capacity { nonces := nonces + [n]; }
    }
    r := Ok(Capture(nonces, total, |nonces|, total > |nonces|, 0));
  }

  /** initial * 2^r */
  function Doubled(initial: nat, r: nat): nat { initial * Pow(2, r) }

  /** r doublings suffice for n hits and fewer do not. */
  ghost predicate LeastRetries(initial: nat, n: nat, r: nat) {
    n <= Doubled(initial, r) && forall k: nat :: k < r ==> Doubled(initial, k) < n
  }

  /** scan_sparse_hits_cpu_complete: for a valid call the capacity can always be doubled often
      enough, the capture is complete, and no retry is wasted. */
  method ScanSparseHitsComplete(hash: Header -> Digest, input: Header, start: nat, count: nat, bits: nat, initial: nat)
    returns (r: Result<Capture>)
    requires initial <= SIZE_MAX
    ensures SparseError(start, count, bits, initial).Err? ==> r == Err(SparseError(start, count, bits, initial).error)
    ensures SparseError(start, count, bits, initial).Ok? ==> bits <= 256 && r.Ok?
    ensures r.Ok? ==> r.value.nonces == HitList(Family(hash, input), bits, start, start + count)
    ensures r.Ok? ==> r.value.captured == r.value.totalHits == |r.value.nonces| && !r.value.overflow
    ensures r.Ok? ==> LeastRetries(initial, |r.value.nonces|, r.value.retries)
  {
    hide HitList, Doubled, Pow;
    var capacity, retries := initial, 0;
    DoublingStarts(initial);
    while true
      invariant 0 <= capacity <= SIZE_MAX && 0 <= retries && capacity == Doubled(initial, retries)
      invariant capacity == 0 <==> initial == 0
      invariant retries > 0 ==> SparseError(start, count, bits, initial).Ok? && bits <= 256
      invariant forall k: nat :: k < retries ==>
        Doubled(initial, k) < |HitList(Family(hash, input), bits, start, start + count)|
      decreases BASE - capacity
    {
      r := ScanSparseHits(hash, input, start, count, bits, capacity);
      if r.Err? { return; }
      ghost var hits := HitList(Family(hash, input), bits, start, start + count);
      HitListIsExact(Family(hash, input), bits, start, start + count);
      if !r.value.overflow {
        r := Ok(r.value.(retries := retries));
        return;
      }
      assert capacity < |hits| <= BASE;
      if capacity > SIZE_MAX / 2 {
        // The overflow error of the code: there are never that many nonces.
        r := Err(CapacityOverflow);
        assert false;
      }
      DoublingGrows(initial, retries);
      capacity := capacity * 2;
      retries := retries + 1;
    }
  }

  lemma DoublingStarts(initial: nat)
    ensures Doubled(initial, 0) == initial
  {
    PowZero(2);
  }

  lemma DoublingGrows(initial: nat, r: nat)
    ensures Doubled(initial, r + 1) == Doubled(initial, r) * 2
  {
    hide Pow;
    PowNext(2, r);
    assert initial * (2 * Pow(2, r)) == (initial * Pow(2, r)) * 2;
  }
}
