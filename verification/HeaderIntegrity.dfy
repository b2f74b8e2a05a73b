// Aggregating the zones of a scan (src/research/header_space.cpp) and the integrity checks of the
// report (src/header_space_main.cpp): the zones add up to one flat pass, and the checks pass.
module HeaderIntegrity {
  import opened Arith
  import opened ByteNumbers
  import opened Targets
  import opened HashOrders
  import opened BlockHeader
  import opened HeaderScan

  datatype Global = Global(total: nat, counts: seq<nat>, hits: nat, value: seq<nat>, nonce: nat, zone: nat)

  /** The fixed-width fields of a zone record. */
  predicate WellTyped(z: Zone) { |z.counts| == |TAILS| && IsPowValue(z.value) && z.nonce < BASE }

  predicate AllWellTyped(zones: seq<Zone>) { forall i :: 0 <= i < |zones| ==> WellTyped(zones[i]) }

  // ----- sums over zones -----

  function Total(zones: seq<Zone>): nat {
    if zones == [] then 0 else Total(zones[..|zones| - 1]) + zones[|zones| - 1].range.count
  }

  function Hits(zones: seq<Zone>): nat {
    if zones == [] then 0 else Hits(zones[..|zones| - 1]) + zones[|zones| - 1].hits
  }

  function TailTotals(zones: seq<Zone>): (t: seq<nat>)
    requires AllWellTyped(zones)
    ensures |t| == |TAILS|
  {
    if zones == [] then [0, 0, 0, 0, 0, 0, 0]
    else Sum(TailTotals(zones[..|zones| - 1]), zones[|zones| - 1].counts)
  }

  lemma SumsGrow(zones: seq<Zone>, n: nat)
    requires n < |zones| && AllWellTyped(zones)
    ensures Total(zones[..n + 1]) == Total(zones[..n]) + zones[n].range.count
    ensures Hits(zones[..n + 1]) == Hits(zones[..n]) + zones[n].hits
    ensures TailTotals(zones[..n + 1]) == Sum(TailTotals(zones[..n]), zones[n].counts)
  {
    assert zones[..n + 1][..n] == zones[..n];
  }

  // ----- the least zone -----

  function ZoneKey(z: Zone): nat { Key(z.value, z.nonce) }

  /** Zone k has the least key, and no zone before it ties. */
  ghost predicate EarliestLeast(zones: seq<Zone>, k: nat) {
    && k < |zones|
    && (forall j :: 0 <= j < k ==> ZoneKey(zones[k]) < ZoneKey(zones[j]))
    && (forall j :: k <= j < |zones| ==> ZoneKey(zones[k]) <= ZoneKey(zones[j]))
  }

  predicate Records(g: Global, z: Zone) {
    g.value == z.value && g.nonce == z.nonce && g.zone == z.range.index
  }

  ghost predicate IsMinimum(zones: seq<Zone>, g: Global) {
    exists k: nat :: EarliestLeast(zones, k) && Records(g, zones[k])
  }

  ghost predicate Merges(zones: seq<Zone>, g: Global)
    requires AllWellTyped(zones)
  {
    g.total == Total(zones) && g.counts == TailTotals(zones) && g.hits == Hits(zones) && IsMinimum(zones, g)
  }

  /** The registers after n zones: the sentinel with the first index, or the earliest least zone k. */
  ghost predicate Merging(zones: seq<Zone>, n: nat, k: nat, value: seq<nat>, nonce: nat, zone: nat)
    requires 0 < |zones|
  {
    && n <= |zones| && IsPowValue(value) && nonce < BASE
    && (forall j :: 0 <= j < n ==> Key(value, nonce) <= ZoneKey(zones[j]))
    && ((value == ALL_ONES && nonce == SENTINEL_NONCE && zone == zones[0].range.index)
        || (k < n && value == zones[k].value && nonce == zones[k].nonce && zone == zones[k].range.index
            && forall j :: 0 <= j < k ==> ZoneKey(zones[k]) < ZoneKey(zones[j])))
  }

  lemma MergeStep(zones: seq<Zone>, n: nat, k: nat, value: seq<nat>, nonce: nat, zone: nat)
    requires AllWellTyped(zones) && n < |zones| && Merging(zones, n, k, value, nonce, zone)
    ensures MinimumPrecedes(zones[n].value, zones[n].nonce, value, nonce) ==>
      Merging(zones, n + 1, n, zones[n].value, zones[n].nonce, zones[n].range.index)
    ensures !MinimumPrecedes(zones[n].value, zones[n].nonce, value, nonce) ==>
      Merging(zones, n + 1, k, value, nonce, zone)
  {
    hide Number, MinimumPrecedes;
    assert WellTyped(zones[n]);
    MinimumIsKeyOrder(zones[n].value, zones[n].nonce, value, nonce);
    assert ZoneKey(zones[n]) == Key(zones[n].value, zones[n].nonce);
  }

  /** When no zone precedes the sentinel, every zone holds it: the first zone is the least. */
  lemma MergeEnd(zones: seq<Zone>, k: nat, g: Global)
    requires 0 < |zones| && AllWellTyped(zones) && Merging(zones, |zones|, k, g.value, g.nonce, g.zone)
    ensures IsMinimum(zones, g)
  {
    hide Number;
    if g.value == ALL_ONES && g.nonce == SENTINEL_NONCE && g.zone == zones[0].range.index {
      forall j | 0 <= j < |zones|
        ensures zones[j].value == g.value && zones[j].nonce == g.nonce
      {
        assert WellTyped(zones[j]);
        SentinelIsLargest(zones[j].value, zones[j].nonce);
      }
      assert EarliestLeast(zones, 0) && Records(g, zones[0]);
    } else {
      assert ZoneKey(zones[k]) == Key(g.value, g.nonce);
      assert EarliestLeast(zones, k) && Records(g, zones[k]);
    }
  }

  lemma SentinelIsLargest(value: seq<nat>, nonce: nat)
    requires IsPowValue(value) && nonce < BASE && Key(ALL_ONES, SENTINEL_NONCE) <= Key(value, nonce)
    ensures value == ALL_ONES && nonce == SENTINEL_NONCE
  {
    hide Number, Pow;
    LargestValue();
    NumberBound(BASE, value);
    BytePower();
    KeyCeiling(Number(BASE, ALL_ONES), Number(BASE, value), nonce);
    NumberInjective(BASE, value, ALL_ONES);
  }

  /** aggregate_zones */
  method AggregateZones(zones: seq<Zone>) returns (r: Result<Global>)
    requires AllWellTyped(zones)
    ensures zones == [] <==> r.Err?
    ensures r.Err? ==> r.error == NoZones
    ensures r.Ok? ==> Merges(zones, r.value)
  {
    if |zones| == 0 { return Err(NoZones); }
    hide Number, MinimumPrecedes, Merging, IsMinimum, EarliestLeast, Records, Key, Total, Hits, TailTotals, IsPowValue,
      Sum, AllWellTyped, WellTyped, Merges;
    var total, counts, hits := 0, [0, 0, 0, 0, 0, 0, 0], 0;
    var value, nonce, zone := ALL_ONES, SENTINEL_NONCE, zones[0].range.index;
    ghost var k := 0;
    MergeStart(zones);
    for n := 0 to |zones|
      invariant 0 <= total == Total(zones[..n]) && 0 <= hits == Hits(zones[..n]) && counts == TailTotals(zones[..n])
      invariant 0 <= k && 0 <= nonce < BASE && 0 <= zone && IsPowValue(value)
      invariant Merging(zones, n, k, value, nonce, zone)
    {
      ZoneTyped(zones, n);
      SumsGrow(zones, n);
      total := total + zones[n].range.count;
      counts := AddCounts(counts, zones[n].counts);
      hits := hits + zones[n].hits;
      MergeStep(zones, n, k, value, nonce, zone);
      if MinimumPrecedes(zones[n].value, zones[n].nonce, value, nonce) {
        value, nonce, zone := zones[n].value, zones[n].nonce, zones[n].range.index;
        k := n;
      }
      RegistersTyped(zones, n + 1, k, value, nonce, zone);
    }
    var g := Global(total, counts, hits, value, nonce, zone);
    MergeEnd(zones, k, g);
    assert zones[..|zones|] == zones;
    assert Merges(zones, g) by { MergedAll(zones, g); }
    r := Ok(g);
  }

  lemma ZoneTyped(zones: seq<Zone>, n: nat)
    requires AllWellTyped(zones) && n < |zones|
    ensures |zones[n].counts| == |TAILS| && IsPowValue(zones[n].value) && zones[n].nonce < BASE
  {
    assert WellTyped(zones[n]);
  }

  lemma MergedAll(zones: seq<Zone>, g: Global)
    requires AllWellTyped(zones) && IsMinimum(zones, g)
    requires g.total == Total(zones) && g.counts == TailTotals(zones) && g.hits == Hits(zones)
    ensures Merges(zones, g)
  {}

  lemma MergeStart(zones: seq<Zone>)
    requires 0 < |zones|
    ensures Merging(zones, 0, 0, ALL_ONES, SENTINEL_NONCE, zones[0].range.index)
    ensures Total(zones[..0]) == 0 && Hits(zones[..0]) == 0 && TailTotals(zones[..0]) == [0, 0, 0, 0, 0, 0, 0]
  {}

  lemma RegistersTyped(zones: seq<Zone>, n: nat, k: nat, value: seq<nat>, nonce: nat, zone: nat)
    requires 0 < |zones| && Merging(zones, n, k, value, nonce, zone)
    ensures nonce < BASE && IsPowValue(value)
  {}

  // ----- one flat pass -----

  lemma ScanTyped(zones: seq<Zone>, f: nat -> Digest, target: nat, start: nat, end: nat, size: nat)
    requires IsScan(zones, f, target, start, end, size) && end <= BASE
    ensures AllWellTyped(zones)
  {
    hide Number, BigEndian, IsSlice, Pow;
    LayoutInside(Ranges(zones), start, end, size);
    forall i | 0 <= i < |zones|
      ensures WellTyped(zones[i])
    {
      assert Ranges(zones)[i] == zones[i].range && ZoneSummary(zones[i], f, target);
    }
  }

  /** The sums over the first n zones are the counts of the nonces they cover. */
  lemma {:induction false} SumsAreCounts(zones: seq<Zone>, f: nat -> Digest, target: nat,
                                         start: nat, end: nat, size: nat, n: nat)
    requires IsScan(zones, f, target, start, end, size) && end <= BASE && 0 < n <= |zones| && AllWellTyped(zones)
    ensures start <= zones[n - 1].range.last + 1 && Total(zones[..n]) == zones[n - 1].range.last + 1 - start
    ensures Hits(zones[..n]) == Count(Meets(f, target), start, zones[n - 1].range.last + 1)
    ensures Counted(TailTotals(zones[..n]), f, start, zones[n - 1].range.last + 1)
  {
    hide BigEndian, Number, IsLayout, Least, Pow, Count, Below, Meets, WellTyped, Counted, Total, Hits, TailTotals;
    var z := zones[n - 1];
    assert Ranges(zones)[n - 1] == z.range && ZoneSummary(z, f, target);
    LayoutTiles(Ranges(zones), start, end, size);
    RangeCounts(Ranges(zones), start, end, size, n - 1);
    SumsGrow(zones, n - 1);
    if n == 1 {
      assert Ranges(zones)[0] == zones[0].range;
      MergeStart(zones);
      FirstZoneCounted(z, f);
    } else {
      SumsAreCounts(zones, f, target, start, end, size, n - 1);
      var prior := zones[n - 2];
      assert Ranges(zones)[n - 2] == prior.range && prior.range.last + 1 == z.range.first;
      CountSplits(Meets(f, target), start, z.range.first, z.range.last + 1);
      CountedJoins(TailTotals(zones[..n - 1]), z.counts, f, start, z.range.first, z.range.last + 1);
    }
  }

  lemma CountedJoins(a: seq<nat>, b: seq<nat>, f: nat -> Digest, lo: nat, mid: nat, hi: nat)
    requires lo <= mid <= hi && Counted(a, f, lo, mid) && Counted(b, f, mid, hi)
    ensures |a| == |b| && Counted(Sum(a, b), f, lo, hi)
  {
    hide Pow, BigEndian, Count, Below;
    forall i | 0 <= i < |TAILS|
      ensures TailCount(f, i, lo, hi) == TailCount(f, i, lo, mid) + TailCount(f, i, mid, hi)
    {
      CountSplits(Below(f, TAILS[i]), lo, mid, hi);
    }
  }

  lemma FirstZoneCounted(z: Zone, f: nat -> Digest)
    requires Counted(z.counts, f, z.range.first, z.range.last + 1) && z.range.first <= z.range.last
    ensures Counted(Sum([0, 0, 0, 0, 0, 0, 0], z.counts), f, z.range.first, z.range.last + 1)
  {
    NoCounts(f, z.range.first);
    CountedJoins([0, 0, 0, 0, 0, 0, 0], z.counts, f, z.range.first, z.range.first, z.range.last + 1);
  }

  lemma RangeCounts(zones: seq<Range>, start: nat, end: nat, size: nat, i: nat)
    requires IsLayout(zones, start, end, size) && i < |zones|
    ensures zones[i].count == zones[i].last - zones[i].first + 1 && zones[i].first <= zones[i].last
    ensures zones[i].index == start / size + i
    ensures forall n: nat :: InZone(n, start, end, size, zones[i].index) <==> zones[i].first <= n <= zones[i].last
  {
    assert IsSlice(zones[i], start, end, size, start / size + i);
  }

  /** The zone of a nonce. */
  lemma ZoneOf(zones: seq<Range>, start: nat, end: nat, size: nat, n: nat)
    requires IsLayout(zones, start, end, size) && start <= n < end
    ensures start / size <= n / size && n / size - start / size < |zones|
    ensures var r := zones[n / size - start / size]; r.first <= n <= r.last
  {
    hide IsSlice;
    DivMono(start, n, size);
    DivMono(n, end - 1, size);
    RangeCounts(zones, start, end, size, n / size - start / size);
    assert InZone(n, start, end, size, zones[n / size - start / size].index);
  }

  /** Aggregating the zones of a scan gives the statistics of one flat pass over the whole range,
      and the zone of its least (value, nonce). */
  lemma AggregateIsFlat(zones: seq<Zone>, g: Global, f: nat -> Digest, target: nat, start: nat, end: nat, size: nat)
    requires IsScan(zones, f, target, start, end, size) && end <= BASE && AllWellTyped(zones) && Merges(zones, g)
    ensures g.total == end - start
    ensures Summary(g.counts, g.hits, g.value, g.nonce, f, target, start, end)
    ensures size > 0 && g.zone == g.nonce / size
  {
    hide BigEndian, Number, IsLayout, Pow, Count, Below, Meets, Counted, ZoneSummary, WellTyped,
      EarliestLeast, Total, Hits, TailTotals, Least;
    LayoutTiles(Ranges(zones), start, end, size);
    assert Ranges(zones)[|zones| - 1] == zones[|zones| - 1].range;
    SumsAreCounts(zones, f, target, start, end, size, |zones|);
    assert zones[..|zones|] == zones;
    MinimumIsLeast(zones, g, f, target, start, end, size);
  }

  lemma MinimumIsLeast(zones: seq<Zone>, g: Global, f: nat -> Digest, target: nat, start: nat, end: nat, size: nat)
    requires IsScan(zones, f, target, start, end, size) && IsMinimum(zones, g)
    ensures Least(f, start, end, g.value, g.nonce) && size > 0 && g.zone == g.nonce / size
  {
    hide BigEndian, Number, IsSlice, Pow, Count, Counted, IsLayout;
    var k: nat :| EarliestLeast(zones, k) && Records(g, zones[k]);
    assert ZoneSummary(zones[k], f, target) && Ranges(zones)[k] == zones[k].range;
    SizePositive(Ranges(zones), start, end, size);
    RangeCounts(Ranges(zones), start, end, size, k);
    assert InZone(g.nonce, start, end, size, zones[k].range.index);
    forall n | start <= n < end
      ensures KeyOf(f, g.nonce) <= KeyOf(f, n)
    {
      ZoneOf(Ranges(zones), start, end, size, n);
      var j := n / size - start / size;
      assert ZoneSummary(zones[j], f, target) && Ranges(zones)[j] == zones[j].range;
      assert ZoneKey(zones[k]) <= ZoneKey(zones[j]);
      assert ZoneKey(zones[k]) == KeyOf(f, zones[k].nonce) && ZoneKey(zones[j]) == KeyOf(f, zones[j].nonce);
    }
  }

  lemma SizePositive(zones: seq<Range>, start: nat, end: nat, size: nat)
    requires IsLayout(zones, start, end, size)
    ensures size > 0
  {}

  // ----- integrity -----

  datatype Integrity = Integrity(layoutExact: bool, nonceCountSum: bool, thresholdSums: bool,
                                 networkHitSum: bool, minimumMerge: bool, recordsValid: bool)
  {
    predicate Passed() {
      layoutExact && nonceCountSum && thresholdSums && networkHitSum && minimumMerge && recordsValid
    }
  }

  /** The minimum lies in the zone, and each tail count is at most the one before. */
  predicate RecordValid(z: Zone)
    requires WellTyped(z)
  {
    z.range.first <= z.nonce <= z.range.last && TailsNested(z, |TAILS|)
  }

  predicate TailsNested(z: Zone, n: nat)
    requires WellTyped(z) && n <= |TAILS|
  {
    forall i :: 0 <= i < n ==> TailNested(z, i)
  }

  predicate TailNested(z: Zone, i: nat)
    requires WellTyped(z) && i < |TAILS|
  {
    z.counts[i] <= if i == 0 then z.range.count else z.counts[i - 1]
  }

  lemma SliceUnique(r: Range, q: Range, start: nat, end: nat, size: nat, index: nat)
    requires size > 0 && IsSlice(r, start, end, size, index) && IsSlice(q, start, end, size, index)
    ensures r == q
  {
    assert InZone(r.first, start, end, size, index) && InZone(r.last, start, end, size, index);
    assert InZone(q.first, start, end, size, index) && InZone(q.last, start, end, size, index);
  }

  lemma LayoutUnique(a: seq<Range>, b: seq<Range>, start: nat, end: nat, size: nat)
    requires IsLayout(a, start, end, size) && IsLayout(b, start, end, size)
    ensures a == b
  {
    hide IsSlice;
    forall i | 0 <= i < |a|
      ensures a[i] == b[i]
    {
      SliceUnique(a[i], b[i], start, end, size, start / size + i);
    }
  }

  lemma MinimumUnique(zones: seq<Zone>, g: Global, merged: Global)
    requires IsMinimum(zones, merged)
    ensures IsMinimum(zones, g) <==> g.value == merged.value && g.nonce == merged.nonce && g.zone == merged.zone
  {
    var k: nat :| EarliestLeast(zones, k) && Records(merged, zones[k]);
    if IsMinimum(zones, g) {
      var j: nat :| EarliestLeast(zones, j) && Records(g, zones[j]);
      assert ZoneKey(zones[j]) <= ZoneKey(zones[k]) && ZoneKey(zones[k]) <= ZoneKey(zones[j]);
      assert j == k;
    }
  }

  method CheckRecord(zone: Zone) returns (valid: bool)
    requires WellTyped(zone)
    ensures valid <==> RecordValid(zone)
  {
    valid := zone.range.first <= zone.nonce <= zone.range.last;
    var previous := zone.range.count;
    for threshold := 0 to |TAILS|
      invariant valid <==> zone.range.first <= zone.nonce <= zone.range.last && TailsNested(zone, threshold)
      invariant previous == if threshold == 0 then zone.range.count else zone.counts[threshold - 1]
    {
      NestedStep(zone, threshold);
      if zone.counts[threshold] > previous { valid := false; }
      previous := zone.counts[threshold];
    }
  }

  lemma NestedStep(z: Zone, n: nat)
    requires WellTyped(z) && n < |TAILS|
    ensures TailsNested(z, n + 1) <==> TailsNested(z, n) && TailNested(z, n)
  {}

  /** validate_integrity: every flag says exactly what its name promises. */
  method ValidateIntegrity(zones: seq<Zone>, start: nat, count: nat, size: nat, g: Global)
    returns (r: Result<Integrity>)
    requires AllWellTyped(zones) && |g.counts| == |TAILS|
    ensures r.Err? <==> LayoutError(start, count, size).Err? || zones == []
    ensures r.Ok? ==> (r.value.layoutExact <==> IsLayout(Ranges(zones), start, start + count, size))
    ensures r.Ok? ==> (r.value.nonceCountSum <==> Total(zones) == count && g.total == count)
    ensures r.Ok? ==> (r.value.thresholdSums <==> TailTotals(zones) == g.counts)
    ensures r.Ok? ==> (r.value.networkHitSum <==> Hits(zones) == g.hits)
    ensures r.Ok? ==> (r.value.minimumMerge <==> IsMinimum(zones, g))
    ensures r.Ok? ==> (r.value.recordsValid <==> forall i :: 0 <= i < |zones| ==> RecordValid(zones[i]))
  {
    hide IsLayout, IsSlice, Number, IsMinimum, RecordValid;
    var expected := MakeZoneLayout(start, count, size);
    if expected.Err? { return Err(expected.error); }
    var layoutExact := |zones| == |expected.value|;
    var nonces, counts, hits := 0, [0, 0, 0, 0, 0, 0, 0], 0;
    var recordsValid := true;
    for i := 0 to |zones|
      invariant layoutExact <==> |zones| == |expected.value| && Ranges(zones)[..i] == expected.value[..i]
      invariant 0 <= nonces == Total(zones[..i]) && counts == TailTotals(zones[..i]) && 0 <= hits == Hits(zones[..i])
      invariant recordsValid <==> forall j :: 0 <= j < i ==> RecordValid(zones[j])
    {
      if i >= |expected.value| || zones[i].range != expected.value[i] { layoutExact := false; }
      if i < |expected.value| { PrefixGrows(Ranges(zones), expected.value, i); }
      SumsGrow(zones, i);
      nonces := nonces + zones[i].range.count;
      hits := hits + zones[i].hits;
      var valid := CheckRecord(zones[i]);
      recordsValid := recordsValid && valid;
      counts := AddCounts(counts, zones[i].counts);
    }
    assert zones[..|zones|] == zones;
    ghost var ranges := Ranges(zones);
    assert ranges[..|zones|] == ranges;
    assert layoutExact <==> ranges == expected.value by {
      if |zones| == |expected.value| { assert expected.value[..|zones|] == expected.value; }
    }
    if IsLayout(ranges, start, start + count, size) {
      LayoutUnique(ranges, expected.value, start, start + count, size);
    }
    var merged := AggregateZones(zones);
    if merged.Err? { return Err(merged.error); }
    MinimumUnique(zones, g, merged.value);
    r := Ok(Integrity(layoutExact, nonces == count && g.total == count, counts == g.counts, hits == g.hits,
      merged.value.value == g.value && merged.value.nonce == g.nonce && merged.value.zone == g.zone, recordsValid));
  }

  lemma PrefixGrows<T>(a: seq<T>, b: seq<T>, i: nat)
    requires i < |a| && i < |b|
    ensures a[..i + 1] == b[..i + 1] <==> a[..i] == b[..i] && a[i] == b[i]
  {
    assert a[..i + 1] == a[..i] + [a[i]] && b[..i + 1] == b[..i] + [b[i]];
    if a[..i + 1] == b[..i + 1] {
      assert a[..i] == a[..i + 1][..i] && b[..i] == b[..i + 1][..i];
      assert a[i] == a[..i + 1][i] && b[i] == b[..i + 1][i];
    }
  }

  lemma TailsShrink(f: nat -> Digest, i: nat, lo: nat, hi: nat)
    requires 0 < i < |TAILS|
    ensures TailCount(f, i, lo, hi) <= TailCount(f, i - 1, lo, hi)
  {
    hide Pow, BigEndian, Count;
    PowGrows(256 - TAILS[i], 256 - TAILS[i - 1]);
    CountNested(Below(f, TAILS[i - 1]), Below(f, TAILS[i]), lo, hi);
  }

  lemma SummaryValid(z: Zone, f: nat -> Digest, target: nat)
    requires WellTyped(z) && ZoneSummary(z, f, target) && z.range.first <= z.range.last
    requires z.range.count == z.range.last - z.range.first + 1
    ensures RecordValid(z)
  {
    hide Pow, BigEndian, Number;
    var lo, hi := z.range.first, z.range.last + 1;
    forall i | 0 <= i < |TAILS|
      ensures TailNested(z, i)
    {
      assert z.counts[i] == TailCount(f, i, lo, hi);
      if i > 0 {
        assert z.counts[i - 1] == TailCount(f, i - 1, lo, hi);
        TailsShrink(f, i, lo, hi);
      }
    }
  }

  /** Every flag of the check holds of the zones of a scan and their aggregate. */
  lemma ScanIsSound(zones: seq<Zone>, g: Global, f: nat -> Digest, target: nat, start: nat, count: nat, size: nat)
    requires IsScan(zones, f, target, start, start + count, size) && start + count <= BASE
    requires AllWellTyped(zones) && Merges(zones, g)
    ensures Total(zones) == count && g.total == count
    ensures forall i :: 0 <= i < |zones| ==> RecordValid(zones[i])
  {
    hide IsScan, Merges, IsLayout, Summary, IsMinimum, RecordValid, ZoneSummary, Total, Hits, TailTotals, WellTyped;
    MergedTotal(zones, g);
    AggregateIsFlat(zones, g, f, target, start, start + count, size);
    RecordsSound(zones, f, target, start, start + count, size);
  }

  lemma MergedTotal(zones: seq<Zone>, g: Global)
    requires AllWellTyped(zones) && Merges(zones, g)
    ensures g.total == Total(zones)
  {}

  lemma RecordsSound(zones: seq<Zone>, f: nat -> Digest, target: nat, start: nat, end: nat, size: nat)
    requires IsScan(zones, f, target, start, end, size) && AllWellTyped(zones)
    ensures forall i :: 0 <= i < |zones| ==> RecordValid(zones[i])
  {
    hide IsLayout, RecordValid, ZoneSummary, WellTyped;
    forall i | 0 <= i < |zones|
      ensures RecordValid(zones[i])
    {
      ZoneIsSound(zones, f, target, start, end, size, i);
    }
  }

  lemma ZoneIsSound(zones: seq<Zone>, f: nat -> Digest, target: nat, start: nat, end: nat, size: nat, i: nat)
    requires i < |zones| && IsLayout(Ranges(zones), start, end, size)
    requires ZoneSummary(zones[i], f, target) && WellTyped(zones[i])
    ensures RecordValid(zones[i])
  {
    hide IsLayout, RecordValid, ZoneSummary, WellTyped;
    assert Ranges(zones)[i] == zones[i].range;
    RangeCounts(Ranges(zones), start, end, size, i);
    SummaryValid(zones[i], f, target);
  }

  /** A scan followed by its aggregation and its validation: the global record is one flat pass,
      and the report is never refused. */
  method ScanReport(hash: Header -> Digest, input: Header, start: nat, count: nat, size: nat)
    returns (r: Result<Global>, integrity: Result<Integrity>)
    ensures r.Err? <==> (LayoutError(start, count, size).Err? || input[74] >= 0x80 || input[75] > 32)
    ensures r.Ok? ==> integrity.Ok? && integrity.value.Passed()
    ensures r.Ok? ==> size > 0 && r.value.total == count && r.value.zone == r.value.nonce / size
    ensures r.Ok? ==> Summary(r.value.counts, r.value.hits, r.value.value, r.value.nonce, Family(hash, input),
      ShareTargets.CompactValue(input[75], BigEndian(Compact(input)[1..])), start, start + count)
  {
    hide IsSlice, Summary, IsMinimum, RecordValid, BigEndian, ShareTargets.CompactValue, IsLayout, Total, Hits,
      TailTotals;
    var scan := ScanCpu(hash, input, start, count, size);
    if scan.Err? { return Err(scan.error), Err(scan.error); }
    var zones := scan.value;
    ghost var f := Family(hash, input);
    ghost var target := ShareTargets.CompactValue(input[75], BigEndian(Compact(input)[1..]));
    ScanTyped(zones, f, target, start, start + count, size);
    LayoutNonempty(Ranges(zones), start, start + count, size);
    r := AggregateZones(zones);
    AggregateIsFlat(zones, r.value, f, target, start, start + count, size);
    ScanIsSound(zones, r.value, f, target, start, count, size);
    integrity := ValidateIntegrity(zones, start, count, size, r.value);
  }

  lemma LayoutNonempty(zones: seq<Range>, start: nat, end: nat, size: nat)
    requires IsLayout(zones, start, end, size)
    ensures |zones| > 0
  {
    DivMono(start, end - 1, size);
  }
}
