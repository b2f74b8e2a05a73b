// SHA-256 as the repository computes it, streaming over full blocks with a one- or two-block tail
// (src/crypto/sha256.cpp), against sections 5.1.1 and 6.2.2 of FIPS 180-4.
module Sha256 {
  import opened Arith
  import opened ByteNumbers

  type Octet = bv8
  type Word = bv32

  // ----- sections 4.1.2 and 4.2.2 of FIPS 180-4 -----

  function Ch(x: Word, y: Word, z: Word): Word { (x & y) ^ (!x & z) }

  function Maj(x: Word, y: Word, z: Word): Word { (x & y) ^ (x & z) ^ (y & z) }

  function BigSigma0(x: Word): Word { x.RotateRight(2) ^ x.RotateRight(13) ^ x.RotateRight(22) }

  function BigSigma1(x: Word): Word { x.RotateRight(6) ^ x.RotateRight(11) ^ x.RotateRight(25) }

  function SmallSigma0(x: Word): Word { x.RotateRight(7) ^ x.RotateRight(18) ^ (x >> 3) }

  function SmallSigma1(x: Word): Word { x.RotateRight(17) ^ x.RotateRight(19) ^ (x >> 10) }

  function K(t: nat): Word
    requires t < 64
  {
    if t < 8 then
      [0x428a2f98, 0x71374491, 0xb5c0fbcf, 0xe9b5dba5, 0x3956c25b, 0x59f111f1, 0x923f82a4, 0xab1c5ed5][t]
    else if t < 16 then
      [0xd807aa98, 0x12835b01, 0x243185be, 0x550c7dc3, 0x72be5d74, 0x80deb1fe, 0x9bdc06a7, 0xc19bf174][t - 8]
    else if t < 24 then
      [0xe49b69c1, 0xefbe4786, 0x0fc19dc6, 0x240ca1cc, 0x2de92c6f, 0x4a7484aa, 0x5cb0a9dc, 0x76f988da][t - 16]
    else if t < 32 then
      [0x983e5152, 0xa831c66d, 0xb00327c8, 0xbf597fc7, 0xc6e00bf3, 0xd5a79147, 0x06ca6351, 0x14292967][t - 24]
    else if t < 40 then
      [0x27b70a85, 0x2e1b2138, 0x4d2c6dfc, 0x53380d13, 0x650a7354, 0x766a0abb, 0x81c2c92e, 0x92722c85][t - 32]
    else if t < 48 then
      [0xa2bfe8a1, 0xa81a664b, 0xc24b8b70, 0xc76c51a3, 0xd192e819, 0xd6990624, 0xf40e3585, 0x106aa070][t - 40]
    else if t < 56 then
      [0x19a4c116, 0x1e376c08, 0x2748774c, 0x34b0bcb5, 0x391c0cb3, 0x4ed8aa4a, 0x5b9cca4f, 0x682e6ff3][t - 48]
    else
      [0x748f82ee, 0x78a5636f, 0x84c87814, 0x8cc70208, 0x90befffa, 0xa4506ceb, 0xbef9a3f7, 0xc67178f2][t - 56]
  }

  function Initial(): (s: seq<Word>)
    ensures |s| == 8
  {
    [0x6a09e667, 0xbb67ae85, 0x3c6ef372, 0xa54ff53a, 0x510e527f, 0x9b05688c, 0x1f83d9ab, 0x5be0cd19]
  }

  // ----- section 6.2.2 of FIPS 180-4 -----

  /** The working variables. */
  datatype Vars = Vars(a: Word, b: Word, c: Word, d: Word, e: Word, f: Word, g: Word, h: Word)

  predicate IsState(s: seq<Word>) { |s| == 8 }

  predicate IsBlock(b: seq<Octet>) { |b| == 64 }

  function BigWord(p: Octet, q: Octet, r: Octet, s: Octet): Word {
    ((p as Word) << 24) | ((q as Word) << 16) | ((r as Word) << 8) | (s as Word)
  }

  /** The message schedule. */
  function W(block: seq<Octet>, t: nat): Word
    requires IsBlock(block) && t < 64
  {
    if t < 16 then BigWord(block[4 * t], block[4 * t + 1], block[4 * t + 2], block[4 * t + 3])
    else Extend(W(block, t - 2), W(block, t - 7), W(block, t - 15), W(block, t - 16))
  }

  /** Addition modulo 2^32. */
  function Plus(x: Word, y: Word): Word { x + y }

  function Extend(w2: Word, w7: Word, w15: Word, w16: Word): Word {
    Plus(Plus(Plus(SmallSigma1(w2), w7), SmallSigma0(w15)), w16)
  }

  function Temp1(v: Vars, k: Word, w: Word): Word {
    Plus(Plus(Plus(Plus(v.h, BigSigma1(v.e)), Ch(v.e, v.f, v.g)), k), w)
  }

  function Temp2(v: Vars): Word { Plus(BigSigma0(v.a), Maj(v.a, v.b, v.c)) }

  function Step(v: Vars, k: Word, w: Word): Vars {
    var t1 := Temp1(v, k, w);
    Vars(Plus(t1, Temp2(v)), v.a, v.b, v.c, Plus(v.d, t1), v.e, v.f, v.g)
  }

  function Load(s: seq<Word>): Vars
    requires IsState(s)
  {
    Vars(s[0], s[1], s[2], s[3], s[4], s[5], s[6], s[7])
  }

  /** The working variables after t rounds. */
  function Working(s: seq<Word>, block: seq<Octet>, t: nat): Vars
    requires IsState(s) && IsBlock(block) && t <= 64
  {
    if t == 0 then Load(s) else Step(Working(s, block, t - 1), K(t - 1), W(block, t - 1))
  }

  function AddState(s: seq<Word>, v: Vars): (r: seq<Word>)
    requires IsState(s)
    ensures IsState(r)
  {
    [Plus(s[0], v.a), Plus(s[1], v.b), Plus(s[2], v.c), Plus(s[3], v.d),
     Plus(s[4], v.e), Plus(s[5], v.f), Plus(s[6], v.g), Plus(s[7], v.h)]
  }

  /** The hash value after one block, reduced to the given number of rounds. */
  function Compressed(s: seq<Word>, block: seq<Octet>, rounds: nat): (r: seq<Word>)
    requires IsState(s) && IsBlock(block) && rounds <= 64
    ensures IsState(r)
  {
    AddState(s, Working(s, block, rounds))
  }

  predicate WholeBlocks(s: seq<Octet>) { |s| % 64 == 0 }

  /** The hash value after all blocks of a padded message. */
  function HashBlocks(s: seq<Octet>, rounds: nat): (r: seq<Word>)
    requires WholeBlocks(s) && rounds <= 64
    ensures IsState(r)
  {
    if s == [] then Initial()
    else Compressed(HashBlocks(s[..|s| - 64], rounds), s[|s| - 64..], rounds)
  }

  // ----- word algebra -----

  lemma AnyOrder(a: Word, b: Word, c: Word, d: Word)
    ensures Plus(Plus(Plus(a, b), c), d) == Plus(Plus(Plus(d, c), b), a)
  {
    hide Plus;
    PlusCommutes(a, b);
    PlusCommutes(Plus(b, a), c);
    PlusCommutes(Plus(c, Plus(b, a)), d);
    PlusAssociates(c, b, a);
    PlusAssociates(d, Plus(c, b), a);
    PlusAssociates(d, c, b);
  }

  lemma PlusCommutes(x: Word, y: Word)
    ensures Plus(x, y) == Plus(y, x)
  {}

  lemma PlusIs(x: Word, y: Word)
    ensures Plus(x, y) == x + y
  {}

  lemma SumAssociates(x: Word, y: Word, z: Word)
    ensures Plus(x, y + z) == Plus(x + y, z)
  {}

  lemma PlusAssociates(x: Word, y: Word, z: Word)
    ensures Plus(x, Plus(y, z)) == Plus(Plus(x, y), z)
  {
    hide Plus;
    PlusIs(x, y);
    PlusIs(y, z);
    SumAssociates(x, y, z);
  }

  function Minus(x: Word, y: Word): Word { x - y }

  lemma SumMinus(x: Word, y: Word)
    ensures Minus(x + y, x) == y
  {}

  lemma PlusCancels(x: Word, y: Word, z: Word)
    ensures Plus(x, y) == Plus(x, z) <==> y == z
  {
    hide Plus, Minus;
    PlusIs(x, y);
    PlusIs(x, z);
    SumMinus(x, y);
    SumMinus(x, z);
  }

  function Xor(x: Word, y: Word): Word { x ^ y }

  // ----- section 5.1.1 of FIPS 180-4 -----

  /** x as k bytes, most significant first, higher bytes dropped. */
  function ToBytes(x: nat, k: nat): (b: seq<Byte>)
    ensures |b| == k
  {
    if k == 0 then [] else ToBytes(x / 256, k - 1) + [x % 256]
  }

  function Octets(b: seq<Byte>): (r: seq<Octet>)
    ensures |r| == |b| && forall i :: 0 <= i < |b| ==> r[i] == b[i] as Octet
  {
    seq(|b|, i requires 0 <= i < |b| => b[i] as Octet)
  }

  function Zeros(k: nat): (z: seq<Octet>)
    ensures |z| == k && forall i :: 0 <= i < k ==> z[i] == 0
  {
    seq(k, i => 0)
  }

  /** The bytes of zeros between the byte that holds the 1 bit and the length. */
  function ZeroBytes(n: nat): nat { (119 - n % 64) % 64 }

  lemma PaddedLength(n: nat)
    ensures (n + 1 + ZeroBytes(n) + 8) % 64 == 0
  {
    assert n == 64 * (n / 64) + n % 64;
  }

  function Padded(m: seq<Octet>): (p: seq<Octet>)
    ensures WholeBlocks(p)
  {
    PaddedLength(|m|);
    m + [0x80] + Zeros(ZeroBytes(|m|)) + Octets(ToBytes(8 * |m|, 8))
  }

  /** z zero bits after the 1 bit leave 64 bits to a multiple of 512. */
  predicate Fills(n: nat, z: nat) { (8 * n + 1 + z) % 512 == 448 }

  /** The zero bits of the padding, seven of them in the byte of the 1 bit, are as few as possible. */
  lemma PaddingIsLeast(n: nat)
    ensures Fills(n, 8 * ZeroBytes(n) + 7)
    ensures forall y: nat :: y < 8 * ZeroBytes(n) + 7 ==> !Fills(n, y)
  {
    var q, r := n / 64, n % 64;
    var z := 8 * ZeroBytes(n) + 7;
    assert n == 64 * q + r;
    assert 8 * n + 1 + z == 512 * q + (8 * r + 1 + z);
    assert 8 * r + 1 + z == 448 || 8 * r + 1 + z == 448 + 512;
    forall y: nat | y < z
      ensures !Fills(n, y)
    {
      assert 8 * n + 1 + y == 512 * q + (8 * r + 1 + y);
      NoEarlierFill(q, 8 * r + 1 + y, 8 * r + 1 + z);
    }
  }

  lemma NoEarlierFill(q: nat, x: nat, end: nat)
    requires x < end && 0 < x && (end == 448 || (end == 960 && 448 < x))
    ensures (512 * q + x) % 512 != 448
  {
    assert (512 * q + x) % 512 == x % 512;
  }

  lemma {:induction false} ToBytesValue(x: nat, k: nat)
    ensures BigEndian(ToBytes(x, k)) == x % Pow(256, k)
  {
    if k == 0 {
    } else {
      ToBytesValue(x / 256, k - 1);
      BigEndianSnoc(ToBytes(x / 256, k - 1), x % 256);
      PowNext(256, k - 1);
      PeelDigit(x, Pow(256, k - 1));
    }
  }

  lemma PeelDigit(x: nat, p: nat)
    requires p > 0
    ensures 256 * (x / 256 % p) + x % 256 == x % (256 * p)
  {
    var y, b := x / 256, x % 256;
    var q, r := y / p, y % p;
    assert x == 256 * (q * p + r) + b;
    assert 256 * (q * p) == q * (256 * p);
    DivisionIs(x, 256 * p, q, 256 * r + b);
  }

  /** The length field of a message in the standard's domain holds its length in bits. */
  lemma LengthField(n: nat)
    requires n < 0x2000_0000_0000_0000
    ensures BigEndian(ToBytes(8 * n, 8)) == 8 * n
  {
    hide BigEndian, ToBytes, Pow;
    ToBytesValue(8 * n, 8);
    EightBytes();
    DivisionIs(8 * n, Pow(256, 8), 0, 8 * n);
  }

  lemma EightBytes()
    ensures Pow(256, 8) == U64
  {
    assert Pow(256, 2) == 65536;
    PowAdd(256, 2, 2);
    PowAdd(256, 4, 4);
  }

  lemma {:induction false} ToBytesAt(x: nat, k: nat, i: nat)
    requires i < k
    ensures ToBytes(x, k)[k - 1 - i] == x / Pow(256, i) % 256
  {
    if i == 0 {
      PowZero(256);
    } else {
      ToBytesAt(x / 256, k - 1, i - 1);
      PowNext(256, i - 1);
      DivDiv(x, 256, Pow(256, i - 1));
    }
  }

  // ----- traces -----

  datatype Record = Record(compression: nat, round: nat, w: Word, sum0: Word, sum1: Word, choice: Word,
                           majority: Word, temp1: Word, temp2: Word, before: Vars, after: Vars)

  function RecordOf(compression: nat, round: nat, w: Word, v: Vars): Record
    requires round < 64
  {
    Record(compression, round, w, BigSigma0(v.a), BigSigma1(v.e), Ch(v.e, v.f, v.g), Maj(v.a, v.b, v.c),
           Temp1(v, K(round), w), Temp2(v), v, Step(v, K(round), w))
  }

  /** The records of one compression. */
  function Records(s: seq<Word>, block: seq<Octet>, rounds: nat, compression: nat): (r: seq<Record>)
    requires IsState(s) && IsBlock(block) && rounds <= 64
    ensures |r| == rounds
    ensures forall t :: 0 <= t < rounds ==> r[t] == RecordOf(compression, t, W(block, t), Working(s, block, t))
  {
    seq(rounds, t requires 0 <= t < rounds => RecordOf(compression, t, W(block, t), Working(s, block, t)))
  }

  /** The records of all blocks of a padded message. */
  function Trace(s: seq<Octet>, rounds: nat): seq<Record>
    requires WholeBlocks(s) && rounds <= 64
    decreases |s|, 1
  {
    if s == [] then []
    else TraceOfLast(s[..|s| - 64], s[|s| - 64..], rounds)
  }

  function TraceOfLast(rest: seq<Octet>, block: seq<Octet>, rounds: nat): seq<Record>
    requires WholeBlocks(rest) && IsBlock(block) && rounds <= 64
    decreases |rest| + |block|, 0
  {
    Trace(rest, rounds) + Records(HashBlocks(rest, rounds), block, rounds, |rest| / 64)
  }

  /** Within a compression every record starts in the state the one before it ended in. */
  lemma RecordsChain(s: seq<Word>, block: seq<Octet>, rounds: nat, compression: nat)
    requires IsState(s) && IsBlock(block) && rounds <= 64
    ensures var r := Records(s, block, rounds, compression);
      (rounds > 0 ==> r[0].before == Load(s) && Compressed(s, block, rounds) == AddState(s, r[rounds - 1].after))
      && forall t :: 0 < t < rounds ==> r[t].before == r[t - 1].after
  {
    hide W, K, Step, Temp1, Temp2;
  }

  lemma {:induction false} TraceLength(s: seq<Octet>, rounds: nat)
    requires WholeBlocks(s) && rounds <= 64
    ensures |Trace(s, rounds)| == rounds * (|s| / 64)
  {
    hide HashBlocks, Records;
    if s != [] {
      TraceLength(s[..|s| - 64], rounds);
      MulDistributes((|s| - 64) / 64, 1, rounds);
    }
  }

  /** A trace has one record per round of every block: record c * rounds + t is round t of block c,
      computed from the hash value of the blocks before it. */
  lemma {:induction false} TraceAt(s: seq<Octet>, rounds: nat, c: nat, t: nat)
    requires WholeBlocks(s) && rounds <= 64 && c < |s| / 64 && t < rounds
    ensures 64 * c + 64 <= |s| && c * rounds + t < |Trace(s, rounds)|
    ensures Trace(s, rounds)[c * rounds + t] ==
      RecordOf(c, t, W(s[64 * c..64 * c + 64], t), Working(HashBlocks(s[..64 * c], rounds), s[64 * c..64 * c + 64], t))
  {
    hide HashBlocks, RecordOf, W, Working;
    var rest, last := s[..|s| - 64], |s| / 64 - 1;
    TraceLength(rest, rounds);
    TraceLength(s, rounds);
    assert |rest| / 64 == last;
    if c == last {
      assert s[64 * c..64 * c + 64] == s[|s| - 64..] && s[..64 * c] == rest;
      assert c * rounds == |Trace(rest, rounds)|;
    } else {
      TraceAt(rest, rounds, c, t);
      assert rest[64 * c..64 * c + 64] == s[64 * c..64 * c + 64] && rest[..64 * c] == s[..64 * c];
    }
  }

  // ----- compress -----

  lemma DirectWord(block: seq<Octet>, t: nat)
    requires IsBlock(block) && t < 16
    ensures W(block, t) == BigWord(block[4 * t], block[4 * t + 1], block[4 * t + 2], block[4 * t + 3])
  {}

  /** The order of the four terms does not matter. */
  lemma ExtendedWord(block: seq<Octet>, t: nat)
    requires IsBlock(block) && 16 <= t < 64
    ensures W(block, t) ==
      Plus(Plus(Plus(W(block, t - 16), SmallSigma0(W(block, t - 15))), W(block, t - 7)), SmallSigma1(W(block, t - 2)))
  {
    hide SmallSigma0, SmallSigma1, BigWord, Plus;
    AnyOrder(W(block, t - 16), SmallSigma0(W(block, t - 15)), W(block, t - 7), SmallSigma1(W(block, t - 2)));
  }

  /** The schedule array, filled in place. */
  method FillSchedule(block: seq<Octet>) returns (schedule: array<Word>)
    requires IsBlock(block)
    ensures fresh(schedule) && schedule.Length == 64
    ensures forall t :: 0 <= t < 64 ==> schedule[t] == W(block, t)
  {
    hide W, SmallSigma0, SmallSigma1, BigWord, Plus;
    schedule := new Word[64](i => 0);
    for i := 0 to 16
      invariant forall t :: 0 <= t < i ==> schedule[t] == W(block, t)
    {
      DirectWord(block, i);
      schedule[i] := BigWord(block[4 * i], block[4 * i + 1], block[4 * i + 2], block[4 * i + 3]);
    }
    for i := 16 to 64
      invariant forall t :: 0 <= t < i ==> schedule[t] == W(block, t)
    {
      var s0 := SmallSigma0(schedule[i - 15]);
      var s1 := SmallSigma1(schedule[i - 2]);
      ExtendedWord(block, i);
      schedule[i] := Plus(Plus(Plus(schedule[i - 16], s0), schedule[i - 7]), s1);
    }
  }

  /** One round on the eight registers. */
  method Round(v: Vars, k: Word, w: Word) returns (after: Vars, sum0: Word, sum1: Word, choice: Word, majority: Word,
                                                   temp1: Word, temp2: Word)
    ensures after == Step(v, k, w) && temp1 == Temp1(v, k, w) && temp2 == Temp2(v)
    ensures sum0 == BigSigma0(v.a) && sum1 == BigSigma1(v.e)
    ensures choice == Ch(v.e, v.f, v.g) && majority == Maj(v.a, v.b, v.c)
  {
    hide Ch, Maj, BigSigma0, BigSigma1, Plus;
    var a, b, c, d, e, f, g, h := v.a, v.b, v.c, v.d, v.e, v.f, v.g, v.h;
    sum1 := BigSigma1(e);
    choice := Ch(e, f, g);
    temp1 := Plus(Plus(Plus(Plus(h, sum1), choice), k), w);
    sum0 := BigSigma0(a);
    majority := Maj(a, b, c);
    temp2 := Plus(sum0, majority);
    h := g; g := f; f := e; e := Plus(d, temp1);
    d := c; c := b; b := a; a := Plus(temp1, temp2);
    after := Vars(a, b, c, d, e, f, g, h);
  }

  lemma WorkingNext(s: seq<Word>, block: seq<Octet>, t: nat)
    requires IsState(s) && IsBlock(block) && t < 64
    ensures Working(s, block, 0) == Load(s)
    ensures Working(s, block, t + 1) == Step(Working(s, block, t), K(t), W(block, t))
  {
    hide W, K, Step;
  }

  lemma WholeRecords(s: seq<Word>, block: seq<Octet>, rounds: nat, compression: nat)
    requires IsState(s) && IsBlock(block) && rounds <= 64
    ensures var all := Records(s, block, rounds, compression); all[..0] == [] && all[..rounds] == all
  {
    hide W, K, Working, RecordOf;
  }

  lemma RecordsNext(s: seq<Word>, block: seq<Octet>, rounds: nat, compression: nat, i: nat)
    requires IsState(s) && IsBlock(block) && i < rounds <= 64
    ensures var all := Records(s, block, rounds, compression);
      all[..i + 1] == all[..i] + [RecordOf(compression, i, W(block, i), Working(s, block, i))]
  {
    hide W, K, Working, RecordOf;
  }

  /** compress<CollectTrace>: the state becomes the next hash value; records are appended when collected. */
  method Compress(state: array<Word>, block: seq<Octet>, rounds: nat, collect: bool, records: seq<Record>,
                  compression: nat)
    returns (r: seq<Record>)
    requires state.Length == 8 && IsBlock(block) && rounds <= 64
    modifies state
    ensures state[..] == Compressed(old(state[..]), block, rounds)
    ensures r == if collect then records + Records(old(state[..]), block, rounds, compression) else records
  {
    hide W, K, Ch, Maj, BigSigma0, BigSigma1, Working, Step, Temp1, Temp2, Records;
    ghost var s := state[..];
    var schedule := FillSchedule(block);
    var v := Vars(state[0], state[1], state[2], state[3], state[4], state[5], state[6], state[7]);
    r := records;
    WorkingNext(s, block, 0);
    WholeRecords(s, block, rounds, compression);
    for i := 0 to rounds
      invariant v == Working(s, block, i)
      invariant state[..] == s && forall t :: 0 <= t < 64 ==> schedule[t] == W(block, t)
      invariant r == if collect then records + Records(s, block, rounds, compression)[..i] else records
    {
      WorkingNext(s, block, i);
      var after, sum0, sum1, choice, majority, temp1, temp2 := Round(v, K(i), schedule[i]);
      if collect {
        RecordsNext(s, block, rounds, compression, i);
        r := r + [Record(compression, i, schedule[i], sum0, sum1, choice, majority, temp1, temp2, v, after)];
      }
      v := after;
    }
    AddInPlace(state, v);
  }

  method AddFour(state: array<Word>, i: nat, p: Word, q: Word, r: Word, t: Word)
    requires i + 4 <= state.Length
    modifies state
    ensures state[i] == Plus(old(state[i]), p) && state[i + 1] == Plus(old(state[i + 1]), q)
    ensures state[i + 2] == Plus(old(state[i + 2]), r) && state[i + 3] == Plus(old(state[i + 3]), t)
    ensures forall j :: 0 <= j < state.Length && !(i <= j < i + 4) ==> state[j] == old(state[j])
  {
    hide Plus;
    state[i] := Plus(state[i], p);
    state[i + 1] := Plus(state[i + 1], q);
    state[i + 2] := Plus(state[i + 2], r);
    state[i + 3] := Plus(state[i + 3], t);
  }

  method AddInPlace(state: array<Word>, v: Vars)
    requires state.Length == 8
    modifies state
    ensures state[..] == AddState(old(state[..]), v)
  {
    hide Plus;
    var s := state[..];
    AddFour(state, 0, v.a, v.b, v.c, v.d);
    AddFour(state, 4, v.e, v.f, v.g, v.h);
    assert state[..] == AddState(s, v);
  }

  // ----- sha256_impl -----

  function WordOctets(w: Word): seq<Octet> {
    [((w >> 24) & 0xff) as Octet, ((w >> 16) & 0xff) as Octet, ((w >> 8) & 0xff) as Octet, (w & 0xff) as Octet]
  }

  /** The words of the hash value, most significant byte first. */
  function Serialized(s: seq<Word>): (d: seq<Octet>)
    ensures |d| == 4 * |s|
  {
    if s == [] then [] else Serialized(s[..|s| - 1]) + WordOctets(s[|s| - 1])
  }

  /** The digest of the standard, for a reduced number of rounds. */
  function Digest(m: seq<Octet>, rounds: nat): (d: seq<Octet>)
    requires rounds <= 64
    ensures |d| == 32
  {
    Serialized(HashBlocks(Padded(m), rounds))
  }

  lemma NextBlock(s: seq<Octet>, block: seq<Octet>, rounds: nat)
    requires WholeBlocks(s) && IsBlock(block) && rounds <= 64
    ensures WholeBlocks(s + block)
    ensures HashBlocks(s + block, rounds) == Compressed(HashBlocks(s, rounds), block, rounds)
    ensures Trace(s + block, rounds) == Trace(s, rounds) + Records(HashBlocks(s, rounds), block, rounds, |s| / 64)
  {
    hide Compressed, Records, Initial;
    assert (s + block)[..|s + block| - 64] == s && (s + block)[|s + block| - 64..] == block;
  }

  method CompressNext(state: array<Word>, ghost done: seq<Octet>, block: seq<Octet>, rounds: nat,
                      collect: bool, records: seq<Record>, index: nat)
    returns (r: seq<Record>)
    requires state.Length == 8 && IsBlock(block) && rounds <= 64 && WholeBlocks(done) && index == |done| / 64
    requires state[..] == HashBlocks(done, rounds) && records == if collect then Trace(done, rounds) else []
    modifies state
    ensures WholeBlocks(done + block) && state[..] == HashBlocks(done + block, rounds)
    ensures r == if collect then Trace(done + block, rounds) else []
  {
    hide HashBlocks, Trace, Compressed, Records;
    NextBlock(done, block, rounds);
    r := Compress(state, block, rounds, collect, records, index);
  }

  /** The tail buffer: the remaining bytes, the 1 bit, zeros and the length. */
  method BuildTail(rest: seq<Octet>, size: nat) returns (tail: array<Octet>, paddedSize: nat)
    requires |rest| < 64 && |rest| == size % 64
    ensures fresh(tail) && tail.Length == 128 && paddedSize == (if |rest| < 56 then 64 else 128)
    ensures tail[..paddedSize] == rest + [0x80] + Zeros(ZeroBytes(size)) + Octets(ToBytes(8 * size, 8))
  {
    hide ToBytes, Pow, Zeros, ZeroBytes, Octets;
    tail := new Octet[128](i => 0);
    var remainder := |rest|;
    for i := 0 to remainder
      invariant forall j :: 0 <= j < i ==> tail[j] == rest[j]
      invariant forall j :: i <= j < 128 ==> tail[j] == 0
    {
      tail[i] := rest[i];
    }
    tail[remainder] := 0x80;
    paddedSize := if remainder < 56 then 64 else 128;
    assert forall j :: remainder < j < 128 ==> tail[j] == 0;
    WriteLength(tail, paddedSize, size);
    ghost var t := tail[..paddedSize];
    forall j | remainder < j < paddedSize - 8
      ensures t[j] == 0
    {
      assert t[j] == tail[j];
    }
    TailIs(t, rest, size);
  }

  /** The length field, written from its last byte. */
  method WriteLength(tail: array<Octet>, paddedSize: nat, size: nat)
    requires 8 <= paddedSize <= tail.Length
    modifies tail
    ensures forall j :: 0 <= j < tail.Length && !(paddedSize - 8 <= j < paddedSize) ==> tail[j] == old(tail[j])
    ensures tail[paddedSize - 8..paddedSize] == Octets(ToBytes(8 * size, 8))
  {
    hide ToBytes, Pow, Octets;
    var bitLength := 8 * size % U64;
    ghost var field := Octets(ToBytes(8 * size, 8));
    for i := 0 to 8
      invariant forall j :: 0 <= j < tail.Length && !(paddedSize - i <= j < paddedSize) ==> tail[j] == old(tail[j])
      invariant forall j :: paddedSize - i <= j < paddedSize ==> tail[j] == field[j - paddedSize + 8]
    {
      LengthByte(8 * size, i);
      tail[paddedSize - 1 - i] := (bitLength / Pow(256, i) % 256) as Octet;
    }
  }

  lemma LengthByte(x: nat, i: nat)
    requires i < 8
    ensures x % U64 / Pow(256, i) % 256 == ToBytes(x, 8)[7 - i]
  {
    hide ToBytes, Pow;
    ToBytesAt(x, 8, i);
    EightBytes();
    PowAdd(256, i, 8 - i);
    PowNext(256, 7 - i);
    DropHigh(x, Pow(256, i), Pow(256, 7 - i));
  }

  lemma DropHigh(x: nat, p: nat, q: nat)
    requires p > 0 && q > 0
    ensures p * (256 * q) > 0 && x % (p * (256 * q)) / p % 256 == x / p % 256
  {
    var m := p * (256 * q);
    var h, l := x / m, x % m;
    assert x == l + h * m;
    assert h * m == (h * q * 256) * p;
    DivAddMultiple(l, h * q * 256, p);
    DivAddMultiple(l / p, h * q, 256);
  }

  lemma TailIs(t: seq<Octet>, rest: seq<Octet>, size: nat)
    requires |rest| == size % 64 && |t| == (if |rest| < 56 then 64 else 128)
    requires t[..|rest|] == rest && t[|rest|] == 0x80
    requires forall j :: |rest| < j < |t| - 8 ==> t[j] == 0
    requires t[|t| - 8..] == Octets(ToBytes(8 * size, 8))
    ensures t == rest + [0x80] + Zeros(ZeroBytes(size)) + Octets(ToBytes(8 * size, 8))
  {
    hide ToBytes, Octets;
    assert ZeroBytes(size) == |t| - 9 - |rest|;
    FourPieces(t, rest, ZeroBytes(size), Octets(ToBytes(8 * size, 8)));
  }

  lemma FourPieces(t: seq<Octet>, rest: seq<Octet>, zeros: nat, field: seq<Octet>)
    requires |field| == 8 && |t| == |rest| + 1 + zeros + 8
    requires t[..|rest|] == rest && t[|rest|] == 0x80
    requires forall j :: |rest| < j < |t| - 8 ==> t[j] == 0
    requires t[|t| - 8..] == field
    ensures t == rest + [0x80] + Zeros(zeros) + field
  {
    assert t[|rest| + 1..|t| - 8] == Zeros(zeros);
    assert t == t[..|rest|] + [t[|rest|]] + t[|rest| + 1..|t| - 8] + t[|t| - 8..];
  }

  datatype Outcome = BadRounds | Done(digest: seq<Octet>, records: seq<Record>)

  /** The full blocks of a message, compressed as they stream by. */
  method AbsorbBlocks(state: array<Word>, data: seq<Octet>, rounds: nat, collect: bool)
    returns (records: seq<Record>, index: nat, offset: nat)
    requires state.Length == 8 && rounds <= 64 && state[..] == Initial()
    modifies state
    ensures offset <= |data| && |data| - offset == |data| % 64 && WholeBlocks(data[..offset]) && index == offset / 64
    ensures state[..] == HashBlocks(data[..offset], rounds)
    ensures records == if collect then Trace(data[..offset], rounds) else []
  {
    hide HashBlocks, Trace, Initial;
    StartOfHash(rounds);
    assert data[..0] == [];
    records, index, offset := [], 0, 0;
    while |data| - offset >= 64
      invariant 0 <= offset <= |data| && offset % 64 == 0 && index == offset / 64
      invariant state[..] == HashBlocks(data[..offset], rounds)
      invariant records == if collect then Trace(data[..offset], rounds) else []
    {
      assert data[..offset] + data[offset..offset + 64] == data[..offset + 64];
      records := CompressNext(state, data[..offset], data[offset..offset + 64], rounds, collect, records, index);
      index, offset := index + 1, offset + 64;
    }
  }

  /** One or two blocks of tail. */
  method AbsorbTail(state: array<Word>, ghost done: seq<Octet>, tail: seq<Octet>, rounds: nat,
                    collect: bool, soFar: seq<Record>, index: nat)
    returns (records: seq<Record>)
    requires state.Length == 8 && (|tail| == 64 || |tail| == 128) && rounds <= 64
    requires WholeBlocks(done) && index == |done| / 64
    requires state[..] == HashBlocks(done, rounds) && soFar == if collect then Trace(done, rounds) else []
    modifies state
    ensures WholeBlocks(done + tail) && state[..] == HashBlocks(done + tail, rounds)
    ensures records == if collect then Trace(done + tail, rounds) else []
  {
    hide HashBlocks, Trace;
    records := CompressNext(state, done, tail[..64], rounds, collect, soFar, index);
    if |tail| == 128 {
      records := CompressNext(state, done + tail[..64], tail[64..], rounds, collect, records, index + 1);
      assert done + tail[..64] + tail[64..] == done + tail;
    } else {
      assert tail[..64] == tail;
    }
  }

  /** sha256_impl: for one to 64 rounds, the digest of the standard's padding and hash computation,
      and with a trace the records of every round of every block. */
  method Sha256Impl(data: seq<Octet>, rounds: nat, collect: bool) returns (r: Outcome)
    ensures r.BadRounds? <==> rounds < 1 || rounds > 64
    ensures r.Done? ==> r.digest == Digest(data, rounds)
    ensures r.Done? ==> r.records == if collect then Trace(Padded(data), rounds) else []
  {
    if rounds < 1 || rounds > 64 { return BadRounds; }
    hide HashBlocks, Trace, ToBytes, Serialized, WordOctets, Initial, Zeros, ZeroBytes, Octets, Padded;
    var initial := Initial();
    var state := new Word[8](i requires 0 <= i < 8 => initial[i]);
    assert state[..] == initial;
    var records, index, offset := AbsorbBlocks(state, data, rounds, collect);
    var tail, paddedSize := BuildTail(data[offset..], |data|);
    PaddedIs(data, offset, tail[..paddedSize]);
    records := AbsorbTail(state, data[..offset], tail[..paddedSize], rounds, collect, records, index);
    var digest := Serialize(state[..]);
    r := Done(digest, records);
  }

  lemma StartOfHash(rounds: nat)
    requires rounds <= 64
    ensures HashBlocks([], rounds) == Initial() && Trace([], rounds) == []
  {}

  lemma PaddedIs(data: seq<Octet>, offset: nat, tail: seq<Octet>)
    requires offset <= |data|
    requires tail == data[offset..] + [0x80] + Zeros(ZeroBytes(|data|)) + Octets(ToBytes(8 * |data|, 8))
    ensures Padded(data) == data[..offset] + tail
  {
    hide ToBytes;
    assert data == data[..offset] + data[offset..];
  }

  method Serialize(s: seq<Word>) returns (d: seq<Octet>)
    ensures d == Serialized(s)
  {
    hide WordOctets;
    d := [];
    for i := 0 to |s|
      invariant d == Serialized(s[..i])
    {
      assert s[..i + 1][..i] == s[..i];
      d := d + WordOctets(s[i]);
    }
    assert s[..|s|] == s;
  }
}
