// What the trace of a header can and cannot depend on its nonce (the equalities demanded by
// src/mining/mining_controller.cpp of every traced pair of nonces).
module NonceDiffusion {
  import opened Sha256

  type Prefix = p: seq<Octet> | |p| == 76 witness seq(76, i => 0)

  /** set_nonce: the last four bytes of the header, least significant first. */
  function HeaderOf(prefix: Prefix, nonce: Word): (h: seq<Octet>)
    ensures |h| == 80
  {
    prefix + NonceOctets(nonce)
  }

  function NonceOctets(nonce: Word): (b: seq<Octet>)
    ensures |b| == 4
  {
    [(nonce & 0xff) as Octet, ((nonce >> 8) & 0xff) as Octet,
     ((nonce >> 16) & 0xff) as Octet, ((nonce >> 24) & 0xff) as Octet]
  }

  /** The nonce with its bytes in the opposite order. */
  function ByteSwap(x: Word): Word {
    ((x & 0xff) << 24) | ((x & 0xff00) << 8) | ((x >> 8) & 0xff00) | (x >> 24)
  }

  lemma NonceWord(nonce: Word)
    ensures var b := NonceOctets(nonce); BigWord(b[0], b[1], b[2], b[3]) == ByteSwap(nonce)
  {}

  lemma SwapTwice(x: Word)
    ensures ByteSwap(ByteSwap(x)) == x
  {}

  lemma SwapOfDifference(x: Word, y: Word)
    ensures ByteSwap(x) ^ ByteSwap(y) == ByteSwap(x ^ y)
  {}

  /** Nonce bit b becomes bit 8 (3 - b / 8) + b % 8. */
  lemma SwapOfBit(b: Word)
    requires b < 32
    ensures ByteSwap(1 << b) == 1 << (8 * (3 - b / 8) + b % 8)
  {}

  /** The three rotations and shifts of sigma0 have a trivial kernel. */
  lemma Kernel(d: Word)
    requires d.RotateRight(7) ^ d.RotateRight(18) ^ (d >> 3) == 0
    ensures d == 0
  {}

  lemma RotationsLinear(x: Word, y: Word)
    ensures Xor(x.RotateRight(7) ^ x.RotateRight(18) ^ (x >> 3), y.RotateRight(7) ^ y.RotateRight(18) ^ (y >> 3))
      == SmallSigma0(x ^ y)
  {}

  lemma Sigma0Is(x: Word)
    ensures SmallSigma0(x) == x.RotateRight(7) ^ x.RotateRight(18) ^ (x >> 3)
  {}

  lemma Sigma0Linear(x: Word, y: Word)
    ensures Xor(SmallSigma0(x), SmallSigma0(y)) == SmallSigma0(x ^ y)
  {
    hide SmallSigma0, Xor;
    Sigma0Is(x);
    Sigma0Is(y);
    RotationsLinear(x, y);
  }

  lemma Sigma0Kernel(d: Word)
    requires SmallSigma0(d) == 0
    ensures d == 0
  {
    hide SmallSigma0;
    Sigma0Is(d);
    Kernel(d);
  }

  lemma XorSelf(x: Word)
    ensures Xor(x, x) == 0
  {}

  lemma XorZero(x: Word, y: Word)
    requires x ^ y == 0
    ensures x == y
  {}

  lemma Sigma0Injective(x: Word, y: Word)
    requires SmallSigma0(x) == SmallSigma0(y)
    ensures x == y
  {
    hide SmallSigma0, Xor;
    Sigma0Linear(x, y);
    XorSelf(SmallSigma0(x));
    Sigma0Kernel(x ^ y);
    XorZero(x, y);
  }

  // ----- the padded header -----

  /** The first block holds the first 64 bytes, the second the rest of the prefix, the nonce and the padding. */
  function SecondBlock(prefix: Prefix, nonce: Word): (b: seq<Octet>)
    ensures IsBlock(b)
  {
    prefix[64..] + NonceOctets(nonce) + Tail()
  }

  function Tail(): (t: seq<Octet>)
    ensures |t| == 48
  {
    [0x80] + Zeros(39) + Octets(ToBytes(640, 8))
  }

  lemma PaddedHeader(prefix: Prefix, nonce: Word)
    ensures Padded(HeaderOf(prefix, nonce)) == prefix[..64] + SecondBlock(prefix, nonce)
  {
    hide ToBytes, NonceOctets;
    assert ZeroBytes(80) == 39;
    assert prefix == prefix[..64] + prefix[64..];
  }

  /** The words of the second block: the nonce is word 3, byte-swapped; no other direct word sees it. */
  lemma DirectWords(prefix: Prefix, a: Word, b: Word, t: nat)
    requires t < 16
    ensures t == 3 ==> W(SecondBlock(prefix, a), t) == ByteSwap(a)
    ensures t != 3 ==> W(SecondBlock(prefix, a), t) == W(SecondBlock(prefix, b), t)
  {
    hide BigWord, ByteSwap, NonceOctets, Tail;
    NonceWord(a);
    DirectWord(SecondBlock(prefix, a), t);
    DirectWord(SecondBlock(prefix, b), t);
  }

  /** The schedules agree except at word 3 up to word 17, and word 18 differs again. */
  lemma Schedules(prefix: Prefix, a: Word, b: Word)
    requires a != b
    ensures forall t :: 0 <= t < 18 && t != 3 ==> W(SecondBlock(prefix, a), t) == W(SecondBlock(prefix, b), t)
    ensures W(SecondBlock(prefix, a), 3) == ByteSwap(a) && W(SecondBlock(prefix, b), 3) == ByteSwap(b) != ByteSwap(a)
    ensures W(SecondBlock(prefix, a), 18) != W(SecondBlock(prefix, b), 18)
  {
    hide W, ByteSwap, SecondBlock, SmallSigma0, SmallSigma1, Plus;
    var p, q := SecondBlock(prefix, a), SecondBlock(prefix, b);
    SwapTwice(a);
    SwapTwice(b);
    forall t | 0 <= t < 16
      ensures t != 3 ==> W(p, t) == W(q, t)
      ensures t == 3 ==> W(p, t) == ByteSwap(a) && W(q, t) == ByteSwap(b)
    {
      DirectWords(prefix, a, b, t);
      DirectWords(prefix, b, a, t);
    }
    ExtendedWord(p, 16);
    ExtendedWord(q, 16);
    ExtendedWord(p, 17);
    ExtendedWord(q, 17);
    WordEighteen(p, q);
  }

  lemma WordEighteen(p: seq<Octet>, q: seq<Octet>)
    requires IsBlock(p) && IsBlock(q) && W(p, 3) != W(q, 3)
    requires W(p, 2) == W(q, 2) && W(p, 11) == W(q, 11) && W(p, 16) == W(q, 16)
    ensures W(p, 18) != W(q, 18)
  {
    hide W, SmallSigma0, SmallSigma1, Plus;
    ExtendedWord(p, 18);
    ExtendedWord(q, 18);
    if W(p, 18) == W(q, 18) {
      var x, y := Plus(W(p, 2), SmallSigma0(W(p, 3))), Plus(W(p, 2), SmallSigma0(W(q, 3)));
      CancelLast(Plus(x, W(p, 11)), Plus(y, W(p, 11)), SmallSigma1(W(p, 16)));
      CancelLast(x, y, W(p, 11));
      PlusCancels(W(p, 2), SmallSigma0(W(p, 3)), SmallSigma0(W(q, 3)));
      Sigma0Injective(W(p, 3), W(q, 3));
    }
  }

  lemma CancelLast(x: Word, y: Word, z: Word)
    requires Plus(x, z) == Plus(y, z)
    ensures x == y
  {
    hide Plus;
    PlusCommutes(x, z);
    PlusCommutes(y, z);
    PlusCancels(z, x, y);
  }

  // ----- the schedule of a trace -----

  datatype Rebuilt = BadTrace | Schedule(words: seq<Word>)

  /** research_schedule_json: the words rebuilt from the block, checked one by one against the trace. */
  method ResearchSchedule(block: seq<Octet>, rounds: seq<Record>) returns (r: Rebuilt)
    requires IsBlock(block)
    ensures r == BadTrace <==> |rounds| != 64 || exists t :: 0 <= t < 64 && rounds[t].w != W(block, t)
    ensures r.Schedule? ==> |r.words| == 64 && forall t :: 0 <= t < 64 ==> r.words[t] == W(block, t)
  {
    hide W, SmallSigma0, SmallSigma1, BigWord, Plus;
    if |rounds| != 64 { return BadTrace; }
    var schedule: seq<Word> := [];
    for t := 0 to 64
      invariant |schedule| == t && forall i :: 0 <= i < t ==> schedule[i] == W(block, i) == rounds[i].w
    {
      var w: Word;
      if t < 16 {
        DirectWord(block, t);
        w := BigWord(block[4 * t], block[4 * t + 1], block[4 * t + 2], block[4 * t + 3]);
      } else {
        w := Extend(schedule[t - 2], schedule[t - 7], schedule[t - 15], schedule[t - 16]);
        LaterWord(block, t);
      }
      if w != rounds[t].w { return BadTrace; }
      schedule := schedule + [w];
    }
    r := Schedule(schedule);
  }

  lemma LaterWord(block: seq<Octet>, t: nat)
    requires IsBlock(block) && 16 <= t < 64
    ensures W(block, t) == Extend(W(block, t - 2), W(block, t - 7), W(block, t - 15), W(block, t - 16))
  {}

  /** The records of a compression hold the schedule of its block, so the check never fails on them. */
  lemma TracedWords(s: seq<Word>, block: seq<Octet>, compression: nat, t: nat)
    requires IsState(s) && IsBlock(block) && t < 64
    ensures Records(s, block, 64, compression)[t].w == W(block, t)
  {
    hide W, Working, K, Step, Temp1, Temp2;
  }

  // ----- traces of two nonces -----

  function HeaderTrace(prefix: Prefix, nonce: Word): seq<Record> {
    Trace(Padded(HeaderOf(prefix, nonce)), 64)
  }

  /** The 128 records: those of the first block, the same for every nonce, then those of the second. */
  lemma TwoCompressions(prefix: Prefix, nonce: Word)
    ensures HeaderTrace(prefix, nonce) ==
      Records(Initial(), prefix[..64], 64, 0)
      + Records(Compressed(Initial(), prefix[..64], 64), SecondBlock(prefix, nonce), 64, 1)
  {
    hide HashBlocks, Trace, Compressed, Records, Initial, SecondBlock;
    PaddedHeader(prefix, nonce);
    StartOfHash(64);
    NextBlock([], prefix[..64], 64);
    assert [] + prefix[..64] == prefix[..64];
    NextBlock(prefix[..64], SecondBlock(prefix, nonce), 64);
  }

  /** Equal words keep two runs of one compression equal. */
  lemma {:induction false} SameWorking(s: seq<Word>, p: seq<Octet>, q: seq<Octet>, n: nat)
    requires IsState(s) && IsBlock(p) && IsBlock(q) && n <= 64
    requires forall t :: 0 <= t < n ==> W(p, t) == W(q, t)
    ensures Working(s, p, n) == Working(s, q, n)
  {
    hide W, K, Step, Load;
    if n > 0 { SameWorking(s, p, q, n - 1); }
  }

  function FirstState(prefix: Prefix): (s: seq<Word>)
    ensures IsState(s)
  {
    Compressed(Initial(), prefix[..64], 64)
  }

  /** Record 64 + t is round t of the second compression. */
  lemma RecordAt(prefix: Prefix, nonce: Word, i: nat)
    requires i < 128
    ensures var x, block := HeaderTrace(prefix, nonce), SecondBlock(prefix, nonce);
      |x| == 128 && x[i] ==
        if i < 64 then RecordOf(0, i, W(prefix[..64], i), Working(Initial(), prefix[..64], i))
        else RecordOf(1, i - 64, W(block, i - 64), Working(FirstState(prefix), block, i - 64))
  {
    hide W, Working, Initial, HeaderTrace, Compressed, RecordOf, SecondBlock;
    TwoCompressions(prefix, nonce);
  }

  /** Two nonces over one 76-byte prefix: the first 67 rounds are identical; the fourth round of the
      second compression is the first to differ, in its word, its temp1 and its registers a and e
      only; the words agree again in the next fourteen rounds and differ in the fifteenth. */
  lemma Diffusion(prefix: Prefix, a: Word, b: Word)
    requires a != b
    ensures var x, y := HeaderTrace(prefix, a), HeaderTrace(prefix, b);
      && |x| == |y| == 128
      && (forall i :: 0 <= i < 67 ==> x[i] == y[i])
      && OnlyWordDiffers(x[67], y[67])
      && (forall i :: 68 <= i < 82 ==> x[i].w == y[i].w)
      && x[82].w != y[82].w
  {
    hide W, K, SecondBlock, Working, HeaderTrace, FirstState, RecordOf, OnlyWordDiffers;
    Schedules(prefix, a, b);
    var p, q, s := SecondBlock(prefix, a), SecondBlock(prefix, b), FirstState(prefix);
    RecordAt(prefix, a, 0);
    RecordAt(prefix, b, 0);
    forall i | 0 <= i < 67
      ensures HeaderTrace(prefix, a)[i] == HeaderTrace(prefix, b)[i]
    {
      RecordAt(prefix, a, i);
      RecordAt(prefix, b, i);
      if i >= 64 { SameWorking(s, p, q, i - 64); }
    }
    RecordAt(prefix, a, 67);
    RecordAt(prefix, b, 67);
    SameWorking(s, p, q, 3);
    FirstToDiffer(Working(s, p, 3), W(p, 3), W(q, 3));
    forall i | 68 <= i < 83
      ensures HeaderTrace(prefix, a)[i].w == HeaderTrace(prefix, b)[i].w <==> i < 82
    {
      RecordAt(prefix, a, i);
      RecordAt(prefix, b, i);
      RecordWord(i - 64, W(p, i - 64), Working(s, p, i - 64));
      RecordWord(i - 64, W(q, i - 64), Working(s, q, i - 64));
    }
  }

  /** Records of one round from one state that differ in the word, and hence in temp1, a and e. */
  predicate OnlyWordDiffers(r: Record, s: Record) {
    && r.w != s.w && r.before == s.before && r.temp1 != s.temp1
    && r.(w := s.w, temp1 := s.temp1, after := s.after) == s
    && r.after.a != s.after.a && r.after.e != s.after.e
    && r.after.(a := s.after.a, e := s.after.e) == s.after
  }

  lemma RecordWord(t: nat, w: Word, v: Vars)
    requires t < 64
    ensures RecordOf(1, t, w, v).w == w
  {}

  lemma FirstToDiffer(v: Vars, w: Word, x: Word)
    requires w != x
    ensures OnlyWordDiffers(RecordOf(1, 3, w, v), RecordOf(1, 3, x, v))
  {
    hide K, Ch, Maj, BigSigma0, BigSigma1, Temp1, Temp2, Step;
    WordDecides(v, K(3), w, x);
  }

  /** With everything else equal, another word changes temp1 and registers a and e, nothing else. */
  lemma WordDecides(v: Vars, k: Word, w: Word, x: Word)
    requires w != x
    ensures Temp1(v, k, w) != Temp1(v, k, x)
    ensures Step(v, k, w).a != Step(v, k, x).a && Step(v, k, w).e != Step(v, k, x).e
    ensures Step(v, k, w).(a := Step(v, k, x).a, e := Step(v, k, x).e) == Step(v, k, x)
  {
    hide Plus, BigSigma1, Ch, Temp2;
    PlusCancels(Plus(Plus(Plus(v.h, BigSigma1(v.e)), Ch(v.e, v.f, v.g)), k), w, x);
    if Plus(Temp1(v, k, w), Temp2(v)) == Plus(Temp1(v, k, x), Temp2(v)) {
      CancelLast(Temp1(v, k, w), Temp1(v, k, x), Temp2(v));
    }
    PlusCancels(v.d, Temp1(v, k, w), Temp1(v, k, x));
  }

  // ----- single-bit flips -----

  /** The number of one bits. */
  function Ones(w: Word): nat
    decreases w
  {
    if w == 0 then 0 else
      BelowPredecessor(w);
      1 + Ones(w & (w - 1))
  }

  lemma BelowPredecessor(w: Word)
    requires w != 0
    ensures w & (w - 1) < w
  {}

  /** How many of the bits b .. 31 are set. */
  function BitsFrom(w: Word, b: Word): nat
    requires b <= 32
    decreases 32 - b
  {
    if b == 32 then 0 else (if (w >> b) & 1 == 1 then 1 else 0) + BitsFrom(w, b + 1)
  }

  /** Clearing the lowest one bit until none is left counts the bits that are set. */
  lemma OnesAreBits(w: Word)
    ensures Ones(w) == BitsFrom(w, 0)
  {
    OnesFrom(w, 0);
    assert w >> 0 == w;
  }

  lemma {:induction false} OnesFrom(w: Word, b: Word)
    requires b <= 32
    ensures Ones(w >> b) == BitsFrom(w, b)
    decreases 32 - b
  {
    if b == 32 {
      AllShiftedOut(w);
    } else {
      OnesFrom(w, b + 1);
      OnesHalved(w >> b);
      OneFurther(w, b);
    }
  }

  lemma AllShiftedOut(w: Word)
    ensures w >> 32 == 0
  {}

  lemma OneFurther(w: Word, b: Word)
    requires b < 32
    ensures (w >> b) >> 1 == w >> (b + 1)
  {}

  lemma {:induction false} OnesHalved(w: Word)
    ensures Ones(w) == (if Odd(w) then 1 else 0) + Ones(Half(w))
    decreases w
  {
    hide Ones, Cleared, Half, Odd;
    if w == 0 {
      ZeroHalved();
    } else {
      ClearLowest(w);
      OnesHalved(Cleared(w));
      OnesNext(w);
      if !Odd(w) { OnesNext(Half(w)); }
    }
  }

  function Cleared(w: Word): Word
    requires w != 0
  {
    w & (w - 1)
  }

  function Half(w: Word): Word { w >> 1 }

  predicate Odd(w: Word) { w & 1 == 1 }

  lemma ZeroHalved()
    ensures Ones(0) == 0 && !Odd(0) && Half(0) == 0
  {}

  lemma OnesNext(w: Word)
    requires w != 0
    ensures Ones(w) == 1 + Ones(Cleared(w))
  {}

  lemma ClearLowest(w: Word)
    requires w != 0
    ensures Cleared(w) < w && !Odd(Cleared(w))
    ensures if Odd(w) then Half(Cleared(w)) == Half(w) else Half(w) != 0 && Half(Cleared(w)) == Cleared(Half(w))
  {}

  lemma SingleBit(p: Word)
    requires p < 32
    ensures (1 as Word) << p != 0 && ((1 as Word) << p) & (((1 as Word) << p) - 1) == 0
  {}

  lemma FlipDifference(nonce: Word, d: Word)
    ensures nonce ^ (nonce ^ d) == d
  {}

  /** Flipping nonce bit b flips exactly bit 8 (3 - b / 8) + b % 8 of word 3, so the words are at distance one. */
  lemma FlipMovesOneBit(prefix: Prefix, nonce: Word, b: Word)
    requires b < 32
    ensures var x, y := HeaderTrace(prefix, nonce), HeaderTrace(prefix, nonce ^ (1 << b));
      && |x| == |y| == 128
      && x[67].w ^ y[67].w == 1 << (8 * (3 - b / 8) + b % 8)
      && Ones(x[67].w ^ y[67].w) == 1
  {
    hide W, K, ByteSwap, SecondBlock, Working, HeaderTrace, FirstState, BigWord, RecordOf;
    var flipped := nonce ^ (1 << b);
    RecordAt(prefix, nonce, 67);
    RecordAt(prefix, flipped, 67);
    RecordWord(3, W(SecondBlock(prefix, nonce), 3), Working(FirstState(prefix), SecondBlock(prefix, nonce), 3));
    RecordWord(3, W(SecondBlock(prefix, flipped), 3), Working(FirstState(prefix), SecondBlock(prefix, flipped), 3));
    DirectWords(prefix, nonce, nonce, 3);
    DirectWords(prefix, flipped, flipped, 3);
    SwapOfDifference(nonce, flipped);
    FlipDifference(nonce, 1 << b);
    SwapOfBit(b);
    PositionInRange(b);
    SingleBit(8 * (3 - b / 8) + b % 8);
  }

  lemma PositionInRange(b: Word)
    requires b < 32
    ensures 8 * (3 - b / 8) + b % 8 < 32
  {}
}
