// The published example of SHA-256 on the three bytes "abc" (tests/test_sha256.cpp): the definitions of Sha256
// compute it, round by round.
module Sha256Example {
  import opened ByteNumbers
  import opened Sha256

  function Message(): (m: seq<Octet>)
    ensures |m| == 3
  {
    [0x61, 0x62, 0x63]
  }

  // ----- the padded message -----

  lemma TwentyFour()
    ensures ToBytes(24, 8) == [0, 0, 0, 0, 0, 0, 0, 24]
  {
    assert ToBytes(24, 1) == [24];
    assert ToBytes(0, 1) == [0] && ToBytes(0, 2) == [0, 0] && ToBytes(0, 4) == [0, 0, 0, 0];
  }

  predicate IsExample(b: seq<Octet>) {
    && IsBlock(b) && b[0] == 0x61 && b[1] == 0x62 && b[2] == 0x63 && b[3] == 0x80
    && (forall i :: 4 <= i < 63 ==> b[i] == 0) && b[63] == 24
  }

  lemma PaddedMessage()
    ensures IsExample(Padded(Message()))
  {
    TwentyFour();
    assert ZeroBytes(3) == 52;
    hide ToBytes;
    assert Padded(Message()) == Message() + [0x80] + Zeros(52) + Octets(ToBytes(24, 8));
  }

  // ----- the message schedule -----

  lemma DirectWords(b: seq<Octet>, t: nat)
    requires IsExample(b) && t < 16
    ensures W(b, t) == if t == 0 then 0x61626380 else if t == 15 then 0x18 else 0
  {
    hide W;
    DirectWord(b, t);
    FourBytes();
  }

  lemma FourBytes()
    ensures BigWord(0x61, 0x62, 0x63, 0x80) == 0x61626380 && BigWord(0, 0, 0, 24) == 0x18 && BigWord(0, 0, 0, 0) == 0
  {}

  /** The next word from the four it depends on. */
  lemma Next(b: seq<Octet>, t: nat, w2: Word, w7: Word, w15: Word, w16: Word, w: Word)
    requires IsBlock(b) && 16 <= t < 64
    requires W(b, t - 2) == w2 && W(b, t - 7) == w7 && W(b, t - 15) == w15 && W(b, t - 16) == w16
    requires Extend(w2, w7, w15, w16) == w
    ensures W(b, t) == w
  {
    hide Extend, BigWord;
  }

  /** The words of rounds t to t + 7. */
  predicate EightWords(b: seq<Octet>, t: nat, w: (Word, Word, Word, Word, Word, Word, Word, Word))
    requires IsBlock(b) && t <= 56
  {
    && W(b, t) == w.0 && W(b, t + 1) == w.1 && W(b, t + 2) == w.2 && W(b, t + 3) == w.3
    && W(b, t + 4) == w.4 && W(b, t + 5) == w.5 && W(b, t + 6) == w.6 && W(b, t + 7) == w.7
  }

  lemma FirstWords(b: seq<Octet>)
    requires IsExample(b)
    ensures EightWords(b, 0, (0x61626380, 0x00000000, 0x00000000, 0x00000000,
      0x00000000, 0x00000000, 0x00000000, 0x00000000))
    ensures EightWords(b, 8, (0x00000000, 0x00000000, 0x00000000, 0x00000000,
      0x00000000, 0x00000000, 0x00000000, 0x00000018))
  {
    hide W;
    forall t | 0 <= t < 16
      ensures W(b, t) == if t == 0 then 0x61626380 else if t == 15 then 0x18 else 0
    {
      DirectWords(b, t);
    }
  }

  lemma Words16To23(b: seq<Octet>)
    requires IsBlock(b)
    requires EightWords(b, 0, (0x61626380, 0x00000000, 0x00000000, 0x00000000,
      0x00000000, 0x00000000, 0x00000000, 0x00000000))
    requires EightWords(b, 8, (0x00000000, 0x00000000, 0x00000000, 0x00000000,
      0x00000000, 0x00000000, 0x00000000, 0x00000018))
    ensures EightWords(b, 16, (0x61626380, 0x000f0000, 0x7da86405, 0x600003c6,
      0x3e9d7b78, 0x0183fc00, 0x12dcbfdb, 0xe2e2c38e))
  {
    hide W;
    Next(b, 16, 0x00000000, 0x00000000, 0x00000000, 0x61626380, 0x61626380);
    Next(b, 17, 0x00000018, 0x00000000, 0x00000000, 0x00000000, 0x000f0000);
    Next(b, 18, 0x61626380, 0x00000000, 0x00000000, 0x00000000, 0x7da86405);
    Next(b, 19, 0x000f0000, 0x00000000, 0x00000000, 0x00000000, 0x600003c6);
    Next(b, 20, 0x7da86405, 0x00000000, 0x00000000, 0x00000000, 0x3e9d7b78);
    Next(b, 21, 0x600003c6, 0x00000000, 0x00000000, 0x00000000, 0x0183fc00);
    Next(b, 22, 0x3e9d7b78, 0x00000018, 0x00000000, 0x00000000, 0x12dcbfdb);
    Next(b, 23, 0x0183fc00, 0x61626380, 0x00000000, 0x00000000, 0xe2e2c38e);
  }

  lemma Words24To31(b: seq<Octet>)
    requires IsBlock(b)
    requires EightWords(b, 8, (0x00000000, 0x00000000, 0x00000000, 0x00000000,
      0x00000000, 0x00000000, 0x00000000, 0x00000018))
    requires EightWords(b, 16, (0x61626380, 0x000f0000, 0x7da86405, 0x600003c6,
      0x3e9d7b78, 0x0183fc00, 0x12dcbfdb, 0xe2e2c38e))
    ensures EightWords(b, 24, (0xc8215c1a, 0xb73679a2, 0xe5bc3909, 0x32663c5b,
      0x9d209d67, 0xec8726cb, 0x702138a4, 0xd3b7973b))
  {
    hide W;
    Next(b, 24, 0x12dcbfdb, 0x000f0000, 0x00000000, 0x00000000, 0xc8215c1a);
    Next(b, 25, 0xe2e2c38e, 0x7da86405, 0x00000000, 0x00000000, 0xb73679a2);
    Next(b, 26, 0xc8215c1a, 0x600003c6, 0x00000000, 0x00000000, 0xe5bc3909);
    Next(b, 27, 0xb73679a2, 0x3e9d7b78, 0x00000000, 0x00000000, 0x32663c5b);
    Next(b, 28, 0xe5bc3909, 0x0183fc00, 0x00000000, 0x00000000, 0x9d209d67);
    Next(b, 29, 0x32663c5b, 0x12dcbfdb, 0x00000000, 0x00000000, 0xec8726cb);
    Next(b, 30, 0x9d209d67, 0xe2e2c38e, 0x00000018, 0x00000000, 0x702138a4);
    Next(b, 31, 0xec8726cb, 0xc8215c1a, 0x61626380, 0x00000018, 0xd3b7973b);
  }

  lemma Words32To39(b: seq<Octet>)
    requires IsBlock(b)
    requires EightWords(b, 16, (0x61626380, 0x000f0000, 0x7da86405, 0x600003c6,
      0x3e9d7b78, 0x0183fc00, 0x12dcbfdb, 0xe2e2c38e))
    requires EightWords(b, 24, (0xc8215c1a, 0xb73679a2, 0xe5bc3909, 0x32663c5b,
      0x9d209d67, 0xec8726cb, 0x702138a4, 0xd3b7973b))
    ensures EightWords(b, 32, (0x93f5997f, 0x3b68ba73, 0xaff4ffc1, 0xf10a5c62,
      0x0a8b3996, 0x72af830a, 0x9409e33e, 0x24641522))
  {
    hide W;
    Next(b, 32, 0x702138a4, 0xb73679a2, 0x000f0000, 0x61626380, 0x93f5997f);
    Next(b, 33, 0xd3b7973b, 0xe5bc3909, 0x7da86405, 0x000f0000, 0x3b68ba73);
    Next(b, 34, 0x93f5997f, 0x32663c5b, 0x600003c6, 0x7da86405, 0xaff4ffc1);
    Next(b, 35, 0x3b68ba73, 0x9d209d67, 0x3e9d7b78, 0x600003c6, 0xf10a5c62);
    Next(b, 36, 0xaff4ffc1, 0xec8726cb, 0x0183fc00, 0x3e9d7b78, 0x0a8b3996);
    Next(b, 37, 0xf10a5c62, 0x702138a4, 0x12dcbfdb, 0x0183fc00, 0x72af830a);
    Next(b, 38, 0x0a8b3996, 0xd3b7973b, 0xe2e2c38e, 0x12dcbfdb, 0x9409e33e);
    Next(b, 39, 0x72af830a, 0x93f5997f, 0xc8215c1a, 0xe2e2c38e, 0x24641522);
  }

  lemma Words40To47(b: seq<Octet>)
    requires IsBlock(b)
    requires EightWords(b, 24, (0xc8215c1a, 0xb73679a2, 0xe5bc3909, 0x32663c5b,
      0x9d209d67, 0xec8726cb, 0x702138a4, 0xd3b7973b))
    requires EightWords(b, 32, (0x93f5997f, 0x3b68ba73, 0xaff4ffc1, 0xf10a5c62,
      0x0a8b3996, 0x72af830a, 0x9409e33e, 0x24641522))
    ensures EightWords(b, 40, (0x9f47bf94, 0xf0a64f5a, 0x3e246a79, 0x27333ba3,
      0x0c4763f2, 0x840abf27, 0x7a290d5d, 0x065c43da))
  {
    hide W;
    Next(b, 40, 0x9409e33e, 0x3b68ba73, 0xb73679a2, 0xc8215c1a, 0x9f47bf94);
    Next(b, 41, 0x24641522, 0xaff4ffc1, 0xe5bc3909, 0xb73679a2, 0xf0a64f5a);
    Next(b, 42, 0x9f47bf94, 0xf10a5c62, 0x32663c5b, 0xe5bc3909, 0x3e246a79);
    Next(b, 43, 0xf0a64f5a, 0x0a8b3996, 0x9d209d67, 0x32663c5b, 0x27333ba3);
    Next(b, 44, 0x3e246a79, 0x72af830a, 0xec8726cb, 0x9d209d67, 0x0c4763f2);
    Next(b, 45, 0x27333ba3, 0x9409e33e, 0x702138a4, 0xec8726cb, 0x840abf27);
    Next(b, 46, 0x0c4763f2, 0x24641522, 0xd3b7973b, 0x702138a4, 0x7a290d5d);
    Next(b, 47, 0x840abf27, 0x9f47bf94, 0x93f5997f, 0xd3b7973b, 0x065c43da);
  }

  lemma Words48To55(b: seq<Octet>)
    requires IsBlock(b)
    requires EightWords(b, 32, (0x93f5997f, 0x3b68ba73, 0xaff4ffc1, 0xf10a5c62,
      0x0a8b3996, 0x72af830a, 0x9409e33e, 0x24641522))
    requires EightWords(b, 40, (0x9f47bf94, 0xf0a64f5a, 0x3e246a79, 0x27333ba3,
      0x0c4763f2, 0x840abf27, 0x7a290d5d, 0x065c43da))
    ensures EightWords(b, 48, (0xfb3e89cb, 0xcc7617db, 0xb9e66c34, 0xa9993667,
      0x84badedd, 0xc21462bc, 0x1487472c, 0xb20f7a99))
  {
    hide W;
    Next(b, 48, 0x7a290d5d, 0xf0a64f5a, 0x3b68ba73, 0x93f5997f, 0xfb3e89cb);
    Next(b, 49, 0x065c43da, 0x3e246a79, 0xaff4ffc1, 0x3b68ba73, 0xcc7617db);
    Next(b, 50, 0xfb3e89cb, 0x27333ba3, 0xf10a5c62, 0xaff4ffc1, 0xb9e66c34);
    Next(b, 51, 0xcc7617db, 0x0c4763f2, 0x0a8b3996, 0xf10a5c62, 0xa9993667);
    Next(b, 52, 0xb9e66c34, 0x840abf27, 0x72af830a, 0x0a8b3996, 0x84badedd);
    Next(b, 53, 0xa9993667, 0x7a290d5d, 0x9409e33e, 0x72af830a, 0xc21462bc);
    Next(b, 54, 0x84badedd, 0x065c43da, 0x24641522, 0x9409e33e, 0x1487472c);
    Next(b, 55, 0xc21462bc, 0xfb3e89cb, 0x9f47bf94, 0x24641522, 0xb20f7a99);
  }

  lemma Words56To63(b: seq<Octet>)
    requires IsBlock(b)
    requires EightWords(b, 40, (0x9f47bf94, 0xf0a64f5a, 0x3e246a79, 0x27333ba3,
      0x0c4763f2, 0x840abf27, 0x7a290d5d, 0x065c43da))
    requires EightWords(b, 48, (0xfb3e89cb, 0xcc7617db, 0xb9e66c34, 0xa9993667,
      0x84badedd, 0xc21462bc, 0x1487472c, 0xb20f7a99))
    ensures EightWords(b, 56, (0xef57b9cd, 0xebe6b238, 0x9fe3095e, 0x78bc8d4b,
      0xa43fcf15, 0x668b2ff8, 0xeeaba2cc, 0x12b1edeb))
  {
    hide W;
    Next(b, 56, 0x1487472c, 0xcc7617db, 0xf0a64f5a, 0x9f47bf94, 0xef57b9cd);
    Next(b, 57, 0xb20f7a99, 0xb9e66c34, 0x3e246a79, 0xf0a64f5a, 0xebe6b238);
    Next(b, 58, 0xef57b9cd, 0xa9993667, 0x27333ba3, 0x3e246a79, 0x9fe3095e);
    Next(b, 59, 0xebe6b238, 0x84badedd, 0x0c4763f2, 0x27333ba3, 0x78bc8d4b);
    Next(b, 60, 0x9fe3095e, 0xc21462bc, 0x840abf27, 0x0c4763f2, 0xa43fcf15);
    Next(b, 61, 0x78bc8d4b, 0x1487472c, 0x7a290d5d, 0x840abf27, 0x668b2ff8);
    Next(b, 62, 0xa43fcf15, 0xb20f7a99, 0x065c43da, 0x7a290d5d, 0xeeaba2cc);
    Next(b, 63, 0x668b2ff8, 0xef57b9cd, 0xfb3e89cb, 0x065c43da, 0x12b1edeb);
  }

  // ----- the rounds -----

  /** One round from known variables: registers a and e are new, the others move on. */
  lemma Round(b: seq<Octet>, t: nat, v: Vars, k: Word, w: Word, a: Word, e: Word) returns (u: Vars)
    requires IsBlock(b) && t < 64 && Working(Initial(), b, t) == v && K(t) == k && W(b, t) == w
    requires Step(v, k, w).a == a && Step(v, k, w).e == e
    ensures u == Vars(a, v.a, v.b, v.c, e, v.e, v.f, v.g) && Working(Initial(), b, t + 1) == u
  {
    hide W, K, Temp1, Temp2, Plus, Initial;
    u := Vars(a, v.a, v.b, v.c, e, v.e, v.f, v.g);
  }

  lemma Constants0To7()
    ensures K(0) == 0x428a2f98 && K(1) == 0x71374491
    ensures K(2) == 0xb5c0fbcf && K(3) == 0xe9b5dba5
    ensures K(4) == 0x3956c25b && K(5) == 0x59f111f1
    ensures K(6) == 0x923f82a4 && K(7) == 0xab1c5ed5
  {}

  lemma Rounds0To7(b: seq<Octet>)
    requires IsBlock(b) && Working(Initial(), b, 0)
      == Vars(0x6a09e667, 0xbb67ae85, 0x3c6ef372, 0xa54ff53a,
           0x510e527f, 0x9b05688c, 0x1f83d9ab, 0x5be0cd19)
    requires EightWords(b, 0, (0x61626380, 0x00000000, 0x00000000, 0x00000000,
      0x00000000, 0x00000000, 0x00000000, 0x00000000))
    ensures Working(Initial(), b, 8)
      == Vars(0x85a07b5f, 0xe5030380, 0x2b4209f5, 0x04409a6a,
           0x0c657a79, 0x9b27a401, 0x714260ad, 0x43ada245)
  {
    hide W, K, Working, Initial;
    Constants0To7();
    var v := Vars(0x6a09e667, 0xbb67ae85, 0x3c6ef372, 0xa54ff53a,
                  0x510e527f, 0x9b05688c, 0x1f83d9ab, 0x5be0cd19);
    v := Round(b, 0, v, 0x428a2f98, 0x61626380, 0x5d6aebcd, 0xfa2a4622);
    v := Round(b, 1, v, 0x71374491, 0x00000000, 0x5a6ad9ad, 0x78ce7989);
    v := Round(b, 2, v, 0xb5c0fbcf, 0x00000000, 0xc8c347a7, 0xf92939eb);
    v := Round(b, 3, v, 0xe9b5dba5, 0x00000000, 0xd550f666, 0x24e00850);
    v := Round(b, 4, v, 0x3956c25b, 0x00000000, 0x04409a6a, 0x43ada245);
    v := Round(b, 5, v, 0x59f111f1, 0x00000000, 0x2b4209f5, 0x714260ad);
    v := Round(b, 6, v, 0x923f82a4, 0x00000000, 0xe5030380, 0x9b27a401);
    v := Round(b, 7, v, 0xab1c5ed5, 0x00000000, 0x85a07b5f, 0x0c657a79);
  }

  lemma Constants8To15()
    ensures K(8) == 0xd807aa98 && K(9) == 0x12835b01
    ensures K(10) == 0x243185be && K(11) == 0x550c7dc3
    ensures K(12) == 0x72be5d74 && K(13) == 0x80deb1fe
    ensures K(14) == 0x9bdc06a7 && K(15) == 0xc19bf174
  {}

  lemma Rounds8To15(b: seq<Octet>)
    requires IsBlock(b) && Working(Initial(), b, 8)
      == Vars(0x85a07b5f, 0xe5030380, 0x2b4209f5, 0x04409a6a,
           0x0c657a79, 0x9b27a401, 0x714260ad, 0x43ada245)
    requires EightWords(b, 8, (0x00000000, 0x00000000, 0x00000000, 0x00000000,
      0x00000000, 0x00000000, 0x00000000, 0x00000018))
    ensures Working(Initial(), b, 16)
      == Vars(0xb0fa238e, 0xc0645fde, 0xd932eb16, 0x87912990,
           0x07590dcd, 0x0b92f20c, 0x745a48de, 0x1e578218)
  {
    hide W, K, Working, Initial;
    Constants8To15();
    var v := Vars(0x85a07b5f, 0xe5030380, 0x2b4209f5, 0x04409a6a,
                  0x0c657a79, 0x9b27a401, 0x714260ad, 0x43ada245);
    v := Round(b, 8, v, 0xd807aa98, 0x00000000, 0x8e04ecb9, 0x32ca2d8c);
    v := Round(b, 9, v, 0x12835b01, 0x00000000, 0x8c87346b, 0x1cc92596);
    v := Round(b, 10, v, 0x243185be, 0x00000000, 0x4798a3f4, 0x436b23e8);
    v := Round(b, 11, v, 0x550c7dc3, 0x00000000, 0xf71fc5a9, 0x816fd6e9);
    v := Round(b, 12, v, 0x72be5d74, 0x00000000, 0x87912990, 0x1e578218);
    v := Round(b, 13, v, 0x80deb1fe, 0x00000000, 0xd932eb16, 0x745a48de);
    v := Round(b, 14, v, 0x9bdc06a7, 0x00000000, 0xc0645fde, 0x0b92f20c);
    v := Round(b, 15, v, 0xc19bf174, 0x00000018, 0xb0fa238e, 0x07590dcd);
  }

  lemma Constants16To23()
    ensures K(16) == 0xe49b69c1 && K(17) == 0xefbe4786
    ensures K(18) == 0x0fc19dc6 && K(19) == 0x240ca1cc
    ensures K(20) == 0x2de92c6f && K(21) == 0x4a7484aa
    ensures K(22) == 0x5cb0a9dc && K(23) == 0x76f988da
  {}

  lemma Rounds16To23(b: seq<Octet>)
    requires IsBlock(b) && Working(Initial(), b, 16)
      == Vars(0xb0fa238e, 0xc0645fde, 0xd932eb16, 0x87912990,
           0x07590dcd, 0x0b92f20c, 0x745a48de, 0x1e578218)
    requires EightWords(b, 16, (0x61626380, 0x000f0000, 0x7da86405, 0x600003c6,
      0x3e9d7b78, 0x0183fc00, 0x12dcbfdb, 0xe2e2c38e))
    ensures Working(Initial(), b, 24)
      == Vars(0xc5d53d8d, 0xa7a3623f, 0xc2606d6d, 0x9dc68b63,
           0xaa47c347, 0x49f5114a, 0xe1257970, 0x8ada8930)
  {
    hide W, K, Working, Initial;
    Constants16To23();
    var v := Vars(0xb0fa238e, 0xc0645fde, 0xd932eb16, 0x87912990,
                  0x07590dcd, 0x0b92f20c, 0x745a48de, 0x1e578218);
    v := Round(b, 16, v, 0xe49b69c1, 0x61626380, 0x21da9a9b, 0x8034229c);
    v := Round(b, 17, v, 0xefbe4786, 0x000f0000, 0xc2fbd9d1, 0x846ee454);
    v := Round(b, 18, v, 0x0fc19dc6, 0x7da86405, 0xfe777bbf, 0xcc899961);
    v := Round(b, 19, v, 0x240ca1cc, 0x600003c6, 0xe1f20c33, 0xb0638179);
    v := Round(b, 20, v, 0x2de92c6f, 0x3e9d7b78, 0x9dc68b63, 0x8ada8930);
    v := Round(b, 21, v, 0x4a7484aa, 0x0183fc00, 0xc2606d6d, 0xe1257970);
    v := Round(b, 22, v, 0x5cb0a9dc, 0x12dcbfdb, 0xa7a3623f, 0x49f5114a);
    v := Round(b, 23, v, 0x76f988da, 0xe2e2c38e, 0xc5d53d8d, 0xaa47c347);
  }

  lemma Constants24To31()
    ensures K(24) == 0x983e5152 && K(25) == 0xa831c66d
    ensures K(26) == 0xb00327c8 && K(27) == 0xbf597fc7
    ensures K(28) == 0xc6e00bf3 && K(29) == 0xd5a79147
    ensures K(30) == 0x06ca6351 && K(31) == 0x14292967
  {}

  lemma Rounds24To31(b: seq<Octet>)
    requires IsBlock(b) && Working(Initial(), b, 24)
      == Vars(0xc5d53d8d, 0xa7a3623f, 0xc2606d6d, 0x9dc68b63,
           0xaa47c347, 0x49f5114a, 0xe1257970, 0x8ada8930)
    requires EightWords(b, 24, (0xc8215c1a, 0xb73679a2, 0xe5bc3909, 0x32663c5b,
      0x9d209d67, 0xec8726cb, 0x702138a4, 0xd3b7973b))
    ensures Working(Initial(), b, 32)
      == Vars(0x73b33bf5, 0xea992a22, 0xa0060b30, 0x363482c9,
           0xba591112, 0x0109ab3a, 0xade79437, 0x6112a3b7)
  {
    hide W, K, Working, Initial;
    Constants24To31();
    var v := Vars(0xc5d53d8d, 0xa7a3623f, 0xc2606d6d, 0x9dc68b63,
                  0xaa47c347, 0x49f5114a, 0xe1257970, 0x8ada8930);
    v := Round(b, 24, v, 0x983e5152, 0xc8215c1a, 0x1c2c2838, 0x2823ef91);
    v := Round(b, 25, v, 0xa831c66d, 0xb73679a2, 0xcde8037d, 0x14383d8e);
    v := Round(b, 26, v, 0xb00327c8, 0xe5bc3909, 0xb62ec4bc, 0xc74c6516);
    v := Round(b, 27, v, 0xbf597fc7, 0x32663c5b, 0x77d37528, 0xedffbff8);
    v := Round(b, 28, v, 0xc6e00bf3, 0x9d209d67, 0x363482c9, 0x6112a3b7);
    v := Round(b, 29, v, 0xd5a79147, 0xec8726cb, 0xa0060b30, 0xade79437);
    v := Round(b, 30, v, 0x06ca6351, 0x702138a4, 0xea992a22, 0x0109ab3a);
    v := Round(b, 31, v, 0x14292967, 0xd3b7973b, 0x73b33bf5, 0xba591112);
  }

  lemma Constants32To39()
    ensures K(32) == 0x27b70a85 && K(33) == 0x2e1b2138
    ensures K(34) == 0x4d2c6dfc && K(35) == 0x53380d13
    ensures K(36) == 0x650a7354 && K(37) == 0x766a0abb
    ensures K(38) == 0x81c2c92e && K(39) == 0x92722c85
  {}

  lemma Rounds32To39(b: seq<Octet>)
    requires IsBlock(b) && Working(Initial(), b, 32)
      == Vars(0x73b33bf5, 0xea992a22, 0xa0060b30, 0x363482c9,
           0xba591112, 0x0109ab3a, 0xade79437, 0x6112a3b7)
    requires EightWords(b, 32, (0x93f5997f, 0x3b68ba73, 0xaff4ffc1, 0xf10a5c62,
      0x0a8b3996, 0x72af830a, 0x9409e33e, 0x24641522))
    ensures Working(Initial(), b, 40)
      == Vars(0x79ea687a, 0x6dc57a8a, 0x34df1604, 0x41a65cb1,
           0x1efbc0a0, 0xf0781bc8, 0xa507a53d, 0x0772a26b)
  {
    hide W, K, Working, Initial;
    Constants32To39();
    var v := Vars(0x73b33bf5, 0xea992a22, 0xa0060b30, 0x363482c9,
                  0xba591112, 0x0109ab3a, 0xade79437, 0x6112a3b7);
    v := Round(b, 32, v, 0x27b70a85, 0x93f5997f, 0x98e12507, 0x9cd9f5f6);
    v := Round(b, 33, v, 0x2e1b2138, 0x3b68ba73, 0xfe604df5, 0x59249dd3);
    v := Round(b, 34, v, 0x4d2c6dfc, 0xaff4ffc1, 0xa9a7738c, 0x085f3833);
    v := Round(b, 35, v, 0x53380d13, 0xf10a5c62, 0x65a0cfe4, 0xf4b002d6);
    v := Round(b, 36, v, 0x650a7354, 0x0a8b3996, 0x41a65cb1, 0x0772a26b);
    v := Round(b, 37, v, 0x766a0abb, 0x72af830a, 0x34df1604, 0xa507a53d);
    v := Round(b, 38, v, 0x81c2c92e, 0x9409e33e, 0x6dc57a8a, 0xf0781bc8);
    v := Round(b, 39, v, 0x92722c85, 0x24641522, 0x79ea687a, 0x1efbc0a0);
  }

  lemma Constants40To47()
    ensures K(40) == 0xa2bfe8a1 && K(41) == 0xa81a664b
    ensures K(42) == 0xc24b8b70 && K(43) == 0xc76c51a3
    ensures K(44) == 0xd192e819 && K(45) == 0xd6990624
    ensures K(46) == 0xf40e3585 && K(47) == 0x106aa070
  {}

  lemma Rounds40To47(b: seq<Octet>)
    requires IsBlock(b) && Working(Initial(), b, 40)
      == Vars(0x79ea687a, 0x6dc57a8a, 0x34df1604, 0x41a65cb1,
           0x1efbc0a0, 0xf0781bc8, 0xa507a53d, 0x0772a26b)
    requires EightWords(b, 40, (0x9f47bf94, 0xf0a64f5a, 0x3e246a79, 0x27333ba3,
      0x0c4763f2, 0x840abf27, 0x7a290d5d, 0x065c43da))
    ensures Working(Initial(), b, 48)
      == Vars(0x4172328d, 0xa14c14b0, 0x72ab4b91, 0x26628815,
           0xfecf0bc6, 0xd57b94a9, 0xb7755da1, 0xa80f11f0)
  {
    hide W, K, Working, Initial;
    Constants40To47();
    var v := Vars(0x79ea687a, 0x6dc57a8a, 0x34df1604, 0x41a65cb1,
                  0x1efbc0a0, 0xf0781bc8, 0xa507a53d, 0x0772a26b);
    v := Round(b, 40, v, 0xa2bfe8a1, 0x9f47bf94, 0xd6670766, 0x26352d63);
    v := Round(b, 41, v, 0xa81a664b, 0xf0a64f5a, 0xdf46652f, 0x838b2711);
    v := Round(b, 42, v, 0xc24b8b70, 0x3e246a79, 0x17aa0dfe, 0xdecd4715);
    v := Round(b, 43, v, 0xc76c51a3, 0x27333ba3, 0x9d4baf93, 0xfda24c2e);
    v := Round(b, 44, v, 0xd192e819, 0x0c4763f2, 0x26628815, 0xa80f11f0);
    v := Round(b, 45, v, 0xd6990624, 0x840abf27, 0x72ab4b91, 0xb7755da1);
    v := Round(b, 46, v, 0xf40e3585, 0x7a290d5d, 0xa14c14b0, 0xd57b94a9);
    v := Round(b, 47, v, 0x106aa070, 0x065c43da, 0x4172328d, 0xfecf0bc6);
  }

  lemma Constants48To55()
    ensures K(48) == 0x19a4c116 && K(49) == 0x1e376c08
    ensures K(50) == 0x2748774c && K(51) == 0x34b0bcb5
    ensures K(52) == 0x391c0cb3 && K(53) == 0x4ed8aa4a
    ensures K(54) == 0x5b9cca4f && K(55) == 0x682e6ff3
  {}

  lemma Rounds48To55(b: seq<Octet>)
    requires IsBlock(b) && Working(Initial(), b, 48)
      == Vars(0x4172328d, 0xa14c14b0, 0x72ab4b91, 0x26628815,
           0xfecf0bc6, 0xd57b94a9, 0xb7755da1, 0xa80f11f0)
    requires EightWords(b, 48, (0xfb3e89cb, 0xcc7617db, 0xb9e66c34, 0xa9993667,
      0x84badedd, 0xc21462bc, 0x1487472c, 0xb20f7a99))
    ensures Working(Initial(), b, 56)
      == Vars(0x38cc9913, 0x3ec45cdb, 0xf5702fdb, 0x101fd28f,
           0x54cb266b, 0xe50e1b4f, 0x9f4787c3, 0x529e7d00)
  {
    hide W, K, Working, Initial;
    Constants48To55();
    var v := Vars(0x4172328d, 0xa14c14b0, 0x72ab4b91, 0x26628815,
                  0xfecf0bc6, 0xd57b94a9, 0xb7755da1, 0xa80f11f0);
    v := Round(b, 48, v, 0x19a4c116, 0xfb3e89cb, 0x05757ceb, 0xbd714038);
    v := Round(b, 49, v, 0x1e376c08, 0xcc7617db, 0xf11bfaa8, 0x6e5c390c);
    v := Round(b, 50, v, 0x2748774c, 0xb9e66c34, 0x7a0508a1, 0x52f1ccf7);
    v := Round(b, 51, v, 0x34b0bcb5, 0xa9993667, 0x886e7a22, 0x49231c1e);
    v := Round(b, 52, v, 0x391c0cb3, 0x84badedd, 0x101fd28f, 0x529e7d00);
    v := Round(b, 53, v, 0x4ed8aa4a, 0xc21462bc, 0xf5702fdb, 0x9f4787c3);
    v := Round(b, 54, v, 0x5b9cca4f, 0x1487472c, 0x3ec45cdb, 0xe50e1b4f);
    v := Round(b, 55, v, 0x682e6ff3, 0xb20f7a99, 0x38cc9913, 0x54cb266b);
  }

  lemma Constants56To63()
    ensures K(56) == 0x748f82ee && K(57) == 0x78a5636f
    ensures K(58) == 0x84c87814 && K(59) == 0x8cc70208
    ensures K(60) == 0x90befffa && K(61) == 0xa4506ceb
    ensures K(62) == 0xbef9a3f7 && K(63) == 0xc67178f2
  {}

  lemma Rounds56To63(b: seq<Octet>)
    requires IsBlock(b) && Working(Initial(), b, 56)
      == Vars(0x38cc9913, 0x3ec45cdb, 0xf5702fdb, 0x101fd28f,
           0x54cb266b, 0xe50e1b4f, 0x9f4787c3, 0x529e7d00)
    requires EightWords(b, 56, (0xef57b9cd, 0xebe6b238, 0x9fe3095e, 0x78bc8d4b,
      0xa43fcf15, 0x668b2ff8, 0xeeaba2cc, 0x12b1edeb))
    ensures Working(Initial(), b, 64)
      == Vars(0x506e3058, 0xd39a2165, 0x04d24d6c, 0xb85e2ce9,
           0x5ef50f24, 0xfb121210, 0x948d25b6, 0x961f4894)
  {
    hide W, K, Working, Initial;
    Constants56To63();
    var v := Vars(0x38cc9913, 0x3ec45cdb, 0xf5702fdb, 0x101fd28f,
                  0x54cb266b, 0xe50e1b4f, 0x9f4787c3, 0x529e7d00);
    v := Round(b, 56, v, 0x748f82ee, 0xef57b9cd, 0xfcd1887b, 0x9b5e906c);
    v := Round(b, 57, v, 0x78a5636f, 0xebe6b238, 0xc062d46f, 0x7e44008e);
    v := Round(b, 58, v, 0x84c87814, 0x9fe3095e, 0xffb70472, 0x6d83bfc6);
    v := Round(b, 59, v, 0x8cc70208, 0x78bc8d4b, 0xb6ae8fff, 0xb21bad3d);
    v := Round(b, 60, v, 0x90befffa, 0xa43fcf15, 0xb85e2ce9, 0x961f4894);
    v := Round(b, 61, v, 0xa4506ceb, 0x668b2ff8, 0x04d24d6c, 0x948d25b6);
    v := Round(b, 62, v, 0xbef9a3f7, 0xeeaba2cc, 0xd39a2165, 0xfb121210);
    v := Round(b, 63, v, 0xc67178f2, 0x12b1edeb, 0x506e3058, 0x5ef50f24);
  }

  lemma AfterAllRounds(b: seq<Octet>)
    requires IsExample(b)
    ensures Working(Initial(), b, 64)
      == Vars(0x506e3058, 0xd39a2165, 0x04d24d6c, 0xb85e2ce9,
           0x5ef50f24, 0xfb121210, 0x948d25b6, 0x961f4894)
  {
    hide W, Working, EightWords;
    FirstWords(b);
    Words16To23(b);
    Words24To31(b);
    Words32To39(b);
    Words40To47(b);
    Words48To55(b);
    Words56To63(b);
    StartOfRounds(b);
    Rounds0To7(b);
    Rounds8To15(b);
    Rounds16To23(b);
    Rounds24To31(b);
    Rounds32To39(b);
    Rounds40To47(b);
    Rounds48To55(b);
    Rounds56To63(b);
  }

  lemma StartOfRounds(b: seq<Octet>)
    requires IsBlock(b)
    ensures Working(Initial(), b, 0)
      == Vars(0x6a09e667, 0xbb67ae85, 0x3c6ef372, 0xa54ff53a,
           0x510e527f, 0x9b05688c, 0x1f83d9ab, 0x5be0cd19)
  {}

  // ----- the digest -----

  lemma HashOfExample(b: seq<Octet>)
    requires IsExample(b)
    ensures HashBlocks(b, 64)
      == [0xba7816bf, 0x8f01cfea, 0x414140de, 0x5dae2223,
          0xb00361a3, 0x96177a9c, 0xb410ff61, 0xf20015ad]
  {
    AfterAllRounds(b);
    HashOfBlock(b);
    hide Working, HashBlocks;
    Sums(Working(Initial(), b, 64));
  }

  lemma HashOfBlock(b: seq<Octet>)
    requires IsBlock(b)
    ensures HashBlocks(b, 64) == AddState(Initial(), Working(Initial(), b, 64))
  {
    hide Working, Initial, AddState;
    StartOfHash(64);
    NextBlock([], b, 64);
    assert [] + b == b;
  }

  lemma Sums(v: Vars)
    requires v == Vars(0x506e3058, 0xd39a2165, 0x04d24d6c, 0xb85e2ce9,
                    0x5ef50f24, 0xfb121210, 0x948d25b6, 0x961f4894)
    ensures AddState(Initial(), v)
      == [0xba7816bf, 0x8f01cfea, 0x414140de, 0x5dae2223,
          0xb00361a3, 0x96177a9c, 0xb410ff61, 0xf20015ad]
  {}

  /** The digest of "abc". */
  lemma DigestOfExample()
    ensures Digest(Message(), 64) == [
      0xba, 0x78, 0x16, 0xbf, 0x8f, 0x01, 0xcf, 0xea,
      0x41, 0x41, 0x40, 0xde, 0x5d, 0xae, 0x22, 0x23,
      0xb0, 0x03, 0x61, 0xa3, 0x96, 0x17, 0x7a, 0x9c,
      0xb4, 0x10, 0xff, 0x61, 0xf2, 0x00, 0x15, 0xad]
  {
    PaddedMessage();
    hide Padded, HashBlocks, IsExample;
    var b := Padded(Message());
    HashOfExample(b);
    OctetsOfHash();
    hide WordOctets, Serialized;
    SerializeNone();
    var h: seq<Word>, d: seq<Octet> := [], [];
    h, d := SerializeNext(h, d, 0xba7816bf);
    h, d := SerializeNext(h, d, 0x8f01cfea);
    h, d := SerializeNext(h, d, 0x414140de);
    h, d := SerializeNext(h, d, 0x5dae2223);
    h, d := SerializeNext(h, d, 0xb00361a3);
    h, d := SerializeNext(h, d, 0x96177a9c);
    h, d := SerializeNext(h, d, 0xb410ff61);
    h, d := SerializeNext(h, d, 0xf20015ad);
    assert h == HashBlocks(b, 64);
  }

  lemma SerializeNone()
    ensures Serialized([]) == []
  {}

  lemma SerializeNext(h: seq<Word>, d: seq<Octet>, w: Word) returns (g: seq<Word>, c: seq<Octet>)
    requires Serialized(h) == d
    ensures g == h + [w] && c == d + WordOctets(w) && Serialized(g) == c
  {
    g, c := h + [w], d + WordOctets(w);
    assert g[..|g| - 1] == h;
  }

  lemma OctetsOfHash()
    ensures WordOctets(0xba7816bf) == [0xba, 0x78, 0x16, 0xbf]
    ensures WordOctets(0x8f01cfea) == [0x8f, 0x01, 0xcf, 0xea]
    ensures WordOctets(0x414140de) == [0x41, 0x41, 0x40, 0xde]
    ensures WordOctets(0x5dae2223) == [0x5d, 0xae, 0x22, 0x23]
    ensures WordOctets(0xb00361a3) == [0xb0, 0x03, 0x61, 0xa3]
    ensures WordOctets(0x96177a9c) == [0x96, 0x17, 0x7a, 0x9c]
    ensures WordOctets(0xb410ff61) == [0xb4, 0x10, 0xff, 0x61]
    ensures WordOctets(0xf20015ad) == [0xf2, 0x00, 0x15, 0xad]
  {}
}
