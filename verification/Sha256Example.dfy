/** The digest of the message abc, step by step: the example of appendix B.1 of FIPS 180-2. */
module Sha256Example {
  import opened Bytes
  import opened MerkleDamgard
  import opened Sha256Standard
  import opened Words

  const ABC: seq<byte> := [0x61, 0x62, 0x63]

  /** The padded message is one block. */
  ghost predicate IsPaddedAbc(b: Block) {
    b == ABC + [0x80] + Repeat(0, 52) + [0, 0, 0, 0, 0, 0, 0, 0x18]
  }

  lemma PadAbc()
    ensures |Pad(ABC, LengthField(3))| == 64 && IsPaddedAbc(Pad(ABC, LengthField(3)))
  {
    assert Counter(24) == 0x18;
    assert BeBytes(0, 1) == [0];
    assert BeBytes(0, 2) == [0, 0];
    assert BeBytes(0, 3) == [0, 0, 0];
    assert BeBytes(0, 4) == [0, 0, 0, 0];
    assert BeBytes(0, 5) == [0, 0, 0, 0, 0];
    assert BeBytes(0, 6) == [0, 0, 0, 0, 0, 0];
    assert BeBytes(0, 7) == [0, 0, 0, 0, 0, 0, 0];
    assert BeBytes(0x18, 8) == [0, 0, 0, 0, 0, 0, 0, 0x18];
  }

  lemma BytesOfBlock(b: Block)
    requires IsPaddedAbc(b)
    ensures b[0] == 0x61 && b[1] == 0x62 && b[2] == 0x63 && b[3] == 0x80
    ensures forall k :: 4 <= k < 63 ==> b[k] == 0
    ensures b[63] == 0x18
  {
  }

  lemma FirstWords(b: Block)
    requires IsPaddedAbc(b)
    ensures W(b, 0) == 0x61626380 && W(b, 15) == 0x18
    ensures forall t :: 0 < t < 15 ==> W(b, t) == 0
  {
    BytesOfBlock(b);
    hide IsPaddedAbc;
  }

  /** One more word of the schedule, from the words two and fifteen places before it. */
  lemma NextWord(b: Block, t: nat, w2: bv32, w15: bv32)
    requires 16 <= t < 64 && W(b, t - 2) == w2 as u32 && W(b, t - 15) == w15 as u32
    ensures W(b, t) == (Sigma1Bits(w2) as nat + W(b, t - 7) + Sigma0Bits(w15) as nat + W(b, t - 16)) % U32_MOD
  {
    hide Sigma0Bits, Sigma1Bits, Word;
  }

  lemma Words16(b: Block)
    requires IsPaddedAbc(b)
    ensures W(b, 16) == 0x61626380 && W(b, 17) == 0x000f0000 && W(b, 18) == 0x7da86405 && W(b, 19) == 0x600003c6
    ensures W(b, 20) == 0x3e9d7b78 && W(b, 21) == 0x0183fc00 && W(b, 22) == 0x12dcbfdb && W(b, 23) == 0xe2e2c38e
  {
    hide IsPaddedAbc, W;
    FirstWords(b);
    NextWord(b, 16, 0x00000000, 0x00000000);
    NextWord(b, 17, 0x00000018, 0x00000000);
    NextWord(b, 18, 0x61626380, 0x00000000);
    NextWord(b, 19, 0x000f0000, 0x00000000);
    NextWord(b, 20, 0x7da86405, 0x00000000);
    NextWord(b, 21, 0x600003c6, 0x00000000);
    NextWord(b, 22, 0x3e9d7b78, 0x00000000);
    NextWord(b, 23, 0x0183fc00, 0x00000000);
  }

  lemma Words24(b: Block)
    requires IsPaddedAbc(b)
    ensures W(b, 24) == 0xc8215c1a && W(b, 25) == 0xb73679a2 && W(b, 26) == 0xe5bc3909 && W(b, 27) == 0x32663c5b
    ensures W(b, 28) == 0x9d209d67 && W(b, 29) == 0xec8726cb && W(b, 30) == 0x702138a4 && W(b, 31) == 0xd3b7973b
  {
    hide IsPaddedAbc, W;
    FirstWords(b);
    Words16(b);
    NextWord(b, 24, 0x12dcbfdb, 0x00000000);
    NextWord(b, 25, 0xe2e2c38e, 0x00000000);
    NextWord(b, 26, 0xc8215c1a, 0x00000000);
    NextWord(b, 27, 0xb73679a2, 0x00000000);
    NextWord(b, 28, 0xe5bc3909, 0x00000000);
    NextWord(b, 29, 0x32663c5b, 0x00000000);
    NextWord(b, 30, 0x9d209d67, 0x00000018);
    NextWord(b, 31, 0xec8726cb, 0x61626380);
  }

  lemma Words32(b: Block)
    requires IsPaddedAbc(b)
    ensures W(b, 32) == 0x93f5997f && W(b, 33) == 0x3b68ba73 && W(b, 34) == 0xaff4ffc1 && W(b, 35) == 0xf10a5c62
    ensures W(b, 36) == 0x0a8b3996 && W(b, 37) == 0x72af830a && W(b, 38) == 0x9409e33e && W(b, 39) == 0x24641522
  {
    hide IsPaddedAbc, W;
    FirstWords(b);
    Words16(b);
    Words24(b);
    NextWord(b, 32, 0x702138a4, 0x000f0000);
    NextWord(b, 33, 0xd3b7973b, 0x7da86405);
    NextWord(b, 34, 0x93f5997f, 0x600003c6);
    NextWord(b, 35, 0x3b68ba73, 0x3e9d7b78);
    NextWord(b, 36, 0xaff4ffc1, 0x0183fc00);
    NextWord(b, 37, 0xf10a5c62, 0x12dcbfdb);
    NextWord(b, 38, 0x0a8b3996, 0xe2e2c38e);
    NextWord(b, 39, 0x72af830a, 0xc8215c1a);
  }

  lemma Words40(b: Block)
    requires IsPaddedAbc(b)
    ensures W(b, 40) == 0x9f47bf94 && W(b, 41) == 0xf0a64f5a && W(b, 42) == 0x3e246a79 && W(b, 43) == 0x27333ba3
    ensures W(b, 44) == 0x0c4763f2 && W(b, 45) == 0x840abf27 && W(b, 46) == 0x7a290d5d && W(b, 47) == 0x065c43da
  {
    hide IsPaddedAbc, W;
    FirstWords(b);
    Words24(b);
    Words32(b);
    NextWord(b, 40, 0x9409e33e, 0xb73679a2);
    NextWord(b, 41, 0x24641522, 0xe5bc3909);
    NextWord(b, 42, 0x9f47bf94, 0x32663c5b);
    NextWord(b, 43, 0xf0a64f5a, 0x9d209d67);
    NextWord(b, 44, 0x3e246a79, 0xec8726cb);
    NextWord(b, 45, 0x27333ba3, 0x702138a4);
    NextWord(b, 46, 0x0c4763f2, 0xd3b7973b);
    NextWord(b, 47, 0x840abf27, 0x93f5997f);
  }

  lemma Words48(b: Block)
    requires IsPaddedAbc(b)
    ensures W(b, 48) == 0xfb3e89cb && W(b, 49) == 0xcc7617db && W(b, 50) == 0xb9e66c34 && W(b, 51) == 0xa9993667
    ensures W(b, 52) == 0x84badedd && W(b, 53) == 0xc21462bc && W(b, 54) == 0x1487472c && W(b, 55) == 0xb20f7a99
  {
    hide IsPaddedAbc, W;
    FirstWords(b);
    Words32(b);
    Words40(b);
    NextWord(b, 48, 0x7a290d5d, 0x3b68ba73);
    NextWord(b, 49, 0x065c43da, 0xaff4ffc1);
    NextWord(b, 50, 0xfb3e89cb, 0xf10a5c62);
    NextWord(b, 51, 0xcc7617db, 0x0a8b3996);
    NextWord(b, 52, 0xb9e66c34, 0x72af830a);
    NextWord(b, 53, 0xa9993667, 0x9409e33e);
    NextWord(b, 54, 0x84badedd, 0x24641522);
    NextWord(b, 55, 0xc21462bc, 0x9f47bf94);
  }

  lemma Words56(b: Block)
    requires IsPaddedAbc(b)
    ensures W(b, 56) == 0xef57b9cd && W(b, 57) == 0xebe6b238 && W(b, 58) == 0x9fe3095e && W(b, 59) == 0x78bc8d4b
    ensures W(b, 60) == 0xa43fcf15 && W(b, 61) == 0x668b2ff8 && W(b, 62) == 0xeeaba2cc && W(b, 63) == 0x12b1edeb
  {
    hide IsPaddedAbc, W;
    FirstWords(b);
    Words40(b);
    Words48(b);
    NextWord(b, 56, 0x1487472c, 0xf0a64f5a);
    NextWord(b, 57, 0xb20f7a99, 0x3e246a79);
    NextWord(b, 58, 0xef57b9cd, 0x27333ba3);
    NextWord(b, 59, 0xebe6b238, 0x0c4763f2);
    NextWord(b, 60, 0x9fe3095e, 0x840abf27);
    NextWord(b, 61, 0x78bc8d4b, 0x7a290d5d);
    NextWord(b, 62, 0xa43fcf15, 0x065c43da);
    NextWord(b, 63, 0x668b2ff8, 0xfb3e89cb);
  }

  function StateOf(a: bv32, b: bv32, c: bv32, d: bv32, e: bv32, f: bv32, g: bv32, h: bv32): Vars {
    Vars(OfBits(a), OfBits(b), OfBits(c), OfBits(d), OfBits(e), OfBits(f), OfBits(g), OfBits(h))
  }

  /** The two words that a round computes, from the values of its four functions. */
  function NewWords(d: u32, h: u32, k: u32, w: u32, s1: u32, ch: u32, s0: u32, maj: u32): (u32, u32) {
    var t1 := h + s1 + ch + k + w;
    ((t1 + (s0 + maj)) % U32_MOD, (d + t1) % U32_MOD)
  }

  /** One more round, from a state written in bit-vectors to one with a1 and e1 as the new words. */
  lemma NextRound(m: Block, t: nat, k: u32, w: u32, a: bv32, b: bv32, c: bv32, d: bv32, e: bv32, f: bv32, g: bv32,
                  h: bv32, a1: bv32, e1: bv32)
    requires t < 64 && K(t) == k && W(m, t) == w
    requires Rounds(H0, m, t) == StateOf(a, b, c, d, e, f, g, h)
    requires NewWords(OfBits(d), OfBits(h), k, w, OfBits(BigSigma1Bits(e)), OfBits(ChBits(e, f, g)),
                      OfBits(BigSigma0Bits(a)), OfBits(MajBits(a, b, c)))
          == (OfBits(a1), OfBits(e1))
    ensures Rounds(H0, m, t + 1) == StateOf(a1, a, b, c, e1, e, f, g)
  {
    hide BigSigma0, BigSigma0Bits, BigSigma1, BigSigma1Bits, Ch, ChBits, K, Maj, MajBits, NewWords, OfBits,
      Round, Rounds, W;
    OnBits(a, b, c, e, f, g);
    RoundsNext(m, t);
    RoundOnce(StateOf(a, b, c, d, e, f, g, h), k, w);
  }

  lemma RoundOnce(v: Vars, k: u32, w: u32)
    ensures var (a1, e1) := NewWords(v.d, v.h, k, w, BigSigma1(v.e), Ch(v.e, v.f, v.g),
                                     BigSigma0(v.a), Maj(v.a, v.b, v.c));
      Round(v, k, w) == Vars(a1, v.a, v.b, v.c, e1, v.e, v.f, v.g)
  {
    hide BigSigma0, BigSigma1, Ch, Maj;
    Wraps(v.h + BigSigma1(v.e) + Ch(v.e, v.f, v.g) + k + w, BigSigma0(v.a) + Maj(v.a, v.b, v.c), v.d);
  }

  lemma RoundsNext(m: Block, t: nat)
    requires t < 64
    ensures Rounds(H0, m, t + 1) == Round(Rounds(H0, m, t), K(t), W(m, t))
  {
    hide K, Round, W;
  }

  /** Sums may be reduced at the end only. */
  lemma Wraps(x: nat, y: nat, z: nat)
    ensures (x % U32_MOD + y % U32_MOD) % U32_MOD == (x + y) % U32_MOD
    ensures (z + x % U32_MOD) % U32_MOD == (z + x) % U32_MOD
  {
    assert x == x / U32_MOD * U32_MOD + x % U32_MOD && y == y / U32_MOD * U32_MOD + y % U32_MOD;
  }

  lemma OnBits(a: bv32, b: bv32, c: bv32, e: bv32, f: bv32, g: bv32)
    ensures BigSigma0(OfBits(a)) == OfBits(BigSigma0Bits(a)) && BigSigma1(OfBits(e)) == OfBits(BigSigma1Bits(e))
    ensures Maj(OfBits(a), OfBits(b), OfBits(c)) == OfBits(MajBits(a, b, c))
    ensures Ch(OfBits(e), OfBits(f), OfBits(g)) == OfBits(ChBits(e, f, g))
  {
    hide BigSigma0Bits, BigSigma1Bits, ChBits, MajBits;
  }

  lemma Rounds0(b: Block)
    requires IsPaddedAbc(b)
    requires Rounds(H0, b, 0)
          == StateOf(0x6a09e667, 0xbb67ae85, 0x3c6ef372, 0xa54ff53a, 0x510e527f, 0x9b05688c, 0x1f83d9ab, 0x5be0cd19)
    ensures Rounds(H0, b, 4)
         == StateOf(0xd550f666, 0xc8c347a7, 0x5a6ad9ad, 0x5d6aebcd, 0x24e00850, 0xf92939eb, 0x78ce7989, 0xfa2a4622)
  {
    hide IsPaddedAbc, Rounds, StateOf, W;
    FirstWords(b);
    NextRound(b, 0, 0x428a2f98, 0x61626380, 0x6a09e667, 0xbb67ae85, 0x3c6ef372, 0xa54ff53a, 0x510e527f, 0x9b05688c,
              0x1f83d9ab, 0x5be0cd19, 0x5d6aebcd, 0xfa2a4622);
    NextRound(b, 1, 0x71374491, 0x00000000, 0x5d6aebcd, 0x6a09e667, 0xbb67ae85, 0x3c6ef372, 0xfa2a4622, 0x510e527f,
              0x9b05688c, 0x1f83d9ab, 0x5a6ad9ad, 0x78ce7989);
    NextRound(b, 2, 0xb5c0fbcf, 0x00000000, 0x5a6ad9ad, 0x5d6aebcd, 0x6a09e667, 0xbb67ae85, 0x78ce7989, 0xfa2a4622,
              0x510e527f, 0x9b05688c, 0xc8c347a7, 0xf92939eb);
    NextRound(b, 3, 0xe9b5dba5, 0x00000000, 0xc8c347a7, 0x5a6ad9ad, 0x5d6aebcd, 0x6a09e667, 0xf92939eb, 0x78ce7989,
              0xfa2a4622, 0x510e527f, 0xd550f666, 0x24e00850);
  }

  lemma Rounds4(b: Block)
    requires IsPaddedAbc(b)
    requires Rounds(H0, b, 4)
          == StateOf(0xd550f666, 0xc8c347a7, 0x5a6ad9ad, 0x5d6aebcd, 0x24e00850, 0xf92939eb, 0x78ce7989, 0xfa2a4622)
    ensures Rounds(H0, b, 8)
         == StateOf(0x85a07b5f, 0xe5030380, 0x2b4209f5, 0x04409a6a, 0x0c657a79, 0x9b27a401, 0x714260ad, 0x43ada245)
  {
    hide IsPaddedAbc, Rounds, StateOf, W;
    FirstWords(b);
    NextRound(b, 4, 0x3956c25b, 0x00000000, 0xd550f666, 0xc8c347a7, 0x5a6ad9ad, 0x5d6aebcd, 0x24e00850, 0xf92939eb,
              0x78ce7989, 0xfa2a4622, 0x04409a6a, 0x43ada245);
    NextRound(b, 5, 0x59f111f1, 0x00000000, 0x04409a6a, 0xd550f666, 0xc8c347a7, 0x5a6ad9ad, 0x43ada245, 0x24e00850,
              0xf92939eb, 0x78ce7989, 0x2b4209f5, 0x714260ad);
    NextRound(b, 6, 0x923f82a4, 0x00000000, 0x2b4209f5, 0x04409a6a, 0xd550f666, 0xc8c347a7, 0x714260ad, 0x43ada245,
              0x24e00850, 0xf92939eb, 0xe5030380, 0x9b27a401);
    NextRound(b, 7, 0xab1c5ed5, 0x00000000, 0xe5030380, 0x2b4209f5, 0x04409a6a, 0xd550f666, 0x9b27a401, 0x714260ad,
              0x43ada245, 0x24e00850, 0x85a07b5f, 0x0c657a79);
  }

  lemma Rounds8(b: Block)
    requires IsPaddedAbc(b)
    requires Rounds(H0, b, 8)
          == StateOf(0x85a07b5f, 0xe5030380, 0x2b4209f5, 0x04409a6a, 0x0c657a79, 0x9b27a401, 0x714260ad, 0x43ada245)
    ensures Rounds(H0, b, 12)
         == StateOf(0xf71fc5a9, 0x4798a3f4, 0x8c87346b, 0x8e04ecb9, 0x816fd6e9, 0x436b23e8, 0x1cc92596, 0x32ca2d8c)
  {
    hide IsPaddedAbc, Rounds, StateOf, W;
    FirstWords(b);
    NextRound(b, 8, 0xd807aa98, 0x00000000, 0x85a07b5f, 0xe5030380, 0x2b4209f5, 0x04409a6a, 0x0c657a79, 0x9b27a401,
              0x714260ad, 0x43ada245, 0x8e04ecb9, 0x32ca2d8c);
    NextRound(b, 9, 0x12835b01, 0x00000000, 0x8e04ecb9, 0x85a07b5f, 0xe5030380, 0x2b4209f5, 0x32ca2d8c, 0x0c657a79,
              0x9b27a401, 0x714260ad, 0x8c87346b, 0x1cc92596);
    NextRound(b, 10, 0x243185be, 0x00000000, 0x8c87346b, 0x8e04ecb9, 0x85a07b5f, 0xe5030380, 0x1cc92596, 0x32ca2d8c,
              0x0c657a79, 0x9b27a401, 0x4798a3f4, 0x436b23e8);
    NextRound(b, 11, 0x550c7dc3, 0x00000000, 0x4798a3f4, 0x8c87346b, 0x8e04ecb9, 0x85a07b5f, 0x436b23e8, 0x1cc92596,
              0x32ca2d8c, 0x0c657a79, 0xf71fc5a9, 0x816fd6e9);
  }

  lemma Rounds12(b: Block)
    requires IsPaddedAbc(b)
    requires Rounds(H0, b, 12)
          == StateOf(0xf71fc5a9, 0x4798a3f4, 0x8c87346b, 0x8e04ecb9, 0x816fd6e9, 0x436b23e8, 0x1cc92596, 0x32ca2d8c)
    ensures Rounds(H0, b, 16)
         == StateOf(0xb0fa238e, 0xc0645fde, 0xd932eb16, 0x87912990, 0x07590dcd, 0x0b92f20c, 0x745a48de, 0x1e578218)
  {
    hide IsPaddedAbc, Rounds, StateOf, W;
    FirstWords(b);
    NextRound(b, 12, 0x72be5d74, 0x00000000, 0xf71fc5a9, 0x4798a3f4, 0x8c87346b, 0x8e04ecb9, 0x816fd6e9, 0x436b23e8,
              0x1cc92596, 0x32ca2d8c, 0x87912990, 0x1e578218);
    NextRound(b, 13, 0x80deb1fe, 0x00000000, 0x87912990, 0xf71fc5a9, 0x4798a3f4, 0x8c87346b, 0x1e578218, 0x816fd6e9,
              0x436b23e8, 0x1cc92596, 0xd932eb16, 0x745a48de);
    NextRound(b, 14, 0x9bdc06a7, 0x00000000, 0xd932eb16, 0x87912990, 0xf71fc5a9, 0x4798a3f4, 0x745a48de, 0x1e578218,
              0x816fd6e9, 0x436b23e8, 0xc0645fde, 0x0b92f20c);
    NextRound(b, 15, 0xc19bf174, 0x00000018, 0xc0645fde, 0xd932eb16, 0x87912990, 0xf71fc5a9, 0x0b92f20c, 0x745a48de,
              0x1e578218, 0x816fd6e9, 0xb0fa238e, 0x07590dcd);
  }

  lemma Rounds16(b: Block)
    requires IsPaddedAbc(b)
    requires Rounds(H0, b, 16)
          == StateOf(0xb0fa238e, 0xc0645fde, 0xd932eb16, 0x87912990, 0x07590dcd, 0x0b92f20c, 0x745a48de, 0x1e578218)
    ensures Rounds(H0, b, 20)
         == StateOf(0xe1f20c33, 0xfe777bbf, 0xc2fbd9d1, 0x21da9a9b, 0xb0638179, 0xcc899961, 0x846ee454, 0x8034229c)
  {
    hide IsPaddedAbc, Rounds, StateOf, W;
    Words16(b);
    NextRound(b, 16, 0xe49b69c1, 0x61626380, 0xb0fa238e, 0xc0645fde, 0xd932eb16, 0x87912990, 0x07590dcd, 0x0b92f20c,
              0x745a48de, 0x1e578218, 0x21da9a9b, 0x8034229c);
    NextRound(b, 17, 0xefbe4786, 0x000f0000, 0x21da9a9b, 0xb0fa238e, 0xc0645fde, 0xd932eb16, 0x8034229c, 0x07590dcd,
              0x0b92f20c, 0x745a48de, 0xc2fbd9d1, 0x846ee454);
    NextRound(b, 18, 0x0fc19dc6, 0x7da86405, 0xc2fbd9d1, 0x21da9a9b, 0xb0fa238e, 0xc0645fde, 0x846ee454, 0x8034229c,
              0x07590dcd, 0x0b92f20c, 0xfe777bbf, 0xcc899961);
    NextRound(b, 19, 0x240ca1cc, 0x600003c6, 0xfe777bbf, 0xc2fbd9d1, 0x21da9a9b, 0xb0fa238e, 0xcc899961, 0x846ee454,
              0x8034229c, 0x07590dcd, 0xe1f20c33, 0xb0638179);
  }

  lemma Rounds20(b: Block)
    requires IsPaddedAbc(b)
    requires Rounds(H0, b, 20)
          == StateOf(0xe1f20c33, 0xfe777bbf, 0xc2fbd9d1, 0x21da9a9b, 0xb0638179, 0xcc899961, 0x846ee454, 0x8034229c)
    ensures Rounds(H0, b, 24)
         == StateOf(0xc5d53d8d, 0xa7a3623f, 0xc2606d6d, 0x9dc68b63, 0xaa47c347, 0x49f5114a, 0xe1257970, 0x8ada8930)
  {
    hide IsPaddedAbc, Rounds, StateOf, W;
    Words16(b);
    NextRound(b, 20, 0x2de92c6f, 0x3e9d7b78, 0xe1f20c33, 0xfe777bbf, 0xc2fbd9d1, 0x21da9a9b, 0xb0638179, 0xcc899961,
              0x846ee454, 0x8034229c, 0x9dc68b63, 0x8ada8930);
    NextRound(b, 21, 0x4a7484aa, 0x0183fc00, 0x9dc68b63, 0xe1f20c33, 0xfe777bbf, 0xc2fbd9d1, 0x8ada8930, 0xb0638179,
              0xcc899961, 0x846ee454, 0xc2606d6d, 0xe1257970);
    NextRound(b, 22, 0x5cb0a9dc, 0x12dcbfdb, 0xc2606d6d, 0x9dc68b63, 0xe1f20c33, 0xfe777bbf, 0xe1257970, 0x8ada8930,
              0xb0638179, 0xcc899961, 0xa7a3623f, 0x49f5114a);
    NextRound(b, 23, 0x76f988da, 0xe2e2c38e, 0xa7a3623f, 0xc2606d6d, 0x9dc68b63, 0xe1f20c33, 0x49f5114a, 0xe1257970,
              0x8ada8930, 0xb0638179, 0xc5d53d8d, 0xaa47c347);
  }

  lemma Rounds24(b: Block)
    requires IsPaddedAbc(b)
    requires Rounds(H0, b, 24)
          == StateOf(0xc5d53d8d, 0xa7a3623f, 0xc2606d6d, 0x9dc68b63, 0xaa47c347, 0x49f5114a, 0xe1257970, 0x8ada8930)
    ensures Rounds(H0, b, 28)
         == StateOf(0x77d37528, 0xb62ec4bc, 0xcde8037d, 0x1c2c2838, 0xedffbff8, 0xc74c6516, 0x14383d8e, 0x2823ef91)
  {
    hide IsPaddedAbc, Rounds, StateOf, W;
    Words24(b);
    NextRound(b, 24, 0x983e5152, 0xc8215c1a, 0xc5d53d8d, 0xa7a3623f, 0xc2606d6d, 0x9dc68b63, 0xaa47c347, 0x49f5114a,
              0xe1257970, 0x8ada8930, 0x1c2c2838, 0x2823ef91);
    NextRound(b, 25, 0xa831c66d, 0xb73679a2, 0x1c2c2838, 0xc5d53d8d, 0xa7a3623f, 0xc2606d6d, 0x2823ef91, 0xaa47c347,
              0x49f5114a, 0xe1257970, 0xcde8037d, 0x14383d8e);
    NextRound(b, 26, 0xb00327c8, 0xe5bc3909, 0xcde8037d, 0x1c2c2838, 0xc5d53d8d, 0xa7a3623f, 0x14383d8e, 0x2823ef91,
              0xaa47c347, 0x49f5114a, 0xb62ec4bc, 0xc74c6516);
    NextRound(b, 27, 0xbf597fc7, 0x32663c5b, 0xb62ec4bc, 0xcde8037d, 0x1c2c2838, 0xc5d53d8d, 0xc74c6516, 0x14383d8e,
              0x2823ef91, 0xaa47c347, 0x77d37528, 0xedffbff8);
  }

  lemma Rounds28(b: Block)
    requires IsPaddedAbc(b)
    requires Rounds(H0, b, 28)
          == StateOf(0x77d37528, 0xb62ec4bc, 0xcde8037d, 0x1c2c2838, 0xedffbff8, 0xc74c6516, 0x14383d8e, 0x2823ef91)
    ensures Rounds(H0, b, 32)
         == StateOf(0x73b33bf5, 0xea992a22, 0xa0060b30, 0x363482c9, 0xba591112, 0x0109ab3a, 0xade79437, 0x6112a3b7)
  {
    hide IsPaddedAbc, Rounds, StateOf, W;
    Words24(b);
    NextRound(b, 28, 0xc6e00bf3, 0x9d209d67, 0x77d37528, 0xb62ec4bc, 0xcde8037d, 0x1c2c2838, 0xedffbff8, 0xc74c6516,
              0x14383d8e, 0x2823ef91, 0x363482c9, 0x6112a3b7);
    NextRound(b, 29, 0xd5a79147, 0xec8726cb, 0x363482c9, 0x77d37528, 0xb62ec4bc, 0xcde8037d, 0x6112a3b7, 0xedffbff8,
              0xc74c6516, 0x14383d8e, 0xa0060b30, 0xade79437);
    NextRound(b, 30, 0x06ca6351, 0x702138a4, 0xa0060b30, 0x363482c9, 0x77d37528, 0xb62ec4bc, 0xade79437, 0x6112a3b7,
              0xedffbff8, 0xc74c6516, 0xea992a22, 0x0109ab3a);
    NextRound(b, 31, 0x14292967, 0xd3b7973b, 0xea992a22, 0xa0060b30, 0x363482c9, 0x77d37528, 0x0109ab3a, 0xade79437,
              0x6112a3b7, 0xedffbff8, 0x73b33bf5, 0xba591112);
  }

  lemma Rounds32(b: Block)
    requires IsPaddedAbc(b)
    requires Rounds(H0, b, 32)
          == StateOf(0x73b33bf5, 0xea992a22, 0xa0060b30, 0x363482c9, 0xba591112, 0x0109ab3a, 0xade79437, 0x6112a3b7)
    ensures Rounds(H0, b, 36)
         == StateOf(0x65a0cfe4, 0xa9a7738c, 0xfe604df5, 0x98e12507, 0xf4b002d6, 0x085f3833, 0x59249dd3, 0x9cd9f5f6)
  {
    hide IsPaddedAbc, Rounds, StateOf, W;
    Words32(b);
    NextRound(b, 32, 0x27b70a85, 0x93f5997f, 0x73b33bf5, 0xea992a22, 0xa0060b30, 0x363482c9, 0xba591112, 0x0109ab3a,
              0xade79437, 0x6112a3b7, 0x98e12507, 0x9cd9f5f6);
    NextRound(b, 33, 0x2e1b2138, 0x3b68ba73, 0x98e12507, 0x73b33bf5, 0xea992a22, 0xa0060b30, 0x9cd9f5f6, 0xba591112,
              0x0109ab3a, 0xade79437, 0xfe604df5, 0x59249dd3);
    NextRound(b, 34, 0x4d2c6dfc, 0xaff4ffc1, 0xfe604df5, 0x98e12507, 0x73b33bf5, 0xea992a22, 0x59249dd3, 0x9cd9f5f6,
              0xba591112, 0x0109ab3a, 0xa9a7738c, 0x085f3833);
    NextRound(b, 35, 0x53380d13, 0xf10a5c62, 0xa9a7738c, 0xfe604df5, 0x98e12507, 0x73b33bf5, 0x085f3833, 0x59249dd3,
              0x9cd9f5f6, 0xba591112, 0x65a0cfe4, 0xf4b002d6);
  }

  lemma Rounds36(b: Block)
    requires IsPaddedAbc(b)
    requires Rounds(H0, b, 36)
          == StateOf(0x65a0cfe4, 0xa9a7738c, 0xfe604df5, 0x98e12507, 0xf4b002d6, 0x085f3833, 0x59249dd3, 0x9cd9f5f6)
    ensures Rounds(H0, b, 40)
         == StateOf(0x79ea687a, 0x6dc57a8a, 0x34df1604, 0x41a65cb1, 0x1efbc0a0, 0xf0781bc8, 0xa507a53d, 0x0772a26b)
  {
    hide IsPaddedAbc, Rounds, StateOf, W;
    Words32(b);
    NextRound(b, 36, 0x650a7354, 0x0a8b3996, 0x65a0cfe4, 0xa9a7738c, 0xfe604df5, 0x98e12507, 0xf4b002d6, 0x085f3833,
              0x59249dd3, 0x9cd9f5f6, 0x41a65cb1, 0x0772a26b);
    NextRound(b, 37, 0x766a0abb, 0x72af830a, 0x41a65cb1, 0x65a0cfe4, 0xa9a7738c, 0xfe604df5, 0x0772a26b, 0xf4b002d6,
              0x085f3833, 0x59249dd3, 0x34df1604, 0xa507a53d);
    NextRound(b, 38, 0x81c2c92e, 0x9409e33e, 0x34df1604, 0x41a65cb1, 0x65a0cfe4, 0xa9a7738c, 0xa507a53d, 0x0772a26b,
              0xf4b002d6, 0x085f3833, 0x6dc57a8a, 0xf0781bc8);
    NextRound(b, 39, 0x92722c85, 0x24641522, 0x6dc57a8a, 0x34df1604, 0x41a65cb1, 0x65a0cfe4, 0xf0781bc8, 0xa507a53d,
              0x0772a26b, 0xf4b002d6, 0x79ea687a, 0x1efbc0a0);
  }

  lemma Rounds40(b: Block)
    requires IsPaddedAbc(b)
    requires Rounds(H0, b, 40)
          == StateOf(0x79ea687a, 0x6dc57a8a, 0x34df1604, 0x41a65cb1, 0x1efbc0a0, 0xf0781bc8, 0xa507a53d, 0x0772a26b)
    ensures Rounds(H0, b, 44)
         == StateOf(0x9d4baf93, 0x17aa0dfe, 0xdf46652f, 0xd6670766, 0xfda24c2e, 0xdecd4715, 0x838b2711, 0x26352d63)
  {
    hide IsPaddedAbc, Rounds, StateOf, W;
    Words40(b);
    NextRound(b, 40, 0xa2bfe8a1, 0x9f47bf94, 0x79ea687a, 0x6dc57a8a, 0x34df1604, 0x41a65cb1, 0x1efbc0a0, 0xf0781bc8,
              0xa507a53d, 0x0772a26b, 0xd6670766, 0x26352d63);
    NextRound(b, 41, 0xa81a664b, 0xf0a64f5a, 0xd6670766, 0x79ea687a, 0x6dc57a8a, 0x34df1604, 0x26352d63, 0x1efbc0a0,
              0xf0781bc8, 0xa507a53d, 0xdf46652f, 0x838b2711);
    NextRound(b, 42, 0xc24b8b70, 0x3e246a79, 0xdf46652f, 0xd6670766, 0x79ea687a, 0x6dc57a8a, 0x838b2711, 0x26352d63,
              0x1efbc0a0, 0xf0781bc8, 0x17aa0dfe, 0xdecd4715);
    NextRound(b, 43, 0xc76c51a3, 0x27333ba3, 0x17aa0dfe, 0xdf46652f, 0xd6670766, 0x79ea687a, 0xdecd4715, 0x838b2711,
              0x26352d63, 0x1efbc0a0, 0x9d4baf93, 0xfda24c2e);
  }

  lemma Rounds44(b: Block)
    requires IsPaddedAbc(b)
    requires Rounds(H0, b, 44)
          == StateOf(0x9d4baf93, 0x17aa0dfe, 0xdf46652f, 0xd6670766, 0xfda24c2e, 0xdecd4715, 0x838b2711, 0x26352d63)
    ensures Rounds(H0, b, 48)
         == StateOf(0x4172328d, 0xa14c14b0, 0x72ab4b91, 0x26628815, 0xfecf0bc6, 0xd57b94a9, 0xb7755da1, 0xa80f11f0)
  {
    hide IsPaddedAbc, Rounds, StateOf, W;
    Words40(b);
    NextRound(b, 44, 0xd192e819, 0x0c4763f2, 0x9d4baf93, 0x17aa0dfe, 0xdf46652f, 0xd6670766, 0xfda24c2e, 0xdecd4715,
              0x838b2711, 0x26352d63, 0x26628815, 0xa80f11f0);
    NextRound(b, 45, 0xd6990624, 0x840abf27, 0x26628815, 0x9d4baf93, 0x17aa0dfe, 0xdf46652f, 0xa80f11f0, 0xfda24c2e,
              0xdecd4715, 0x838b2711, 0x72ab4b91, 0xb7755da1);
    NextRound(b, 46, 0xf40e3585, 0x7a290d5d, 0x72ab4b91, 0x26628815, 0x9d4baf93, 0x17aa0dfe, 0xb7755da1, 0xa80f11f0,
              0xfda24c2e, 0xdecd4715, 0xa14c14b0, 0xd57b94a9);
    NextRound(b, 47, 0x106aa070, 0x065c43da, 0xa14c14b0, 0x72ab4b91, 0x26628815, 0x9d4baf93, 0xd57b94a9, 0xb7755da1,
              0xa80f11f0, 0xfda24c2e, 0x4172328d, 0xfecf0bc6);
  }

  lemma Rounds48(b: Block)
    requires IsPaddedAbc(b)
    requires Rounds(H0, b, 48)
          == StateOf(0x4172328d, 0xa14c14b0, 0x72ab4b91, 0x26628815, 0xfecf0bc6, 0xd57b94a9, 0xb7755da1, 0xa80f11f0)
    ensures Rounds(H0, b, 52)
         == StateOf(0x886e7a22, 0x7a0508a1, 0xf11bfaa8, 0x05757ceb, 0x49231c1e, 0x52f1ccf7, 0x6e5c390c, 0xbd714038)
  {
    hide IsPaddedAbc, Rounds, StateOf, W;
    Words48(b);
    NextRound(b, 48, 0x19a4c116, 0xfb3e89cb, 0x4172328d, 0xa14c14b0, 0x72ab4b91, 0x26628815, 0xfecf0bc6, 0xd57b94a9,
              0xb7755da1, 0xa80f11f0, 0x05757ceb, 0xbd714038);
    NextRound(b, 49, 0x1e376c08, 0xcc7617db, 0x05757ceb, 0x4172328d, 0xa14c14b0, 0x72ab4b91, 0xbd714038, 0xfecf0bc6,
              0xd57b94a9, 0xb7755da1, 0xf11bfaa8, 0x6e5c390c);
    NextRound(b, 50, 0x2748774c, 0xb9e66c34, 0xf11bfaa8, 0x05757ceb, 0x4172328d, 0xa14c14b0, 0x6e5c390c, 0xbd714038,
              0xfecf0bc6, 0xd57b94a9, 0x7a0508a1, 0x52f1ccf7);
    NextRound(b, 51, 0x34b0bcb5, 0xa9993667, 0x7a0508a1, 0xf11bfaa8, 0x05757ceb, 0x4172328d, 0x52f1ccf7, 0x6e5c390c,
              0xbd714038, 0xfecf0bc6, 0x886e7a22, 0x49231c1e);
  }

  lemma Rounds52(b: Block)
    requires IsPaddedAbc(b)
    requires Rounds(H0, b, 52)
          == StateOf(0x886e7a22, 0x7a0508a1, 0xf11bfaa8, 0x05757ceb, 0x49231c1e, 0x52f1ccf7, 0x6e5c390c, 0xbd714038)
    ensures Rounds(H0, b, 56)
         == StateOf(0x38cc9913, 0x3ec45cdb, 0xf5702fdb, 0x101fd28f, 0x54cb266b, 0xe50e1b4f, 0x9f4787c3, 0x529e7d00)
  {
    hide IsPaddedAbc, Rounds, StateOf, W;
    Words48(b);
    NextRound(b, 52, 0x391c0cb3, 0x84badedd, 0x886e7a22, 0x7a0508a1, 0xf11bfaa8, 0x05757ceb, 0x49231c1e, 0x52f1ccf7,
              0x6e5c390c, 0xbd714038, 0x101fd28f, 0x529e7d00);
    NextRound(b, 53, 0x4ed8aa4a, 0xc21462bc, 0x101fd28f, 0x886e7a22, 0x7a0508a1, 0xf11bfaa8, 0x529e7d00, 0x49231c1e,
              0x52f1ccf7, 0x6e5c390c, 0xf5702fdb, 0x9f4787c3);
    NextRound(b, 54, 0x5b9cca4f, 0x1487472c, 0xf5702fdb, 0x101fd28f, 0x886e7a22, 0x7a0508a1, 0x9f4787c3, 0x529e7d00,
              0x49231c1e, 0x52f1ccf7, 0x3ec45cdb, 0xe50e1b4f);
    NextRound(b, 55, 0x682e6ff3, 0xb20f7a99, 0x3ec45cdb, 0xf5702fdb, 0x101fd28f, 0x886e7a22, 0xe50e1b4f, 0x9f4787c3,
              0x529e7d00, 0x49231c1e, 0x38cc9913, 0x54cb266b);
  }

  lemma Rounds56(b: Block)
    requires IsPaddedAbc(b)
    requires Rounds(H0, b, 56)
          == StateOf(0x38cc9913, 0x3ec45cdb, 0xf5702fdb, 0x101fd28f, 0x54cb266b, 0xe50e1b4f, 0x9f4787c3, 0x529e7d00)
    ensures Rounds(H0, b, 60)
         == StateOf(0xb6ae8fff, 0xffb70472, 0xc062d46f, 0xfcd1887b, 0xb21bad3d, 0x6d83bfc6, 0x7e44008e, 0x9b5e906c)
  {
    hide IsPaddedAbc, Rounds, StateOf, W;
    Words56(b);
    NextRound(b, 56, 0x748f82ee, 0xef57b9cd, 0x38cc9913, 0x3ec45cdb, 0xf5702fdb, 0x101fd28f, 0x54cb266b, 0xe50e1b4f,
              0x9f4787c3, 0x529e7d00, 0xfcd1887b, 0x9b5e906c);
    NextRound(b, 57, 0x78a5636f, 0xebe6b238, 0xfcd1887b, 0x38cc9913, 0x3ec45cdb, 0xf5702fdb, 0x9b5e906c, 0x54cb266b,
              0xe50e1b4f, 0x9f4787c3, 0xc062d46f, 0x7e44008e);
    NextRound(b, 58, 0x84c87814, 0x9fe3095e, 0xc062d46f, 0xfcd1887b, 0x38cc9913, 0x3ec45cdb, 0x7e44008e, 0x9b5e906c,
              0x54cb266b, 0xe50e1b4f, 0xffb70472, 0x6d83bfc6);
    NextRound(b, 59, 0x8cc70208, 0x78bc8d4b, 0xffb70472, 0xc062d46f, 0xfcd1887b, 0x38cc9913, 0x6d83bfc6, 0x7e44008e,
              0x9b5e906c, 0x54cb266b, 0xb6ae8fff, 0xb21bad3d);
  }

  lemma Rounds60(b: Block)
    requires IsPaddedAbc(b)
    requires Rounds(H0, b, 60)
          == StateOf(0xb6ae8fff, 0xffb70472, 0xc062d46f, 0xfcd1887b, 0xb21bad3d, 0x6d83bfc6, 0x7e44008e, 0x9b5e906c)
    ensures Rounds(H0, b, 64)
         == StateOf(0x506e3058, 0xd39a2165, 0x04d24d6c, 0xb85e2ce9, 0x5ef50f24, 0xfb121210, 0x948d25b6, 0x961f4894)
  {
    hide IsPaddedAbc, Rounds, StateOf, W;
    Words56(b);
    NextRound(b, 60, 0x90befffa, 0xa43fcf15, 0xb6ae8fff, 0xffb70472, 0xc062d46f, 0xfcd1887b, 0xb21bad3d, 0x6d83bfc6,
              0x7e44008e, 0x9b5e906c, 0xb85e2ce9, 0x961f4894);
    NextRound(b, 61, 0xa4506ceb, 0x668b2ff8, 0xb85e2ce9, 0xb6ae8fff, 0xffb70472, 0xc062d46f, 0x961f4894, 0xb21bad3d,
              0x6d83bfc6, 0x7e44008e, 0x04d24d6c, 0x948d25b6);
    NextRound(b, 62, 0xbef9a3f7, 0xeeaba2cc, 0x04d24d6c, 0xb85e2ce9, 0xb6ae8fff, 0xffb70472, 0x948d25b6, 0x961f4894,
              0xb21bad3d, 0x6d83bfc6, 0xd39a2165, 0xfb121210);
    NextRound(b, 63, 0xc67178f2, 0x12b1edeb, 0xd39a2165, 0x04d24d6c, 0xb85e2ce9, 0xb6ae8fff, 0xfb121210, 0x948d25b6,
              0x961f4894, 0xb21bad3d, 0x506e3058, 0x5ef50f24);
  }

  lemma AllRounds(b: Block)
    requires IsPaddedAbc(b)
    ensures Rounds(H0, b, 64)
         == StateOf(0x506e3058, 0xd39a2165, 0x04d24d6c, 0xb85e2ce9, 0x5ef50f24, 0xfb121210, 0x948d25b6, 0x961f4894)
  {
    hide IsPaddedAbc, Rounds;
    FirstRound(b);
    Rounds0(b);
    Rounds4(b);
    Rounds8(b);
    Rounds12(b);
    Rounds16(b);
    Rounds20(b);
    Rounds24(b);
    Rounds28(b);
    Rounds32(b);
    Rounds36(b);
    Rounds40(b);
    Rounds44(b);
    Rounds48(b);
    Rounds52(b);
    Rounds56(b);
    Rounds60(b);
  }

  lemma FirstRound(b: Block)
    ensures Rounds(H0, b, 0)
         == StateOf(0x6a09e667, 0xbb67ae85, 0x3c6ef372, 0xa54ff53a, 0x510e527f, 0x9b05688c, 0x1f83d9ab, 0x5be0cd19)
  {
  }

  lemma CompressAbc(b: Block)
    requires IsPaddedAbc(b)
    ensures Compress(H0, b) == [
      0xba7816bf, 0x8f01cfea, 0x414140de, 0x5dae2223, 0xb00361a3, 0x96177a9c, 0xb410ff61, 0xf20015ad
    ]
  {
    hide IsPaddedAbc, Rounds;
    AllRounds(b);
  }

  lemma OneBlock(b: Block)
    ensures Fold(Compress, H0, b) == Compress(H0, b)
  {
    hide Compress;
    assert Blocks(Compress, H0, b, 1) == Compress(Blocks(Compress, H0, b, 0), b[0..64]);
    assert b[0..64] == b;
  }

  lemma WordBytes(b0: byte, b1: byte, b2: byte, b3: byte)
    ensures BeBytes(BeWord(b0, b1, b2, b3), 4) == [b0, b1, b2, b3]
  {
    var w := BeWord(b0, b1, b2, b3);
    assert w / 0x100 == b0 as nat * 0x1_0000 + b1 as nat * 0x100 + b2 as nat && w % 0x100 == b3 as nat;
    assert w / 0x100 / 0x100 == b0 as nat * 0x100 + b1 as nat && w / 0x100 % 0x100 == b2 as nat;
    assert BeBytes(b0 as nat, 1) == [b0];
    assert BeBytes(w / 0x100 / 0x100, 2) == [b0, b1];
    assert BeBytes(w / 0x100, 3) == [b0, b1, b2];
  }

  lemma DigestNext(h: seq<u32>, i: nat, b0: byte, b1: byte, b2: byte, b3: byte)
    requires i < |h| && h[i] == BeWord(b0, b1, b2, b3)
    ensures Digest(h[..i + 1]) == Digest(h[..i]) + [b0, b1, b2, b3]
  {
    assert h[..i + 1][..i] == h[..i];
    WordBytes(b0, b1, b2, b3);
  }

  lemma DigestFour(h: seq<u32>, i: nat, b: seq<byte>)
    requires i + 4 <= |h| && |b| == 16
    requires h[i] == BeWord(b[0], b[1], b[2], b[3]) && h[i + 1] == BeWord(b[4], b[5], b[6], b[7])
    requires h[i + 2] == BeWord(b[8], b[9], b[10], b[11]) && h[i + 3] == BeWord(b[12], b[13], b[14], b[15])
    ensures Digest(h[..i + 4]) == Digest(h[..i]) + b
  {
    hide BeWord, Digest;
    DigestNext(h, i, b[0], b[1], b[2], b[3]);
    DigestNext(h, i + 1, b[4], b[5], b[6], b[7]);
    DigestNext(h, i + 2, b[8], b[9], b[10], b[11]);
    DigestNext(h, i + 3, b[12], b[13], b[14], b[15]);
  }

  const FIRST_HALF: seq<byte> := [
    0xba, 0x78, 0x16, 0xbf, 0x8f, 0x01, 0xcf, 0xea, 0x41, 0x41, 0x40, 0xde, 0x5d, 0xae, 0x22, 0x23
  ]
  const SECOND_HALF: seq<byte> := [
    0xb0, 0x03, 0x61, 0xa3, 0x96, 0x17, 0x7a, 0x9c, 0xb4, 0x10, 0xff, 0x61, 0xf2, 0x00, 0x15, 0xad
  ]

  lemma DigestWords(h: seq<u32>)
    requires h == [
      0xba7816bf, 0x8f01cfea, 0x414140de, 0x5dae2223, 0xb00361a3, 0x96177a9c, 0xb410ff61, 0xf20015ad
    ]
    ensures Digest(h) == FIRST_HALF + SECOND_HALF
  {
    hide Digest;
    assert h[..0] == [] && h[..8] == h;
    NoDigest();
    DigestFour(h, 0, FIRST_HALF);
    DigestFour(h, 4, SECOND_HALF);
  }

  lemma NoDigest()
    ensures Digest([]) == []
  {
  }

  /** SHA-256 of abc is the published value. */
  lemma DigestOfAbc()
    ensures Sha256(ABC) == FIRST_HALF + SECOND_HALF
  {
    hide Compress, Digest, Fold, IsPaddedAbc, LengthField, Pad;
    PadAbc();
    var b: Block := Pad(ABC, LengthField(3));
    OneBlock(b);
    CompressAbc(b);
    DigestWords(Compress(H0, b));
  }
}
