/** The digest of the message abc, step by step: an entry of the test suite in appendix A.5 of RFC 1321. */
module Md5Example {
  import opened Bytes
  import opened Md5Standard
  import opened MerkleDamgard
  import opened Words

  const ABC: seq<byte> := [0x61, 0x62, 0x63]

  /** The padded message is one block. */
  ghost predicate IsPaddedAbc(b: Block) {
    b == ABC + [0x80] + Repeat(0, 52) + [0x18, 0, 0, 0, 0, 0, 0, 0]
  }

  lemma PadAbc()
    ensures |Pad(ABC, LengthField(3))| == 64 && IsPaddedAbc(Pad(ABC, LengthField(3)))
  {
    assert Counter(24) == 0x18;
    assert LeBytes(0, 1) == [0];
    assert LeBytes(0, 2) == [0, 0];
    assert LeBytes(0, 3) == [0, 0, 0];
    assert LeBytes(0, 4) == [0, 0, 0, 0];
    assert LeBytes(0, 5) == [0, 0, 0, 0, 0];
    assert LeBytes(0, 6) == [0, 0, 0, 0, 0, 0];
    assert LeBytes(0, 7) == [0, 0, 0, 0, 0, 0, 0];
    assert LeBytes(0x18, 8) == [0x18, 0, 0, 0, 0, 0, 0, 0];
  }

  lemma ZeroByte(b: Block, k: nat)
    requires IsPaddedAbc(b) && (4 <= k < 56 || 57 <= k < 64)
    ensures b[k] == 0
  {
  }

  lemma WordIs(b: Block, t: nat, b0: byte, b1: byte, b2: byte, b3: byte)
    requires t < 16 && b[4 * t] == b0 && b[4 * t + 1] == b1 && b[4 * t + 2] == b2 && b[4 * t + 3] == b3
    ensures Word(b, t) == BeWord(b3, b2, b1, b0)
  {
  }

  lemma ZeroWord(b: Block, t: nat)
    requires IsPaddedAbc(b) && (0 < t < 14 || t == 15)
    ensures Word(b, t) == 0
  {
    ZeroByte(b, 4 * t);
    ZeroByte(b, 4 * t + 1);
    ZeroByte(b, 4 * t + 2);
    ZeroByte(b, 4 * t + 3);
    hide IsPaddedAbc, Word;
    WordIs(b, t, 0, 0, 0, 0);
  }

  lemma FirstWord(b: Block)
    requires IsPaddedAbc(b)
    ensures Word(b, 0) == 0x80636261
  {
    assert b[0] == 0x61 && b[1] == 0x62 && b[2] == 0x63 && b[3] == 0x80;
    hide IsPaddedAbc, Word;
    WordIs(b, 0, 0x61, 0x62, 0x63, 0x80);
  }

  lemma LengthWord(b: Block)
    requires IsPaddedAbc(b)
    ensures Word(b, 14) == 0x18
  {
    assert b[56] == 0x18;
    ZeroByte(b, 57);
    ZeroByte(b, 58);
    ZeroByte(b, 59);
    hide IsPaddedAbc, Word;
    WordIs(b, 14, 0x18, 0, 0, 0);
  }

  function StateOf(a: bv32, b: bv32, c: bv32, d: bv32): Vars {
    Vars(OfBits(a), OfBits(b), OfBits(c), OfBits(d))
  }

  function AuxBits(i: nat, b: bv32, c: bv32, d: bv32): bv32 {
    if i < 16 then FBits(b, c, d) else if i < 32 then GBits(b, c, d)
    else if i < 48 then HBits(b, c, d) else IBits(b, c, d)
  }

  function Sum(a: u32, f: u32, x: u32, t: u32): u32 {
    (a + f + x + t) % U32_MOD
  }

  function Plus(x: u32, y: u32): u32 {
    (x + y) % U32_MOD
  }

  /** One more step: f is the value of the auxiliary function, sum is what is rotated, and b1 the new word. */
  lemma NextStep(m: Block, i: nat, x: u32, t: u32, s: bv6, a: bv32, b: bv32, c: bv32, d: bv32,
                 f: bv32, sum: bv32, b1: bv32)
    requires i < 64 && Word(m, Index(i)) == x && T(i) == t && Amount(i) == s && AuxBits(i, b, c, d) == f
    requires Steps(H0, m, i) == StateOf(a, b, c, d)
    requires Sum(OfBits(a), OfBits(f), x, t) == OfBits(sum) && Plus(OfBits(b), OfBits(RotlBits(sum, s))) == OfBits(b1)
    ensures Steps(H0, m, i + 1) == StateOf(d, b1, b, c)
  {
    hide Amount, Aux, AuxBits, Index, OfBits, Rotl, RotlBits, Steps, T, Word;
    AuxOnBits(i, b, c, d);
    RotlOnBits(sum, Amount(i));
    StepsNext(m, i);
  }

  lemma StepsNext(m: Block, i: nat)
    requires i < 64
    ensures Steps(H0, m, i + 1) == Step(Steps(H0, m, i), i, Word(m, Index(i)), T(i))
  {
    hide Index, Step, T, Word;
  }

  lemma AuxOnBits(i: nat, b: bv32, c: bv32, d: bv32)
    ensures Aux(i, OfBits(b), OfBits(c), OfBits(d)) == OfBits(AuxBits(i, b, c, d))
  {
    hide FBits, GBits, HBits, IBits;
  }

  lemma RotlOnBits(x: bv32, n: bv6)
    requires 0 < n < 32
    ensures Rotl(OfBits(x), n) == OfBits(RotlBits(x, n))
  {
    hide RotlBits;
  }

  lemma Steps0(m: Block)
    requires IsPaddedAbc(m) && Steps(H0, m, 0) == StateOf(0x67452301, 0xefcdab89, 0x98badcfe, 0x10325476)
    ensures Steps(H0, m, 4) == StateOf(0xd6d117b4, 0x7ad956f2, 0x2f6fbd72, 0x344a8432)
  {
    hide IsPaddedAbc, Steps, StateOf, Word;
    FirstWord(m);
    NextStep(m, 0, 0x80636261, 0xd76aa478, 7, 0x67452301, 0xefcdab89, 0x98badcfe, 0x10325476,
             0x98badcfe, 0x57ce06d8, 0xd6d117b4);
    ZeroWord(m, 1);
    NextStep(m, 1, 0x00000000, 0xe8c7b756, 12, 0x10325476, 0xd6d117b4, 0xefcdab89, 0x98badcfe,
             0xceebcbca, 0xc7e5d796, 0x344a8432);
    ZeroWord(m, 2);
    NextStep(m, 2, 0x00000000, 0x242070db, 17, 0x98badcfe, 0x344a8432, 0xd6d117b4, 0xefcdab89,
             0xdfc52fb9, 0x9ca07d92, 0x2f6fbd72);
    ZeroWord(m, 3);
    NextStep(m, 3, 0x00000000, 0xc1bdceee, 22, 0xefcdab89, 0x2f6fbd72, 0x344a8432, 0xd6d117b4,
             0xf4da86b6, 0xa666012d, 0x7ad956f2);
  }

  lemma Steps4(m: Block)
    requires IsPaddedAbc(m) && Steps(H0, m, 4) == StateOf(0xd6d117b4, 0x7ad956f2, 0x2f6fbd72, 0x344a8432)
    ensures Steps(H0, m, 8) == StateOf(0xc73741ef, 0x928d99f6, 0x207dc67b, 0x8bac3051)
  {
    hide IsPaddedAbc, Steps, StateOf, Word;
    ZeroWord(m, 4);
    NextStep(m, 4, 0x00000000, 0xf57c0faf, 7, 0xd6d117b4, 0x7ad956f2, 0x2f6fbd72, 0x344a8432,
             0x2e4b9472, 0xfa98bbd5, 0xc73741ef);
    ZeroWord(m, 5);
    NextStep(m, 5, 0x00000000, 0x4787c62a, 12, 0x344a8432, 0xc73741ef, 0x7ad956f2, 0x2f6fbd72,
             0x6a59fcf2, 0xe62c474e, 0x8bac3051);
    ZeroWord(m, 6);
    NextStep(m, 6, 0x00000000, 0xa8304613, 17, 0x2f6fbd72, 0x8bac3051, 0xc73741ef, 0x7ad956f2,
             0xf37546e3, 0xcb154a68, 0x207dc67b);
    ZeroWord(m, 7);
    NextStep(m, 7, 0x00000000, 0xfd469501, 22, 0x7ad956f2, 0x207dc67b, 0x8bac3051, 0xc73741ef,
             0xc72e01d5, 0x3f4dedc8, 0x928d99f6);
  }

  lemma Steps8(m: Block)
    requires IsPaddedAbc(m) && Steps(H0, m, 8) == StateOf(0xc73741ef, 0x928d99f6, 0x207dc67b, 0x8bac3051)
    ensures Steps(H0, m, 12) == StateOf(0x854b3712, 0x5ed49596, 0x3020401c, 0x74e2f284)
  {
    hide IsPaddedAbc, Steps, StateOf, Word;
    ZeroWord(m, 8);
    NextStep(m, 8, 0x00000000, 0x698098d8, 7, 0xc73741ef, 0x928d99f6, 0x207dc67b, 0x8bac3051,
             0x092da073, 0x39e57b3a, 0x854b3712);
    ZeroWord(m, 9);
    NextStep(m, 9, 0x00000000, 0x8b44f7af, 12, 0x8bac3051, 0x854b3712, 0x928d99f6, 0x207dc67b,
             0xa03dd17b, 0xb72ef97b, 0x74e2f284);
    ZeroWord(m, 10);
    NextStep(m, 10, 0x00000000, 0xffff5bb1, 17, 0x207dc67b, 0x74e2f284, 0x854b3712, 0x928d99f6,
             0x864f3b72, 0xa6cc5d9e, 0x3020401c);
    ZeroWord(m, 11);
    NextStep(m, 11, 0x00000000, 0x895cd7be, 22, 0x928d99f6, 0x3020401c, 0x74e2f284, 0x854b3712,
             0xb56b7706, 0xd155e8ba, 0x5ed49596);
  }

  lemma Steps12(m: Block)
    requires IsPaddedAbc(m) && Steps(H0, m, 12) == StateOf(0x854b3712, 0x5ed49596, 0x3020401c, 0x74e2f284)
    ensures Steps(H0, m, 16) == StateOf(0xdda9b9a6, 0x72aff2e0, 0xe396856b, 0xa1051895)
  {
    hide IsPaddedAbc, Steps, StateOf, Word;
    ZeroWord(m, 12);
    NextStep(m, 12, 0x00000000, 0x6b901122, 7, 0x854b3712, 0x5ed49596, 0x3020401c, 0x74e2f284,
             0x30226214, 0x20fdaa48, 0xdda9b9a6);
    ZeroWord(m, 13);
    NextStep(m, 13, 0x00000000, 0xfd987193, 12, 0x74e2f284, 0xdda9b9a6, 0x5ed49596, 0x3020401c,
             0x7c80d19e, 0xeefc35b5, 0xa1051895);
    LengthWord(m);
    NextStep(m, 14, 0x00000018, 0xa679438e, 17, 0x3020401c, 0xa1051895, 0xdda9b9a6, 0x5ed49596,
             0xdfd19d86, 0xb66b2148, 0xe396856b);
    ZeroWord(m, 15);
    NextStep(m, 15, 0x00000000, 0x49b40821, 22, 0x5ed49596, 0xe396856b, 0xa1051895, 0xdda9b9a6,
             0xbd2d3885, 0x65b5d63c, 0x72aff2e0);
  }

  lemma Steps16(m: Block)
    requires IsPaddedAbc(m) && Steps(H0, m, 16) == StateOf(0xdda9b9a6, 0x72aff2e0, 0xe396856b, 0xa1051895)
    ensures Steps(H0, m, 20) == StateOf(0x3e9e9126, 0xb5b204e4, 0xe25e1652, 0x4a1d804e)
  {
    hide IsPaddedAbc, Steps, StateOf, Word;
    ZeroWord(m, 1);
    NextStep(m, 16, 0x00000000, 0xf61e2562, 5, 0xdda9b9a6, 0x72aff2e0, 0xe396856b, 0xa1051895,
             0x629795ea, 0x365f74f2, 0x3e9e9126);
    ZeroWord(m, 6);
    NextStep(m, 17, 0x00000000, 0xc040b340, 9, 0xa1051895, 0x3e9e9126, 0x72aff2e0, 0xe396856b,
             0x32bff3a2, 0x9405bf77, 0x4a1d804e);
    ZeroWord(m, 11);
    NextStep(m, 18, 0x00000000, 0x265e5a51, 14, 0xe396856b, 0x4a1d804e, 0x3e9e9126, 0x72aff2e0,
             0x4e1d8146, 0x58126102, 0xe25e1652);
    FirstWord(m);
    NextStep(m, 19, 0x80636261, 0xe9b6c7aa, 20, 0x72aff2e0, 0xe25e1652, 0x4a1d804e, 0x3e9e9126,
             0x621f104a, 0x3ee92d35, 0xb5b204e4);
  }

  lemma Steps20(m: Block)
    requires IsPaddedAbc(m) && Steps(H0, m, 20) == StateOf(0x3e9e9126, 0xb5b204e4, 0xe25e1652, 0x4a1d804e)
    ensures Steps(H0, m, 24) == StateOf(0x59a8ffda, 0x47092c07, 0xabfc7920, 0x6d002f1e)
  {
    hide IsPaddedAbc, Steps, StateOf, Word;
    ZeroWord(m, 5);
    NextStep(m, 20, 0x00000000, 0xd62f105d, 5, 0x3e9e9126, 0xb5b204e4, 0xe25e1652, 0x4a1d804e,
             0xa0521654, 0xb51fb7d7, 0x59a8ffda);
    ZeroWord(m, 10);
    NextStep(m, 21, 0x00000000, 0x02441453, 9, 0x4a1d804e, 0x59a8ffda, 0xb5b204e4, 0xe25e1652,
             0x55a816f6, 0xa209ab97, 0x6d002f1e);
    ZeroWord(m, 15);
    NextStep(m, 22, 0x00000000, 0xd8a1e681, 14, 0xe25e1652, 0x6d002f1e, 0x59a8ffda, 0xb5b204e4,
             0x6d08ff1e, 0x2808fbf1, 0xabfc7920);
    ZeroWord(m, 4);
    NextStep(m, 23, 0x00000000, 0xe7d3fbc8, 20, 0xb5b204e4, 0xabfc7920, 0x6d002f1e, 0x59a8ffda,
             0x2da87904, 0xcb2e79b0, 0x47092c07);
  }

  lemma Steps24(m: Block)
    requires IsPaddedAbc(m) && Steps(H0, m, 24) == StateOf(0x59a8ffda, 0x47092c07, 0xabfc7920, 0x6d002f1e)
    ensures Steps(H0, m, 28) == StateOf(0xb7f268cf, 0x786acb8f, 0xfe1623b1, 0x09388eff)
  {
    hide IsPaddedAbc, Steps, StateOf, Word;
    ZeroWord(m, 9);
    NextStep(m, 24, 0x00000000, 0x21e1cde6, 5, 0x59a8ffda, 0x47092c07, 0xabfc7920, 0x6d002f1e,
             0xc7fc7c26, 0x438749e6, 0xb7f268cf);
    LengthWord(m);
    NextStep(m, 25, 0x00000018, 0xc33707d6, 9, 0x6d002f1e, 0xb7f268cf, 0x47092c07, 0xabfc7920,
             0xe7f16c07, 0x1828a313, 0x09388eff);
    ZeroWord(m, 3);
    NextStep(m, 26, 0x00000000, 0xf4d50d87, 14, 0xabfc7920, 0x09388eff, 0xb7f268cf, 0x47092c07,
             0xb1fa4ccf, 0x52cbd376, 0xfe1623b1);
    ZeroWord(m, 8);
    NextStep(m, 27, 0x00000000, 0x455a14ed, 20, 0x47092c07, 0xfe1623b1, 0x09388eff, 0xb7f268cf,
             0xbe1aa6b1, 0x4a7de7a5, 0x786acb8f);
  }

  lemma Steps28(m: Block)
    requires IsPaddedAbc(m) && Steps(H0, m, 28) == StateOf(0xb7f268cf, 0x786acb8f, 0xfe1623b1, 0x09388eff)
    ensures Steps(H0, m, 32) == StateOf(0x790a77fb, 0x726342d3, 0xa62884aa, 0x9f47e4f8)
  {
    hide IsPaddedAbc, Steps, StateOf, Word;
    ZeroWord(m, 13);
    NextStep(m, 28, 0x00000000, 0xa9e3e905, 5, 0xb7f268cf, 0x786acb8f, 0xfe1623b1, 0x09388eff,
             0xfe2eab8f, 0x6004fd63, 0x790a77fb);
    ZeroWord(m, 2);
    NextStep(m, 29, 0x00000000, 0xfcefa3f8, 9, 0x09388eff, 0x790a77fb, 0x786acb8f, 0xfe1623b1,
             0x786aebbf, 0x7e931eb6, 0x9f47e4f8);
    ZeroWord(m, 7);
    NextStep(m, 30, 0x00000000, 0x676f02d9, 14, 0xfe1623b1, 0x9f47e4f8, 0x790a77fb, 0x786acb8f,
             0x1942f4f8, 0x7ec81b82, 0xa62884aa);
    ZeroWord(m, 12);
    NextStep(m, 31, 0x00000000, 0x8d2a4c8a, 20, 0x786acb8f, 0xa62884aa, 0x9f47e4f8, 0x790a77fb,
             0xa64d84aa, 0xabe29cc3, 0x726342d3);
  }

  lemma Steps32(m: Block)
    requires IsPaddedAbc(m) && Steps(H0, m, 32) == StateOf(0x790a77fb, 0x726342d3, 0xa62884aa, 0x9f47e4f8)
    ensures Steps(H0, m, 36) == StateOf(0xb3707ebf, 0x3b0875c7, 0x8d212ff5, 0x60127b2e)
  {
    hide IsPaddedAbc, Steps, StateOf, Word;
    ZeroWord(m, 5);
    NextStep(m, 32, 0x00000000, 0xfffa3942, 4, 0x790a77fb, 0x726342d3, 0xa62884aa, 0x9f47e4f8,
             0x4b0c2281, 0xc410d3be, 0xb3707ebf);
    ZeroWord(m, 8);
    NextStep(m, 33, 0x00000000, 0x8771f681, 11, 0x9f47e4f8, 0xb3707ebf, 0x726342d3, 0xa62884aa,
             0x673bb8c6, 0x8df5943f, 0x60127b2e);
    ZeroWord(m, 11);
    NextStep(m, 34, 0x00000000, 0x6d9d6122, 16, 0xa62884aa, 0x60127b2e, 0xb3707ebf, 0x726342d3,
             0xa1014742, 0xb4c72d0e, 0x8d212ff5);
    LengthWord(m);
    NextStep(m, 35, 0x00000018, 0xfde5380c, 23, 0x726342d3, 0x8d212ff5, 0x60127b2e, 0xb3707ebf,
             0x5e432a64, 0xce8ba55b, 0x3b0875c7);
  }

  lemma Steps36(m: Block)
    requires IsPaddedAbc(m) && Steps(H0, m, 36) == StateOf(0xb3707ebf, 0x3b0875c7, 0x8d212ff5, 0x60127b2e)
    ensures Steps(H0, m, 40) == StateOf(0x21b117b9, 0x5a2f5ea5, 0x3575227e, 0x6e7429d5)
  {
    hide IsPaddedAbc, Steps, StateOf, Word;
    ZeroWord(m, 1);
    NextStep(m, 36, 0x00000000, 0xa4beea44, 4, 0xb3707ebf, 0x3b0875c7, 0x8d212ff5, 0x60127b2e,
             0xd63b211c, 0x2e6a8a1f, 0x21b117b9);
    ZeroWord(m, 4);
    NextStep(m, 37, 0x00000000, 0x4bdecfa9, 11, 0x60127b2e, 0x21b117b9, 0x3b0875c7, 0x8d212ff5,
             0x97984d8b, 0x43899862, 0x6e7429d5);
    ZeroWord(m, 7);
    NextStep(m, 38, 0x00000000, 0xf6bb4b60, 16, 0x8d212ff5, 0x6e7429d5, 0x21b117b9, 0x3b0875c7,
             0x74cd4bab, 0xf8a9c700, 0x3575227e);
    ZeroWord(m, 10);
    NextStep(m, 39, 0x00000000, 0xbebfbc70, 23, 0x3b0875c7, 0x3575227e, 0x6e7429d5, 0x21b117b9,
             0x7ab01c12, 0x74784e49, 0x5a2f5ea5);
  }

  lemma Steps40(m: Block)
    requires IsPaddedAbc(m) && Steps(H0, m, 40) == StateOf(0x21b117b9, 0x5a2f5ea5, 0x3575227e, 0x6e7429d5)
    ensures Steps(H0, m, 44) == StateOf(0x11de1779, 0x4c6124f4, 0x31c465ca, 0xfadcaa38)
  {
    hide IsPaddedAbc, Steps, StateOf, Word;
    ZeroWord(m, 13);
    NextStep(m, 40, 0x00000000, 0x289b7ec6, 4, 0x21b117b9, 0x5a2f5ea5, 0x3575227e, 0x6e7429d5,
             0x012e550e, 0x4b7aeb8d, 0x11de1779);
    FirstWord(m);
    NextStep(m, 41, 0x80636261, 0xeaa127fa, 11, 0x6e7429d5, 0x11de1779, 0x5a2f5ea5, 0x3575227e,
             0x7e846ba2, 0x57fd1fd2, 0xfadcaa38);
    ZeroWord(m, 3);
    NextStep(m, 42, 0x00000000, 0xd4ef3085, 16, 0x3575227e, 0xfadcaa38, 0x11de1779, 0x5a2f5ea5,
             0xb12de3e4, 0xbb9236e7, 0x31c465ca);
    ZeroWord(m, 6);
    NextStep(m, 43, 0x00000000, 0x04881d05, 23, 0x5a2f5ea5, 0x31c465ca, 0xfadcaa38, 0x11de1779,
             0xdac6d88b, 0x397e5435, 0x4c6124f4);
  }

  lemma Steps44(m: Block)
    requires IsPaddedAbc(m) && Steps(H0, m, 44) == StateOf(0x11de1779, 0x4c6124f4, 0x31c465ca, 0xfadcaa38)
    ensures Steps(H0, m, 48) == StateOf(0x7f2e507b, 0x7beb9700, 0x8fae6399, 0x99d9679d)
  {
    hide IsPaddedAbc, Steps, StateOf, Word;
    ZeroWord(m, 9);
    NextStep(m, 44, 0x00000000, 0xd9d4d039, 4, 0x11de1779, 0x4c6124f4, 0x31c465ca, 0xfadcaa38,
             0x8779eb06, 0x732cd2b8, 0x7f2e507b);
    ZeroWord(m, 12);
    NextStep(m, 45, 0x00000000, 0xe6db99e5, 11, 0xfadcaa38, 0x7f2e507b, 0x4c6124f4, 0x31c465ca,
             0x028b1145, 0xe4435562, 0x99d9679d);
    ZeroWord(m, 15);
    NextStep(m, 46, 0x00000000, 0x1fa27cf8, 16, 0x31c465ca, 0x99d9679d, 0x7f2e507b, 0x4c6124f4,
             0xaa961312, 0xfbfcf5d4, 0x8fae6399);
    ZeroWord(m, 2);
    NextStep(m, 47, 0x00000000, 0xc4ac5665, 23, 0x4c6124f4, 0x8fae6399, 0x99d9679d, 0x7f2e507b,
             0x6959547f, 0x7a66cfd8, 0x7beb9700);
  }

  lemma Steps48(m: Block)
    requires IsPaddedAbc(m) && Steps(H0, m, 48) == StateOf(0x7f2e507b, 0x7beb9700, 0x8fae6399, 0x99d9679d)
    ensures Steps(H0, m, 52) == StateOf(0x7b201df8, 0x8bf025c4, 0xb298cefd, 0xf4e8e96e)
  {
    hide IsPaddedAbc, Steps, StateOf, Word;
    FirstWord(m);
    NextStep(m, 48, 0x80636261, 0xf4292244, 6, 0x7f2e507b, 0x7beb9700, 0x8fae6399, 0x99d9679d,
             0xf041fcfb, 0xe3fcd21b, 0x7b201df8);
    ZeroWord(m, 7);
    NextStep(m, 49, 0x00000000, 0x432aff97, 10, 0x99d9679d, 0x7b201df8, 0x7beb9700, 0x8fae6399,
             0x009a0afe, 0xdd9e7232, 0xf4e8e96e);
    LengthWord(m);
    NextStep(m, 50, 0x00000018, 0xab9423a7, 15, 0x8fae6399, 0xf4e8e96e, 0x7b201df8, 0x7beb9700,
             0x8fdcf407, 0xcb1f7b5f, 0xb298cefd);
    ZeroWord(m, 5);
    NextStep(m, 51, 0x00000000, 0xfc93a039, 21, 0x7beb9700, 0xb298cefd, 0xf4e8e96e, 0x7b201df8,
             0x42370791, 0xbab63eca, 0x8bf025c4);
  }

  lemma Steps52(m: Block)
    requires IsPaddedAbc(m) && Steps(H0, m, 52) == StateOf(0x7b201df8, 0x8bf025c4, 0xb298cefd, 0xf4e8e96e)
    ensures Steps(H0, m, 56) == StateOf(0x06cc5e8a, 0x3bfa2c27, 0x7d632dd0, 0x5b0d97aa)
  {
    hide IsPaddedAbc, Steps, StateOf, Word;
    ZeroWord(m, 12);
    NextStep(m, 52, 0x00000000, 0x655b59c3, 6, 0x7b201df8, 0x8bf025c4, 0xb298cefd, 0xf4e8e96e,
             0x396ff928, 0x19eb70e3, 0x06cc5e8a);
    ZeroWord(m, 3);
    NextStep(m, 53, 0x00000000, 0x8f0ccc92, 10, 0xf4e8e96e, 0x06cc5e8a, 0x8bf025c4, 0xb298cefd,
             0xc41f5a4e, 0x4815104e, 0x5b0d97aa);
    ZeroWord(m, 10);
    NextStep(m, 54, 0x00000000, 0xffeff47d, 15, 0xb298cefd, 0x5b0d97aa, 0x06cc5e8a, 0x8bf025c4,
             0x79c38131, 0x2c4c44ab, 0x7d632dd0);
    ZeroWord(m, 1);
    NextStep(m, 55, 0x00000000, 0x85845dd1, 21, 0x8bf025c4, 0x7d632dd0, 0x5b0d97aa, 0x06cc5e8a,
             0xa67e3a5f, 0xb7f2bdf4, 0x3bfa2c27);
  }

  lemma Steps56(m: Block)
    requires IsPaddedAbc(m) && Steps(H0, m, 56) == StateOf(0x06cc5e8a, 0x3bfa2c27, 0x7d632dd0, 0x5b0d97aa)
    ensures Steps(H0, m, 60) == StateOf(0x7f81cc35, 0x7327d604, 0x4f9dbe3f, 0x094454ab)
  {
    hide IsPaddedAbc, Steps, StateOf, Word;
    ZeroWord(m, 8);
    NextStep(m, 56, 0x00000000, 0x6fa87e4f, 6, 0x06cc5e8a, 0x3bfa2c27, 0x7d632dd0, 0x5b0d97aa,
             0xc29941a7, 0x390e1e80, 0x7f81cc35);
    ZeroWord(m, 15);
    NextStep(m, 57, 0x00000000, 0xfe2ce6e0, 10, 0x5b0d97aa, 0x7f81cc35, 0x3bfa2c27, 0x7d632dd0,
             0xc467f218, 0x1da270a2, 0x094454ab);
    ZeroWord(m, 6);
    NextStep(m, 58, 0x00000000, 0xa3014314, 15, 0x7d632dd0, 0x094454ab, 0x7f81cc35, 0x3bfa2c27,
             0xb2c41bce, 0xd3288cb2, 0x4f9dbe3f);
    ZeroWord(m, 13);
    NextStep(m, 59, 0x00000000, 0x4e0811a1, 21, 0x3bfa2c27, 0x4f9dbe3f, 0x094454ab, 0x7f81cc35,
             0xc6bbeb54, 0x50be291c, 0x7327d604);
  }

  lemma Steps60(m: Block)
    requires IsPaddedAbc(m) && Steps(H0, m, 60) == StateOf(0x7f81cc35, 0x7327d604, 0x4f9dbe3f, 0x094454ab)
    ensures Steps(H0, m, 64) == StateOf(0x310ade8f, 0xc08226b3, 0xe484b9d8, 0x624d8cb2)
  {
    hide IsPaddedAbc, Steps, StateOf, Word;
    ZeroWord(m, 4);
    NextStep(m, 60, 0x00000000, 0xf7537e82, 6, 0x7f81cc35, 0x7327d604, 0x4f9dbe3f, 0x094454ab,
             0xb822416b, 0x2ef78c22, 0x310ade8f);
    ZeroWord(m, 11);
    NextStep(m, 61, 0x00000000, 0xbd3af235, 10, 0x094454ab, 0x310ade8f, 0x7327d604, 0x4f9dbe3f,
             0xc24d09cb, 0x88cc50ab, 0x624d8cb2);
    ZeroWord(m, 2);
    NextStep(m, 62, 0x00000000, 0x2ad7d2bb, 15, 0x4f9dbe3f, 0x624d8cb2, 0x310ade8f, 0x7327d604,
             0xdfd77374, 0x5a4d046e, 0xe484b9d8);
    ZeroWord(m, 9);
    NextStep(m, 63, 0x00000000, 0xeb86d391, 21, 0x7327d604, 0xe484b9d8, 0x624d8cb2, 0x310ade8f,
             0x8cb8354a, 0xeb66dedf, 0xc08226b3);
  }

  lemma FirstStep(m: Block)
    ensures Steps(H0, m, 0) == StateOf(0x67452301, 0xefcdab89, 0x98badcfe, 0x10325476)
  {
  }

  lemma CompressAbc(m: Block)
    requires IsPaddedAbc(m)
    ensures Compress(H0, m) == [0x98500190, 0xb04fd23c, 0x7d3f96d6, 0x727fe128]
  {
    hide IsPaddedAbc, Steps;
    FirstStep(m);
    Steps0(m);
    Steps4(m);
    Steps8(m);
    Steps12(m);
    Steps16(m);
    Steps20(m);
    Steps24(m);
    Steps28(m);
    Steps32(m);
    Steps36(m);
    Steps40(m);
    Steps44(m);
    Steps48(m);
    Steps52(m);
    Steps56(m);
    Steps60(m);
  }

  lemma OneBlock(b: Block)
    ensures Fold(Compress, H0, b) == Compress(H0, b)
  {
    hide Compress;
    assert Blocks(Compress, H0, b, 1) == Compress(Blocks(Compress, H0, b, 0), b[0..64]);
    assert b[0..64] == b;
  }

  lemma WordBytes(b0: byte, b1: byte, b2: byte, b3: byte)
    ensures LeBytes(BeWord(b3, b2, b1, b0), 4) == [b0, b1, b2, b3]
  {
    var w := BeWord(b3, b2, b1, b0);
    assert w / 0x100 == b3 as nat * 0x1_0000 + b2 as nat * 0x100 + b1 as nat && w % 0x100 == b0 as nat;
    assert w / 0x100 / 0x100 == b3 as nat * 0x100 + b2 as nat && w / 0x100 % 0x100 == b1 as nat;
    assert LeBytes(b3 as nat, 1) == [b3];
    assert LeBytes(w / 0x100 / 0x100, 2) == [b2, b3];
    assert LeBytes(w / 0x100, 3) == [b1, b2, b3];
  }

  lemma DigestNext(h: seq<u32>, i: nat, b0: byte, b1: byte, b2: byte, b3: byte)
    requires i < |h| && h[i] == BeWord(b3, b2, b1, b0)
    ensures Digest(h[..i + 1]) == Digest(h[..i]) + [b0, b1, b2, b3]
  {
    assert h[..i + 1][..i] == h[..i];
    WordBytes(b0, b1, b2, b3);
  }

  lemma NoDigest()
    ensures Digest([]) == []
  {
  }

  lemma DigestFour(h: seq<u32>, b: seq<byte>)
    requires |h| == 4 && |b| == 16
    requires h[0] == BeWord(b[3], b[2], b[1], b[0]) && h[1] == BeWord(b[7], b[6], b[5], b[4])
    requires h[2] == BeWord(b[11], b[10], b[9], b[8]) && h[3] == BeWord(b[15], b[14], b[13], b[12])
    ensures Digest(h) == b
  {
    hide BeWord, Digest;
    assert h[..0] == [] && h[..4] == h;
    NoDigest();
    DigestNext(h, 0, b[0], b[1], b[2], b[3]);
    DigestNext(h, 1, b[4], b[5], b[6], b[7]);
    DigestNext(h, 2, b[8], b[9], b[10], b[11]);
    DigestNext(h, 3, b[12], b[13], b[14], b[15]);
  }

  const DIGEST: seq<byte> := [
    0x90, 0x01, 0x50, 0x98, 0x3c, 0xd2, 0x4f, 0xb0, 0xd6, 0x96, 0x3f, 0x7d, 0x28, 0xe1, 0x7f, 0x72
  ]

  /** MD5 of abc is the published value. */
  lemma DigestOfAbc()
    ensures Md5(ABC) == DIGEST
  {
    hide Compress, Digest, Fold, IsPaddedAbc, LengthField, Pad;
    PadAbc();
    var b: Block := Pad(ABC, LengthField(3));
    OneBlock(b);
    CompressAbc(b);
    DigestFour(Compress(H0, b), DIGEST);
  }
}
