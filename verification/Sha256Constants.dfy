/** Where the constants of SHA-256 come from (sections 4.2.2 and 5.3.3 of FIPS 180-3). */
module Sha256Constants {
  import opened Bits
  import opened Bytes
  import opened Sha256Standard

  // ---------- Primes ----------

  predicate IsPrime(n: nat) {
    n >= 2 && forall d: nat :: 2 <= d < n ==> n % d != 0
  }

  /** p is the first prime after q. */
  predicate NextPrime(q: nat, p: nat) {
    q < p && IsPrime(p) && forall m: nat :: q < m < p ==> !IsPrime(m)
  }

  /** Some prime below 19 divides n properly. */
  predicate SmallFactor(n: nat) {
    || (n > 2 && n % 2 == 0) || (n > 3 && n % 3 == 0) || (n > 5 && n % 5 == 0) || (n > 7 && n % 7 == 0)
    || (n > 11 && n % 11 == 0) || (n > 13 && n % 13 == 0) || (n > 17 && n % 17 == 0)
  }

  /** Below 19 squared that decides primality. */
  lemma SmallFactorIff(n: nat)
    requires 2 <= n < 361
    ensures SmallFactor(n) <==> !IsPrime(n)
  {
    if !IsPrime(n) {
      var d: nat :| 2 <= d < n && n % d == 0;
      if d > 18 {
        Cofactor(n, d, 18);
        FactorOfFactor(n, n / d);
      } else {
        FactorOfFactor(n, d);
      }
    }
  }

  lemma Cofactor(n: nat, d: nat, k: nat)
    requires k < d < n < (k + 1) * (k + 1) && n % d == 0
    ensures 2 <= n / d <= k && n / d < n && n % (n / d) == 0
  {
    var q := n / d;
    assert n == q * d;
    if q >= k + 1 {
      MulMonotone(k + 1, q, d);
      MulMonotone(k + 1, d, k + 1);
    } else if q <= 1 {
      MulMonotone(q, 1, d);
    }
    DivMod(q, d, 0);
  }

  lemma FactorOfFactor(n: nat, d: nat)
    requires 2 <= d <= 18 && d < n && n % d == 0
    ensures SmallFactor(n)
  {
    if d % 2 == 0 {
      Divides(n, 2, d / 2);
    } else if d % 3 == 0 {
      Divides(n, 3, d / 3);
    } else {
      assert d == 5 || d == 7 || d == 11 || d == 13 || d == 17;
    }
  }

  lemma Divides(n: nat, a: nat, b: nat)
    requires a > 0 && b > 0 && n % (a * b) == 0
    ensures n % a == 0
  {
    var q := n / (a * b);
    assert n == a * b * q;
    assert a * b * q == b * q * a;
    DivMod(a, b * q, 0);
  }

  // ---------- The table of section 4.2.2 ----------

  /** a is the integer part and k the first 32 bits of the fraction of the cube root of p. */
  predicate CubeRoot(a: nat, k: u32, p: nat) {
    var x := a * U32_MOD + k;
    x * x * x <= p * 0x1_0000_0000_0000_0000_0000_0000 < (x + 1) * (x + 1) * (x + 1)
  }

  ghost predicate FractionOfCubeRoot(k: u32, p: nat) {
    exists a: nat :: CubeRoot(a, k, p)
  }

  /** p is the t-th prime, counted from 0. */
  ghost predicate NthPrime(t: nat, p: nat) {
    if t == 0 then NextPrime(1, p) else exists q: nat :: NthPrime(t - 1, q) && NextPrime(q, p)
  }

  ghost predicate Entry(t: nat, p: nat) {
    t < 64 && NthPrime(t, p) && FractionOfCubeRoot(K(t), p)
  }

  /** All numbers from a up to b are composite. */
  predicate Composite(a: nat, b: nat)
    decreases b - a
  {
    a >= b || (SmallFactor(a) && Composite(a + 1, b))
  }

  lemma {:induction false} CompositeIs(a: nat, b: nat)
    requires 2 <= a && b < 361 && Composite(a, b)
    ensures forall m: nat :: a <= m < b ==> !IsPrime(m)
    decreases b - a
  {
    hide IsPrime, SmallFactor;
    if a < b {
      SmallFactorIff(a);
      CompositeIs(a + 1, b);
    }
  }

  lemma Check(t: nat, q: nat, p: nat, a: nat, k: u32)
    requires t < 64 && K(t) == k && CubeRoot(a, k, p)
    requires 1 <= q < p < 361 && Composite(q + 1, p) && !SmallFactor(p)
    requires if t == 0 then q == 1 else Entry(t - 1, q)
    ensures Entry(t, p)
  {
    hide Composite, CubeRoot, IsPrime, K, NextPrime, SmallFactor;
    NextPrimeIs(q, p);
    assert CubeRoot(a, K(t), p);
  }

  lemma NextPrimeIs(q: nat, p: nat)
    requires 1 <= q < p < 361 && Composite(q + 1, p) && !SmallFactor(p)
    ensures NextPrime(q, p)
  {
    hide Composite, IsPrime, SmallFactor;
    SmallFactorIff(p);
    CompositeIs(q + 1, p);
  }

  lemma Entries0()
    ensures Entry(0, 2) && Entry(1, 3)
  {
    hide Entry;
    assert Composite(2, 2) && !SmallFactor(2);
    Check(0, 1, 2, 1, 0x428a2f98);
    assert Composite(3, 3) && !SmallFactor(3);
    Check(1, 2, 3, 1, 0x71374491);
  }

  lemma Entries2()
    ensures Entry(2, 5) && Entry(3, 7)
  {
    hide Entry;
    Entries0();
    assert Composite(4, 5) && !SmallFactor(5);
    Check(2, 3, 5, 1, 0xb5c0fbcf);
    assert Composite(6, 7) && !SmallFactor(7);
    Check(3, 5, 7, 1, 0xe9b5dba5);
  }

  lemma Entries4()
    ensures Entry(4, 11) && Entry(5, 13)
  {
    hide Entry;
    Entries2();
    assert Composite(8, 11) && !SmallFactor(11);
    Check(4, 7, 11, 2, 0x3956c25b);
    assert Composite(12, 13) && !SmallFactor(13);
    Check(5, 11, 13, 2, 0x59f111f1);
  }

  lemma Entries6()
    ensures Entry(6, 17) && Entry(7, 19)
  {
    hide Entry;
    Entries4();
    assert Composite(14, 17) && !SmallFactor(17);
    Check(6, 13, 17, 2, 0x923f82a4);
    assert Composite(18, 19) && !SmallFactor(19);
    Check(7, 17, 19, 2, 0xab1c5ed5);
  }

  lemma Entries8()
    ensures Entry(8, 23) && Entry(9, 29)
  {
    hide Entry;
    Entries6();
    assert Composite(20, 23) && !SmallFactor(23);
    Check(8, 19, 23, 2, 0xd807aa98);
    assert Composite(24, 29) && !SmallFactor(29);
    Check(9, 23, 29, 3, 0x12835b01);
  }

  lemma Entries10()
    ensures Entry(10, 31) && Entry(11, 37)
  {
    hide Entry;
    Entries8();
    assert Composite(30, 31) && !SmallFactor(31);
    Check(10, 29, 31, 3, 0x243185be);
    assert Composite(32, 37) && !SmallFactor(37);
    Check(11, 31, 37, 3, 0x550c7dc3);
  }

  lemma Entries12()
    ensures Entry(12, 41) && Entry(13, 43)
  {
    hide Entry;
    Entries10();
    assert Composite(38, 41) && !SmallFactor(41);
    Check(12, 37, 41, 3, 0x72be5d74);
    assert Composite(42, 43) && !SmallFactor(43);
    Check(13, 41, 43, 3, 0x80deb1fe);
  }

  lemma Entries14()
    ensures Entry(14, 47) && Entry(15, 53)
  {
    hide Entry;
    Entries12();
    assert Composite(44, 47) && !SmallFactor(47);
    Check(14, 43, 47, 3, 0x9bdc06a7);
    assert Composite(48, 53) && !SmallFactor(53);
    Check(15, 47, 53, 3, 0xc19bf174);
  }

  lemma Entries16()
    ensures Entry(16, 59) && Entry(17, 61)
  {
    hide Entry;
    Entries14();
    assert Composite(54, 59) && !SmallFactor(59);
    Check(16, 53, 59, 3, 0xe49b69c1);
    assert Composite(60, 61) && !SmallFactor(61);
    Check(17, 59, 61, 3, 0xefbe4786);
  }

  lemma Entries18()
    ensures Entry(18, 67) && Entry(19, 71)
  {
    hide Entry;
    Entries16();
    assert Composite(62, 67) && !SmallFactor(67);
    Check(18, 61, 67, 4, 0x0fc19dc6);
    assert Composite(68, 71) && !SmallFactor(71);
    Check(19, 67, 71, 4, 0x240ca1cc);
  }

  lemma Entries20()
    ensures Entry(20, 73) && Entry(21, 79)
  {
    hide Entry;
    Entries18();
    assert Composite(72, 73) && !SmallFactor(73);
    Check(20, 71, 73, 4, 0x2de92c6f);
    assert Composite(74, 79) && !SmallFactor(79);
    Check(21, 73, 79, 4, 0x4a7484aa);
  }

  lemma Entries22()
    ensures Entry(22, 83) && Entry(23, 89)
  {
    hide Entry;
    Entries20();
    assert Composite(80, 83) && !SmallFactor(83);
    Check(22, 79, 83, 4, 0x5cb0a9dc);
    assert Composite(84, 89) && !SmallFactor(89);
    Check(23, 83, 89, 4, 0x76f988da);
  }

  lemma Entries24()
    ensures Entry(24, 97) && Entry(25, 101)
  {
    hide Entry;
    Entries22();
    assert Composite(90, 97) && !SmallFactor(97);
    Check(24, 89, 97, 4, 0x983e5152);
    assert Composite(98, 101) && !SmallFactor(101);
    Check(25, 97, 101, 4, 0xa831c66d);
  }

  lemma Entries26()
    ensures Entry(26, 103) && Entry(27, 107)
  {
    hide Entry;
    Entries24();
    assert Composite(102, 103) && !SmallFactor(103);
    Check(26, 101, 103, 4, 0xb00327c8);
    assert Composite(104, 107) && !SmallFactor(107);
    Check(27, 103, 107, 4, 0xbf597fc7);
  }

  lemma Entries28()
    ensures Entry(28, 109) && Entry(29, 113)
  {
    hide Entry;
    Entries26();
    assert Composite(108, 109) && !SmallFactor(109);
    Check(28, 107, 109, 4, 0xc6e00bf3);
    assert Composite(110, 113) && !SmallFactor(113);
    Check(29, 109, 113, 4, 0xd5a79147);
  }

  lemma Entries30()
    ensures Entry(30, 127) && Entry(31, 131)
  {
    hide Entry;
    Entries28();
    assert Composite(114, 127) && !SmallFactor(127);
    Check(30, 113, 127, 5, 0x06ca6351);
    assert Composite(128, 131) && !SmallFactor(131);
    Check(31, 127, 131, 5, 0x14292967);
  }

  lemma Entries32()
    ensures Entry(32, 137) && Entry(33, 139)
  {
    hide Entry;
    Entries30();
    assert Composite(132, 137) && !SmallFactor(137);
    Check(32, 131, 137, 5, 0x27b70a85);
    assert Composite(138, 139) && !SmallFactor(139);
    Check(33, 137, 139, 5, 0x2e1b2138);
  }

  lemma Entries34()
    ensures Entry(34, 149) && Entry(35, 151)
  {
    hide Entry;
    Entries32();
    assert Composite(140, 149) && !SmallFactor(149);
    Check(34, 139, 149, 5, 0x4d2c6dfc);
    assert Composite(150, 151) && !SmallFactor(151);
    Check(35, 149, 151, 5, 0x53380d13);
  }

  lemma Entries36()
    ensures Entry(36, 157) && Entry(37, 163)
  {
    hide Entry;
    Entries34();
    assert Composite(152, 157) && !SmallFactor(157);
    Check(36, 151, 157, 5, 0x650a7354);
    assert Composite(158, 163) && !SmallFactor(163);
    Check(37, 157, 163, 5, 0x766a0abb);
  }

  lemma Entries38()
    ensures Entry(38, 167) && Entry(39, 173)
  {
    hide Entry;
    Entries36();
    assert Composite(164, 167) && !SmallFactor(167);
    Check(38, 163, 167, 5, 0x81c2c92e);
    assert Composite(168, 173) && !SmallFactor(173);
    Check(39, 167, 173, 5, 0x92722c85);
  }

  lemma Entries40()
    ensures Entry(40, 179) && Entry(41, 181)
  {
    hide Entry;
    Entries38();
    assert Composite(174, 179) && !SmallFactor(179);
    Check(40, 173, 179, 5, 0xa2bfe8a1);
    assert Composite(180, 181) && !SmallFactor(181);
    Check(41, 179, 181, 5, 0xa81a664b);
  }

  lemma Entries42()
    ensures Entry(42, 191) && Entry(43, 193)
  {
    hide Entry;
    Entries40();
    assert Composite(182, 191) && !SmallFactor(191);
    Check(42, 181, 191, 5, 0xc24b8b70);
    assert Composite(192, 193) && !SmallFactor(193);
    Check(43, 191, 193, 5, 0xc76c51a3);
  }

  lemma Entries44()
    ensures Entry(44, 197) && Entry(45, 199)
  {
    hide Entry;
    Entries42();
    assert Composite(194, 197) && !SmallFactor(197);
    Check(44, 193, 197, 5, 0xd192e819);
    assert Composite(198, 199) && !SmallFactor(199);
    Check(45, 197, 199, 5, 0xd6990624);
  }

  lemma Entries46()
    ensures Entry(46, 211) && Entry(47, 223)
  {
    hide Entry;
    Entries44();
    assert Composite(200, 211) && !SmallFactor(211);
    Check(46, 199, 211, 5, 0xf40e3585);
    assert Composite(212, 223) && !SmallFactor(223);
    Check(47, 211, 223, 6, 0x106aa070);
  }

  lemma Entries48()
    ensures Entry(48, 227) && Entry(49, 229)
  {
    hide Entry;
    Entries46();
    assert Composite(224, 227) && !SmallFactor(227);
    Check(48, 223, 227, 6, 0x19a4c116);
    assert Composite(228, 229) && !SmallFactor(229);
    Check(49, 227, 229, 6, 0x1e376c08);
  }

  lemma Entries50()
    ensures Entry(50, 233) && Entry(51, 239)
  {
    hide Entry;
    Entries48();
    assert Composite(230, 233) && !SmallFactor(233);
    Check(50, 229, 233, 6, 0x2748774c);
    assert Composite(234, 239) && !SmallFactor(239);
    Check(51, 233, 239, 6, 0x34b0bcb5);
  }

  lemma Entries52()
    ensures Entry(52, 241) && Entry(53, 251)
  {
    hide Entry;
    Entries50();
    assert Composite(240, 241) && !SmallFactor(241);
    Check(52, 239, 241, 6, 0x391c0cb3);
    assert Composite(242, 251) && !SmallFactor(251);
    Check(53, 241, 251, 6, 0x4ed8aa4a);
  }

  lemma Entries54()
    ensures Entry(54, 257) && Entry(55, 263)
  {
    hide Entry;
    Entries52();
    assert Composite(252, 257) && !SmallFactor(257);
    Check(54, 251, 257, 6, 0x5b9cca4f);
    assert Composite(258, 263) && !SmallFactor(263);
    Check(55, 257, 263, 6, 0x682e6ff3);
  }

  lemma Entries56()
    ensures Entry(56, 269) && Entry(57, 271)
  {
    hide Entry;
    Entries54();
    assert Composite(264, 269) && !SmallFactor(269);
    Check(56, 263, 269, 6, 0x748f82ee);
    assert Composite(270, 271) && !SmallFactor(271);
    Check(57, 269, 271, 6, 0x78a5636f);
  }

  lemma Entries58()
    ensures Entry(58, 277) && Entry(59, 281)
  {
    hide Entry;
    Entries56();
    assert Composite(272, 277) && !SmallFactor(277);
    Check(58, 271, 277, 6, 0x84c87814);
    assert Composite(278, 281) && !SmallFactor(281);
    Check(59, 277, 281, 6, 0x8cc70208);
  }

  lemma Entries60()
    ensures Entry(60, 283) && Entry(61, 293)
  {
    hide Entry;
    Entries58();
    assert Composite(282, 283) && !SmallFactor(283);
    Check(60, 281, 283, 6, 0x90befffa);
    assert Composite(284, 293) && !SmallFactor(293);
    Check(61, 283, 293, 6, 0xa4506ceb);
  }

  lemma Entries62()
    ensures Entry(62, 307) && Entry(63, 311)
  {
    hide Entry;
    Entries60();
    assert Composite(294, 307) && !SmallFactor(307);
    Check(62, 293, 307, 6, 0xbef9a3f7);
    assert Composite(308, 311) && !SmallFactor(311);
    Check(63, 307, 311, 6, 0xc67178f2);
  }

  /** Entry t of the table is the first 32 bits of the fraction of the cube root of the t-th prime. */
  lemma TableIsCubeRoots(t: nat)
    requires t < 64
    ensures exists p: nat :: NthPrime(t, p) && FractionOfCubeRoot(K(t), p)
  {
    hide FractionOfCubeRoot, K, NthPrime;
    EveryEntry(t);
  }

  lemma EveryEntry(t: nat)
    requires t < 64
    ensures exists p: nat :: Entry(t, p)
  {
    hide Entry;
    if t < 2 {
      Entries0();
    } else if t < 4 {
      Entries2();
    } else if t < 6 {
      Entries4();
    } else if t < 8 {
      Entries6();
    } else if t < 10 {
      Entries8();
    } else if t < 12 {
      Entries10();
    } else if t < 14 {
      Entries12();
    } else if t < 16 {
      Entries14();
    } else if t < 18 {
      Entries16();
    } else if t < 20 {
      Entries18();
    } else if t < 22 {
      Entries20();
    } else if t < 24 {
      Entries22();
    } else if t < 26 {
      Entries24();
    } else if t < 28 {
      Entries26();
    } else if t < 30 {
      Entries28();
    } else if t < 32 {
      Entries30();
    } else if t < 34 {
      Entries32();
    } else if t < 36 {
      Entries34();
    } else if t < 38 {
      Entries36();
    } else if t < 40 {
      Entries38();
    } else if t < 42 {
      Entries40();
    } else if t < 44 {
      Entries42();
    } else if t < 46 {
      Entries44();
    } else if t < 48 {
      Entries46();
    } else if t < 50 {
      Entries48();
    } else if t < 52 {
      Entries50();
    } else if t < 54 {
      Entries52();
    } else if t < 56 {
      Entries54();
    } else if t < 58 {
      Entries56();
    } else if t < 60 {
      Entries58();
    } else if t < 62 {
      Entries60();
    } else {
      Entries62();
    }
  }

  // ---------- The initial value of section 5.3.3 ----------

  /** a is the integer part and k the first 32 bits of the fraction of the square root of p. */
  predicate SquareRoot(a: nat, k: u32, p: nat) {
    var x := a * U32_MOD + k;
    x * x <= p * 0x1_0000_0000_0000_0000 < (x + 1) * (x + 1)
  }

  ghost predicate FractionOfSquareRoot(k: u32, p: nat) {
    exists a: nat :: SquareRoot(a, k, p)
  }

  /** Word t of the initial value belongs to the prime p. */
  ghost predicate InitialWord(t: nat, p: nat) {
    t < 8 && NthPrime(t, p) && FractionOfSquareRoot(H0[t], p)
  }

  lemma CheckInitial(t: nat, p: nat, a: nat)
    requires t < 8 && Entry(t, p) && SquareRoot(a, H0[t], p)
    ensures InitialWord(t, p)
  {
    hide FractionOfCubeRoot, K, NthPrime, SquareRoot;
  }

  lemma FirstWords()
    ensures InitialWord(0, 2) && InitialWord(1, 3) && InitialWord(2, 5) && InitialWord(3, 7)
  {
    hide Entry, InitialWord;
    Entries0();
    Entries2();
    CheckInitial(0, 2, 1);
    CheckInitial(1, 3, 1);
    CheckInitial(2, 5, 2);
    CheckInitial(3, 7, 2);
  }

  lemma LastWords()
    ensures InitialWord(4, 11) && InitialWord(5, 13) && InitialWord(6, 17) && InitialWord(7, 19)
  {
    hide Entry, InitialWord;
    Entries4();
    Entries6();
    CheckInitial(4, 11, 3);
    CheckInitial(5, 13, 3);
    CheckInitial(6, 17, 4);
    CheckInitial(7, 19, 4);
  }

  /** Word t of the initial value is the first 32 bits of the fraction of the square root of the t-th prime. */
  lemma InitialValueIsSquareRoots(t: nat)
    requires t < 8
    ensures exists p: nat :: NthPrime(t, p) && FractionOfSquareRoot(H0[t], p)
  {
    hide FractionOfSquareRoot, NthPrime;
    FirstWords();
    LastWords();
    assert exists p: nat :: InitialWord(t, p);
  }
}
