/** MD5 as section 3 of RFC 1321 defines it, its 64 steps written uniformly. */
module Md5Standard {
  import opened Bytes
  import opened MerkleDamgard
  import opened Words

  type Hash = h: seq<u32> | |h| == 4 witness seq(4, _ => 0)

  function RotlBits(x: bv32, n: bv6): bv32
    requires 0 < n < 32
  {
    (x << n) | (x >> (32 - n))
  }

  function Rotl(x: u32, n: bv6): u32
    requires 0 < n < 32
  {
    RotlBits(x as bv32, n) as u32
  }

  function FBits(a: bv32, b: bv32, c: bv32): bv32 { (a & b) | (!a & c) }

  function F(x: u32, y: u32, z: u32): u32 {
    FBits(x as bv32, y as bv32, z as bv32) as u32
  }

  function GBits(a: bv32, b: bv32, c: bv32): bv32 { (a & c) | (b & !c) }

  function G(x: u32, y: u32, z: u32): u32 {
    GBits(x as bv32, y as bv32, z as bv32) as u32
  }

  function HBits(a: bv32, b: bv32, c: bv32): bv32 { a ^ b ^ c }

  function H(x: u32, y: u32, z: u32): u32 {
    HBits(x as bv32, y as bv32, z as bv32) as u32
  }

  function IBits(a: bv32, b: bv32, c: bv32): bv32 { b ^ (a | !c) }

  function I(x: u32, y: u32, z: u32): u32 {
    IBits(x as bv32, y as bv32, z as bv32) as u32
  }

  const T0: seq<u32> := [
    0xd76aa478, 0xe8c7b756, 0x242070db, 0xc1bdceee, 0xf57c0faf, 0x4787c62a, 0xa8304613, 0xfd469501
  ]
  const T1: seq<u32> := [
    0x698098d8, 0x8b44f7af, 0xffff5bb1, 0x895cd7be, 0x6b901122, 0xfd987193, 0xa679438e, 0x49b40821
  ]
  const T2: seq<u32> := [
    0xf61e2562, 0xc040b340, 0x265e5a51, 0xe9b6c7aa, 0xd62f105d, 0x02441453, 0xd8a1e681, 0xe7d3fbc8
  ]
  const T3: seq<u32> := [
    0x21e1cde6, 0xc33707d6, 0xf4d50d87, 0x455a14ed, 0xa9e3e905, 0xfcefa3f8, 0x676f02d9, 0x8d2a4c8a
  ]
  const T4: seq<u32> := [
    0xfffa3942, 0x8771f681, 0x6d9d6122, 0xfde5380c, 0xa4beea44, 0x4bdecfa9, 0xf6bb4b60, 0xbebfbc70
  ]
  const T5: seq<u32> := [
    0x289b7ec6, 0xeaa127fa, 0xd4ef3085, 0x04881d05, 0xd9d4d039, 0xe6db99e5, 0x1fa27cf8, 0xc4ac5665
  ]
  const T6: seq<u32> := [
    0xf4292244, 0x432aff97, 0xab9423a7, 0xfc93a039, 0x655b59c3, 0x8f0ccc92, 0xffeff47d, 0x85845dd1
  ]
  const T7: seq<u32> := [
    0x6fa87e4f, 0xfe2ce6e0, 0xa3014314, 0x4e0811a1, 0xf7537e82, 0xbd3af235, 0x2ad7d2bb, 0xeb86d391
  ]

  /** Entry i of the table of section 3.4. */
  function T(i: nat): u32
    requires i < 64
  {
    if i < 8 then T0[i] else if i < 16 then T1[i - 8] else if i < 24 then T2[i - 16] else if i < 32 then T3[i - 24]
    else if i < 40 then T4[i - 32] else if i < 48 then T5[i - 40] else if i < 56 then T6[i - 48] else T7[i - 56]
  }

  const H0: Hash := [0x67452301, 0xefcdab89, 0x98badcfe, 0x10325476]

  /** The i-th little-endian word of a block. */
  function Word(b: Block, i: nat): u32
    requires i < 16
  {
    BeWord(b[4 * i + 3], b[4 * i + 2], b[4 * i + 1], b[4 * i])
  }

  /** The auxiliary function of step i. */
  function Aux(i: nat, x: u32, y: u32, z: u32): u32 {
    if i < 16 then F(x, y, z) else if i < 32 then G(x, y, z) else if i < 48 then H(x, y, z) else I(x, y, z)
  }

  /** The word of the block that step i uses. */
  function Index(i: nat): (k: nat)
    ensures k < 16
  {
    if i < 16 then i else if i < 32 then (5 * i + 1) % 16 else if i < 48 then (3 * i + 5) % 16 else 7 * i % 16
  }

  /** The rotation amount of step i. */
  function Amount(i: nat): (s: bv6)
    ensures 0 < s < 32
  {
    if i < 16 then Pick(i % 4, 7, 12, 17, 22)
    else if i < 32 then Pick(i % 4, 5, 9, 14, 20)
    else if i < 48 then Pick(i % 4, 4, 11, 16, 23)
    else Pick(i % 4, 6, 10, 15, 21)
  }

  function Pick(k: nat, s0: bv6, s1: bv6, s2: bv6, s3: bv6): bv6 {
    if k == 0 then s0 else if k == 1 then s1 else if k == 2 then s2 else s3
  }

  datatype Vars = Vars(a: u32, b: u32, c: u32, d: u32)

  /** One step: the first variable is replaced and the four move round. */
  function Step(v: Vars, i: nat, x: u32, t: u32): Vars {
    var sum := (v.a + Aux(i, v.b, v.c, v.d) + x + t) % U32_MOD;
    Vars(v.d, (v.b + Rotl(sum, Amount(i))) % U32_MOD, v.b, v.c)
  }

  function Steps(h: Hash, b: Block, i: nat): Vars
    requires i <= 64
  {
    if i == 0 then Vars(h[0], h[1], h[2], h[3])
    else Step(Steps(h, b, i - 1), i - 1, Word(b, Index(i - 1)), T(i - 1))
  }

  function AddVars(h: Hash, v: Vars): Hash {
    [(h[0] + v.a) % U32_MOD, (h[1] + v.b) % U32_MOD, (h[2] + v.c) % U32_MOD, (h[3] + v.d) % U32_MOD]
  }

  function Compress(h: Hash, b: Block): Hash {
    AddVars(h, Steps(h, b, 64))
  }

  function Digest(h: seq<u32>): (r: seq<byte>)
    ensures |r| == 4 * |h|
  {
    if h == [] then [] else Digest(h[..|h| - 1]) + LeBytes(h[|h| - 1], 4)
  }

  /** The low 64 bits of the message length in bits, little-endian. */
  function LengthField(n: nat): (r: seq<byte>)
    ensures |r| == 8
  {
    LeBytes(Counter(8 * n), 8)
  }

  function Md5(m: seq<byte>): (r: seq<byte>)
    ensures |r| == 16
  {
    Digest(Fold(Compress, H0, Pad(m, LengthField(|m|))))
  }
}

/** The streaming implementation (src/utils/crypt_md5.c). */
module Md5Impl {
  import opened Bits
  import opened Bytes
  import opened MerkleDamgard
  import opened Md5Standard
  import opened Strings
  import opened Words

  lemma MuxForms(a: bv32, b: bv32, c: bv32)
    ensures c ^ (a & (b ^ c)) == (a & b) | (!a & c)
    ensures b ^ (c & (b ^ a)) == (a & c) | (b & !c)
  {
  }

  function FMuxBits(a: bv32, b: bv32, c: bv32): bv32 { c ^ (a & (b ^ c)) }

  function GMuxBits(a: bv32, b: bv32, c: bv32): bv32 { b ^ (c & (b ^ a)) }

  lemma SameBits(a: bv32, b: bv32, c: bv32)
    ensures FMuxBits(a, b, c) == FBits(a, b, c) && GMuxBits(a, b, c) == GBits(a, b, c)
  {
    MuxForms(a, b, c);
  }

  function FMux(x: u32, y: u32, z: u32): (r: u32)
    ensures r == F(x, y, z)
  {
    hide FBits, FMuxBits, GBits, GMuxBits;
    SameBits(x as bv32, y as bv32, z as bv32);
    FMuxBits(x as bv32, y as bv32, z as bv32) as u32
  }

  function GMux(x: u32, y: u32, z: u32): (r: u32)
    ensures r == G(x, y, z)
  {
    hide FBits, FMuxBits, GBits, GMuxBits;
    SameBits(x as bv32, y as bv32, z as bv32);
    GMuxBits(x as bv32, y as bv32, z as bv32) as u32
  }

  function FF(a: u32, b: u32, c: u32, d: u32, w: u32, s: bv6, t: u32): u32
    requires 0 < s < 32
  {
    (Rotl((a + (FMux(b, c, d) + w + t)) % U32_MOD, s) + b) % U32_MOD
  }

  function GG(a: u32, b: u32, c: u32, d: u32, w: u32, s: bv6, t: u32): u32
    requires 0 < s < 32
  {
    (Rotl((a + (GMux(b, c, d) + w + t)) % U32_MOD, s) + b) % U32_MOD
  }

  function HH(a: u32, b: u32, c: u32, d: u32, w: u32, s: bv6, t: u32): u32
    requires 0 < s < 32
  {
    (Rotl((a + (H(b, c, d) + w + t)) % U32_MOD, s) + b) % U32_MOD
  }

  function II(a: u32, b: u32, c: u32, d: u32, w: u32, s: bv6, t: u32): u32
    requires 0 < s < 32
  {
    (Rotl((a + (I(b, c, d) + w + t)) % U32_MOD, s) + b) % U32_MOD
  }

  method LoadLittleEndian(p: array<byte>, at: nat) returns (w: nat)
    requires at + 4 <= p.Length
    ensures w == BeWord(p[at + 3], p[at + 2], p[at + 1], p[at])
  {
    OrOfBytesUp(p[at + 3], p[at + 2], p[at + 1], p[at]);
    w := p[at] as nat;
    w := Or(w, p[at + 1] as nat * 0x100);
    w := Or(w, p[at + 2] as nat * 0x1_0000);
    w := Or(w, p[at + 3] as nat * 0x100_0000);
  }

  lemma WordOfBlock(p: seq<byte>, at: nat, i: nat)
    requires at + 64 <= |p| && i < 16
    ensures var k := at + 4 * i; Word(p[at..at + 64], i) == BeWord(p[k + 3], p[k + 2], p[k + 1], p[k])
  {
    hide BeWord;
  }

  method LoadWords(p: array<byte>, at: nat) returns (w: array<u32>)
    requires at + 64 <= p.Length
    ensures fresh(w) && w.Length == 16
    ensures forall k :: 0 <= k < 16 ==> w[k] == Word(p[at..at + 64], k)
  {
    hide BeWord, Word;
    w := new u32[16];
    for i := 0 to 16
      invariant forall k :: 0 <= k < i ==> w[k] == Word(p[at..at + 64], k)
    {
      WordOfBlock(p[..], at, i);
      w[i] := LoadLittleEndian(p, at + 4 * i);
    }
  }

  /** The indices of the second, third and fourth loop. */
  function IndexG(i: nat): (k: nat)
    ensures k < 16
  {
    (5 * i + 1) % 16
  }

  function IndexH(i: nat): (k: nat)
    ensures k < 16
  {
    (3 * i + 5) % 16
  }

  function IndexI(i: nat): (k: nat)
    ensures k < 16
  {
    7 * i % 16
  }

  lemma StepsNext(h0: Hash, block: Block, i: nat)
    requires i < 64
    ensures Steps(h0, block, i + 1) == Step(Steps(h0, block, i), i, Word(block, Index(i)), T(i))
  {
  }

  /** The rotation amounts of four steps. */
  lemma Amounts(i: nat)
    requires i % 4 == 0 && i < 64
    ensures Amount(i) == if i < 16 then 7 else if i < 32 then 5 else if i < 48 then 4 else 6
    ensures Amount(i + 1) == if i < 16 then 12 else if i < 32 then 9 else if i < 48 then 11 else 10
    ensures Amount(i + 2) == if i < 16 then 17 else if i < 32 then 14 else if i < 48 then 16 else 15
    ensures Amount(i + 3) == if i < 16 then 22 else if i < 32 then 20 else if i < 48 then 23 else 21
    ensures i < 16 ==> i + 4 <= 16
    ensures i < 32 ==> i + 4 <= 32
    ensures i < 48 ==> i + 4 <= 48
    ensures (i + 4) % 4 == 0
  {
    assert (i + 1) % 4 == 1 && (i + 2) % 4 == 2 && (i + 3) % 4 == 3;
  }

  /** Steps 0 to 15, four a turn. */
  method RoundF(w: array<u32>, v: Vars, ghost h0: Hash, ghost block: Block) returns (r: Vars)
    requires w.Length == 16 && forall k :: 0 <= k < 16 ==> w[k] == Word(block, k)
    requires v == Steps(h0, block, 0)
    ensures r == Steps(h0, block, 16)
  {
    hide Amount, Steps, FF, T, Word;
    var Vars(a, b, c, d) := v;
    var i: nat := 0;
    while i < 16
      invariant 0 <= i <= 16 && i % 4 == 0 && Vars(a, b, c, d) == Steps(h0, block, i)
    {
      Amounts(i);
      NextF(h0, block, i, Vars(a, b, c, d), 7);
      a := FF(a, b, c, d, w[i], 7, T(i));
      i := i + 1;
      NextF(h0, block, i, Vars(d, a, b, c), 12);
      d := FF(d, a, b, c, w[i], 12, T(i));
      i := i + 1;
      NextF(h0, block, i, Vars(c, d, a, b), 17);
      c := FF(c, d, a, b, w[i], 17, T(i));
      i := i + 1;
      NextF(h0, block, i, Vars(b, c, d, a), 22);
      b := FF(b, c, d, a, w[i], 22, T(i));
      i := i + 1;
    }
    r := Vars(a, b, c, d);
  }

  lemma NextF(h0: Hash, block: Block, i: nat, v: Vars, s: bv6)
    requires 0 <= i < 16 && v == Steps(h0, block, i) && s == Amount(i)
    ensures Steps(h0, block, i + 1)
         == Vars(v.d, FF(v.a, v.b, v.c, v.d, Word(block, i), s, T(i)), v.b, v.c)
  {
    hide Amount, Steps, T, F, FMux, Rotl, Word;
    StepsNext(h0, block, i);
  }

  /** Steps 16 to 31, four a turn. */
  method RoundG(w: array<u32>, v: Vars, ghost h0: Hash, ghost block: Block) returns (r: Vars)
    requires w.Length == 16 && forall k :: 0 <= k < 16 ==> w[k] == Word(block, k)
    requires v == Steps(h0, block, 16)
    ensures r == Steps(h0, block, 32)
  {
    hide Amount, IndexG, Steps, GG, T, Word;
    var Vars(a, b, c, d) := v;
    var i: nat := 16;
    while i < 32
      invariant 16 <= i <= 32 && i % 4 == 0 && Vars(a, b, c, d) == Steps(h0, block, i)
    {
      Amounts(i);
      NextG(h0, block, i, Vars(a, b, c, d), 5);
      a := GG(a, b, c, d, w[IndexG(i)], 5, T(i));
      i := i + 1;
      NextG(h0, block, i, Vars(d, a, b, c), 9);
      d := GG(d, a, b, c, w[IndexG(i)], 9, T(i));
      i := i + 1;
      NextG(h0, block, i, Vars(c, d, a, b), 14);
      c := GG(c, d, a, b, w[IndexG(i)], 14, T(i));
      i := i + 1;
      NextG(h0, block, i, Vars(b, c, d, a), 20);
      b := GG(b, c, d, a, w[IndexG(i)], 20, T(i));
      i := i + 1;
    }
    r := Vars(a, b, c, d);
  }

  lemma NextG(h0: Hash, block: Block, i: nat, v: Vars, s: bv6)
    requires 16 <= i < 32 && v == Steps(h0, block, i) && s == Amount(i)
    ensures Steps(h0, block, i + 1)
         == Vars(v.d, GG(v.a, v.b, v.c, v.d, Word(block, IndexG(i)), s, T(i)), v.b, v.c)
  {
    hide Amount, Steps, T, G, GMux, Rotl, Word;
    StepsNext(h0, block, i);
  }

  /** Steps 32 to 47, four a turn. */
  method RoundH(w: array<u32>, v: Vars, ghost h0: Hash, ghost block: Block) returns (r: Vars)
    requires w.Length == 16 && forall k :: 0 <= k < 16 ==> w[k] == Word(block, k)
    requires v == Steps(h0, block, 32)
    ensures r == Steps(h0, block, 48)
  {
    hide Amount, IndexH, Steps, HH, T, Word;
    var Vars(a, b, c, d) := v;
    var i: nat := 32;
    while i < 48
      invariant 32 <= i <= 48 && i % 4 == 0 && Vars(a, b, c, d) == Steps(h0, block, i)
    {
      Amounts(i);
      NextH(h0, block, i, Vars(a, b, c, d), 4);
      a := HH(a, b, c, d, w[IndexH(i)], 4, T(i));
      i := i + 1;
      NextH(h0, block, i, Vars(d, a, b, c), 11);
      d := HH(d, a, b, c, w[IndexH(i)], 11, T(i));
      i := i + 1;
      NextH(h0, block, i, Vars(c, d, a, b), 16);
      c := HH(c, d, a, b, w[IndexH(i)], 16, T(i));
      i := i + 1;
      NextH(h0, block, i, Vars(b, c, d, a), 23);
      b := HH(b, c, d, a, w[IndexH(i)], 23, T(i));
      i := i + 1;
    }
    r := Vars(a, b, c, d);
  }

  lemma NextH(h0: Hash, block: Block, i: nat, v: Vars, s: bv6)
    requires 32 <= i < 48 && v == Steps(h0, block, i) && s == Amount(i)
    ensures Steps(h0, block, i + 1)
         == Vars(v.d, HH(v.a, v.b, v.c, v.d, Word(block, IndexH(i)), s, T(i)), v.b, v.c)
  {
    hide Amount, Steps, T, H, Rotl, Word;
    StepsNext(h0, block, i);
  }

  /** Steps 48 to 63, four a turn. */
  method RoundI(w: array<u32>, v: Vars, ghost h0: Hash, ghost block: Block) returns (r: Vars)
    requires w.Length == 16 && forall k :: 0 <= k < 16 ==> w[k] == Word(block, k)
    requires v == Steps(h0, block, 48)
    ensures r == Steps(h0, block, 64)
  {
    hide Amount, IndexI, Steps, II, T, Word;
    var Vars(a, b, c, d) := v;
    var i: nat := 48;
    while i < 64
      invariant 48 <= i <= 64 && i % 4 == 0 && Vars(a, b, c, d) == Steps(h0, block, i)
    {
      Amounts(i);
      NextI(h0, block, i, Vars(a, b, c, d), 6);
      a := II(a, b, c, d, w[IndexI(i)], 6, T(i));
      i := i + 1;
      NextI(h0, block, i, Vars(d, a, b, c), 10);
      d := II(d, a, b, c, w[IndexI(i)], 10, T(i));
      i := i + 1;
      NextI(h0, block, i, Vars(c, d, a, b), 15);
      c := II(c, d, a, b, w[IndexI(i)], 15, T(i));
      i := i + 1;
      NextI(h0, block, i, Vars(b, c, d, a), 21);
      b := II(b, c, d, a, w[IndexI(i)], 21, T(i));
      i := i + 1;
    }
    r := Vars(a, b, c, d);
  }

  lemma NextI(h0: Hash, block: Block, i: nat, v: Vars, s: bv6)
    requires 48 <= i < 64 && v == Steps(h0, block, i) && s == Amount(i)
    ensures Steps(h0, block, i + 1)
         == Vars(v.d, II(v.a, v.b, v.c, v.d, Word(block, IndexI(i)), s, T(i)), v.b, v.c)
  {
    hide Amount, Steps, T, I, Rotl, Word;
    StepsNext(h0, block, i);
  }

  lemma StepsZero(h0: Hash, block: Block)
    ensures Steps(h0, block, 0) == Vars(h0[0], h0[1], h0[2], h0[3])
  {
  }

  /** The four rounds. The variables change roles instead of moving round. */
  method Scramble(hash: array<u32>, w: array<u32>, ghost block: Block) returns (v: Vars)
    requires hash.Length == 4 && w.Length == 16
    requires forall k :: 0 <= k < 16 ==> w[k] == Word(block, k)
    ensures v == Steps(hash[..], block, 64)
  {
    hide Word, Steps;
    StepsZero(hash[..], block);
    v := Vars(hash[0], hash[1], hash[2], hash[3]);
    v := RoundF(w, v, hash[..], block);
    v := RoundG(w, v, hash[..], block);
    v := RoundH(w, v, hash[..], block);
    v := RoundI(w, v, hash[..], block);
  }

  /** The working variables added to the chaining state. */
  method AddInto(h: array<u32>, v: Vars)
    requires h.Length == 4
    modifies h
    ensures h[..] == AddVars(old(h[..]), v)
  {
    h[0] := (h[0] + v.a) % U32_MOD;
    h[1] := (h[1] + v.b) % U32_MOD;
    h[2] := (h[2] + v.c) % U32_MOD;
    h[3] := (h[3] + v.d) % U32_MOD;
  }

  method StoreLittleEndian32(a: array<byte>, at: nat, w: u32)
    requires at + 4 <= a.Length
    modifies a
    ensures a[..] == Overwrite(old(a[..]), at, LeBytes(w, 4))
  {
    forall k | 0 <= k < 4
      ensures LeBytes(w, 4)[k] == Byte(ShiftBytes(w, k))
    {
      LeBytesAt(w, 4, k);
    }
    ShiftsOfU64(w);
    a[at] := Byte(w);
    a[at + 1] := Byte(w / 0x100);
    a[at + 2] := Byte(w / 0x1_0000);
    a[at + 3] := Byte(w / 0x100_0000);
  }

  method StoreLittleEndian64(a: array<byte>, at: nat, w: nat)
    requires at + 8 <= a.Length
    modifies a
    ensures a[..] == Overwrite(old(a[..]), at, LeBytes(w, 8))
  {
    forall k | 0 <= k < 8
      ensures LeBytes(w, 8)[k] == Byte(ShiftBytes(w, k))
    {
      LeBytesAt(w, 8, k);
    }
    ShiftsOfU64(w);
    a[at] := Byte(w);
    a[at + 1] := Byte(w / 0x100);
    a[at + 2] := Byte(w / 0x1_0000);
    a[at + 3] := Byte(w / 0x100_0000);
    a[at + 4] := Byte(w / 0x1_0000_0000);
    a[at + 5] := Byte(w / 0x100_0000_0000);
    a[at + 6] := Byte(w / 0x1_0000_0000_0000);
    a[at + 7] := Byte(w / 0x100_0000_0000_0000);
  }

  lemma DigestStart(md: seq<byte>)
    ensures Overwrite(md, 0, Digest([])) == md
  {
  }

  lemma DigestNext(hash: seq<u32>, i: nat)
    requires i < |hash|
    ensures Digest(hash[..i + 1]) == Digest(hash[..i]) + LeBytes(hash[i], 4)
  {
    assert hash[..i + 1][..i] == hash[..i];
  }

  /** The length field comes out of the counter, even if that has wrapped. */
  lemma FieldOfCounter(n: nat)
    ensures LeBytes(Counter(8 * Counter(n)), 8) == LengthField(n)
  {
    CounterBits(n);
  }

  class Md5State {
    var len: nat
    const h: array<u32>
    const buf: array<byte>

    ghost predicate Valid()
      reads this
    {
      len < U64_MOD && h.Length == 4 && buf.Length == 64
    }

    /** What the state stands for: the message msg has been taken in. */
    ghost predicate Absorbed(msg: seq<byte>)
      reads this, h, buf
    {
      && Valid()
      && len == Counter(|msg|)
      && h[..] == Fold(Compress, H0, msg)
      && buf[..|msg| % 64] == Tail(msg)
    }

    /** Memory for a state: nothing is known about its contents. */
    constructor ()
      ensures Valid() && fresh(h) && fresh(buf)
    {
      len := *;
      h := new u32[4];
      buf := new byte[64];
      new;
      len := len % U64_MOD;
    }

    method Init()
      requires Valid()
      modifies this, h
      ensures Absorbed([])
    {
      len := 0;
      h[0] := 0x67452301;
      h[1] := 0xefcdab89;
      h[2] := 0x98badcfe;
      h[3] := 0x10325476;
    }

    method ProcessBlock(p: array<byte>, at: nat)
      requires Valid() && at + 64 <= p.Length
      modifies h
      ensures h[..] == Compress(old(h[..]), p[at..at + 64])
    {
      ghost var block: Block := p[at..at + 64];
      var w := LoadWords(p, at);
      var v := Scramble(h, w, block);
      AddInto(h, v);
    }

    /** Takes in the n0 bytes of m from position at on, whatever the chunk boundaries were before. */
    method Update(m: array<byte>, at: nat, n0: nat, ghost msg: seq<byte>)
      requires Absorbed(msg) && at + n0 <= m.Length && n0 < WORD_MOD && m != buf
      modifies this, h, buf
      ensures Absorbed(msg + m[at..at + n0])
    {
      hide Compress, Counter, Fold, Overwrite, Tail;
      CounterStep(|msg|, n0);
      CounterLow(|msg|);
      var r: nat, n: nat, p: nat := len % 64, n0, at;
      ghost var seen, was := msg, buf[..];
      len := Counter(len + n);
      if r != 0 {
        if n < 64 - r {
          Copy(buf, r, m, p, n);
          BufferShort(Compress, H0, msg, was, m[p..p + n]);
          return;
        }
        Copy(buf, r, m, p, 64 - r);
        BufferFull(Compress, H0, msg, was, m[p..p + (64 - r)]);
        seen := msg + m[p..p + (64 - r)];
        p, n := p + (64 - r), n - (64 - r);
        assert buf[0..64] == buf[..];
        ProcessBlock(buf, 0);
      }
      assert |seen| + n == |msg| + n0;
      UpdateAligned(m, p, n, seen);
      assert seen + m[p..p + n] == msg + m[at..at + n0];
    }

    /** The rest of an update, once the data seen so far fill whole blocks. */
    method UpdateAligned(m: array<byte>, p0: nat, n0: nat, ghost seen: seq<byte>)
      requires Valid() && p0 + n0 <= m.Length && m != buf
      requires Whole(|seen|) && h[..] == Fold(Compress, H0, seen) && len == Counter(|seen| + n0)
      modifies h, buf
      ensures Absorbed(seen + m[p0..p0 + n0])
    {
      hide Compress, Counter, Fold, Overwrite, Tail, Whole;
      var p, n := UpdateBlocks(m, p0, n0, seen);
      BufferRest(Compress, H0, seen, m[..], p0, p, n, buf[..]);
      Copy(buf, 0, m, p, n);
    }

    /** Compresses whole blocks straight from the data. */
    method UpdateBlocks(m: array<byte>, p0: nat, n0: nat, ghost seen: seq<byte>) returns (p: nat, n: nat)
      requires Valid() && p0 + n0 <= m.Length
      requires Whole(|seen|) && h[..] == Fold(Compress, H0, seen)
      modifies h
      ensures p0 <= p && p + n == p0 + n0 && n < 64 && Whole(|seen| + p - p0)
      ensures h[..] == Fold(Compress, H0, seen + m[p0..p])
    {
      hide Compress, Fold, Whole;
      p, n := p0, n0;
      assert seen + m[p0..p0] == seen && |seen| + p0 - p0 == |seen|;
      while n >= 64
        invariant p0 <= p && p + n == p0 + n0 && Whole(|seen| + p - p0)
        invariant h[..] == Fold(Compress, H0, seen + m[p0..p])
      {
        ProcessBlock(m, p);
        FoldNext(Compress, H0, seen, m[..], p0, p);
        p, n := p + 64, n - 64;
      }
    }

    /** The first half of pad: the bit 1, and a block of its own if the length does not fit behind it. */
    method StartPadding(ghost msg: seq<byte>) returns (r: nat)
      requires Absorbed(msg)
      modifies h, buf
      ensures |Tail(msg)| < 56 ==>
        && r == |Tail(msg)| + 1 && h[..] == old(h[..]) && buf[..] == old(buf[..])[|Tail(msg)| := 0x80]
      ensures |Tail(msg)| >= 56 ==>
        && r == 0
        && h[..] == Compress(Fold(Compress, H0, msg), Tail(msg) + ([0x80] + Repeat(0, 63 - |Tail(msg)|)))
    {
      hide Compress, Counter, Fold, Overwrite, Repeat, Tail;
      ghost var was := buf[..];
      CounterLow(|msg|);
      r := len % 64;
      buf[r] := 0x80;
      r := r + 1;
      if r > 56 {
        Fill(buf, r, 0, 64 - r);
        BufferEnds(was, Tail(msg));
        r := 0;
        assert buf[0..64] == buf[..];
        ProcessBlock(buf, 0);
      }
    }

    /** Feeds the compression function the last one or two blocks of the padded message. */
    method PadMessage(ghost msg: seq<byte>)
      requires Absorbed(msg)
      modifies this, h, buf
      ensures Valid() && h[..] == Fold(Compress, H0, Pad(msg, LengthField(|msg|)))
    {
      hide Compress, Counter, Fold, LengthField, Overwrite, Pad, Repeat, Tail;
      ghost var field, was := LengthField(|msg|), buf[..];
      var r := StartPadding(msg);
      if |Tail(msg)| >= 56 {
        BufferIsLength(buf[..], field);
        FoldPadTwo(Compress, H0, msg, field);
      } else {
        BufferEndsWithLength(was, Tail(msg), field);
        FoldPadOne(Compress, H0, msg, field);
      }
      Fill(buf, r, 0, 56 - r);
      FieldOfCounter(|msg|);
      len := Counter(8 * len);
      StoreLittleEndian64(buf, 56, len);
      assert buf[0..64] == buf[..];
      ProcessBlock(buf, 0);
    }

    /** Writes the digest of the message taken in. */
    method Sum(md: array<byte>, ghost msg: seq<byte>)
      requires Absorbed(msg) && md.Length >= 16 && md != buf
      modifies this, h, buf, md
      ensures md[..] == Overwrite(old(md[..]), 0, Md5(msg))
    {
      hide Compress, Digest, Fold, LeBytes, Overwrite, Pad;
      PadMessage(msg);
      ghost var was, hash := md[..], h[..];
      DigestStart(was);
      for i := 0 to 4
        invariant Valid() && h[..] == hash
        invariant md[..] == Overwrite(was, 0, Digest(hash[..i]))
      {
        DigestNext(hash, i);
        OverwriteTwice(was, 0, Digest(hash[..i]), LeBytes(hash[i], 4));
        StoreLittleEndian32(md, 4 * i, h[i]);
      }
      assert hash[..4] == hash;
    }
  }
}
