/** SHA-256 as section 6.2 of FIPS 180-3 defines it. */
module Sha256Standard {
  import opened Bytes
  import opened MerkleDamgard
  import opened Words

  type Hash = h: seq<u32> | |h| == 8 witness seq(8, _ => 0)

  /** Rotation to the right by n places (section 3.2). */
  function Rotr(x: bv32, n: bv6): bv32
    requires 0 < n < 32
  {
    (x >> n) | (x << (32 - n))
  }

  function ChBits(a: bv32, b: bv32, c: bv32): bv32 { (a & b) ^ (!a & c) }

  function Ch(x: u32, y: u32, z: u32): u32 {
    ChBits(x as bv32, y as bv32, z as bv32) as u32
  }

  function MajBits(a: bv32, b: bv32, c: bv32): bv32 { (a & b) ^ (a & c) ^ (b & c) }

  function Maj(x: u32, y: u32, z: u32): u32 {
    MajBits(x as bv32, y as bv32, z as bv32) as u32
  }

  function BigSigma0Bits(w: bv32): bv32 { Rotr(w, 2) ^ Rotr(w, 13) ^ Rotr(w, 22) }

  function BigSigma0(x: u32): u32 { BigSigma0Bits(x as bv32) as u32 }

  function BigSigma1Bits(w: bv32): bv32 { Rotr(w, 6) ^ Rotr(w, 11) ^ Rotr(w, 25) }

  function BigSigma1(x: u32): u32 { BigSigma1Bits(x as bv32) as u32 }

  function Sigma0Bits(w: bv32): bv32 { Rotr(w, 7) ^ Rotr(w, 18) ^ (w >> 3) }

  function Sigma0(x: u32): u32 { Sigma0Bits(x as bv32) as u32 }

  function Sigma1Bits(w: bv32): bv32 { Rotr(w, 17) ^ Rotr(w, 19) ^ (w >> 10) }

  function Sigma1(x: u32): u32 { Sigma1Bits(x as bv32) as u32 }

  const K0: seq<u32> := [
    0x428a2f98, 0x71374491, 0xb5c0fbcf, 0xe9b5dba5, 0x3956c25b, 0x59f111f1, 0x923f82a4, 0xab1c5ed5
  ]
  const K1: seq<u32> := [
    0xd807aa98, 0x12835b01, 0x243185be, 0x550c7dc3, 0x72be5d74, 0x80deb1fe, 0x9bdc06a7, 0xc19bf174
  ]
  const K2: seq<u32> := [
    0xe49b69c1, 0xefbe4786, 0x0fc19dc6, 0x240ca1cc, 0x2de92c6f, 0x4a7484aa, 0x5cb0a9dc, 0x76f988da
  ]
  const K3: seq<u32> := [
    0x983e5152, 0xa831c66d, 0xb00327c8, 0xbf597fc7, 0xc6e00bf3, 0xd5a79147, 0x06ca6351, 0x14292967
  ]
  const K4: seq<u32> := [
    0x27b70a85, 0x2e1b2138, 0x4d2c6dfc, 0x53380d13, 0x650a7354, 0x766a0abb, 0x81c2c92e, 0x92722c85
  ]
  const K5: seq<u32> := [
    0xa2bfe8a1, 0xa81a664b, 0xc24b8b70, 0xc76c51a3, 0xd192e819, 0xd6990624, 0xf40e3585, 0x106aa070
  ]
  const K6: seq<u32> := [
    0x19a4c116, 0x1e376c08, 0x2748774c, 0x34b0bcb5, 0x391c0cb3, 0x4ed8aa4a, 0x5b9cca4f, 0x682e6ff3
  ]
  const K7: seq<u32> := [
    0x748f82ee, 0x78a5636f, 0x84c87814, 0x8cc70208, 0x90befffa, 0xa4506ceb, 0xbef9a3f7, 0xc67178f2
  ]

  /** Entry i of the table of section 4.2.2. */
  function K(i: nat): u32
    requires i < 64
  {
    if i < 8 then K0[i] else if i < 16 then K1[i - 8] else if i < 24 then K2[i - 16] else if i < 32 then K3[i - 24]
    else if i < 40 then K4[i - 32] else if i < 48 then K5[i - 40] else if i < 56 then K6[i - 48] else K7[i - 56]
  }

  const H0: Hash := [
    0x6a09e667, 0xbb67ae85, 0x3c6ef372, 0xa54ff53a, 0x510e527f, 0x9b05688c, 0x1f83d9ab, 0x5be0cd19
  ]

  /** The i-th big-endian word of a block. */
  function Word(b: Block, i: nat): u32
    requires i < 16
  {
    BeWord(b[4 * i], b[4 * i + 1], b[4 * i + 2], b[4 * i + 3])
  }

  /** The message schedule. */
  function W(b: Block, t: nat): u32
    requires t < 64
  {
    if t < 16 then Word(b, t)
    else (Sigma1(W(b, t - 2)) + W(b, t - 7) + Sigma0(W(b, t - 15)) + W(b, t - 16)) % U32_MOD
  }

  datatype Vars = Vars(a: u32, b: u32, c: u32, d: u32, e: u32, f: u32, g: u32, h: u32)

  function Round(v: Vars, k: u32, w: u32): Vars {
    var t1 := (v.h + BigSigma1(v.e) + Ch(v.e, v.f, v.g) + k + w) % U32_MOD;
    var t2 := (BigSigma0(v.a) + Maj(v.a, v.b, v.c)) % U32_MOD;
    Vars((t1 + t2) % U32_MOD, v.a, v.b, v.c, (v.d + t1) % U32_MOD, v.e, v.f, v.g)
  }

  /** The working variables after t rounds. */
  function Rounds(h: Hash, b: Block, t: nat): Vars
    requires t <= 64
  {
    if t == 0 then Vars(h[0], h[1], h[2], h[3], h[4], h[5], h[6], h[7])
    else Round(Rounds(h, b, t - 1), K(t - 1), W(b, t - 1))
  }

  function AddVars(h: Hash, v: Vars): Hash {
    [
      (h[0] + v.a) % U32_MOD, (h[1] + v.b) % U32_MOD, (h[2] + v.c) % U32_MOD, (h[3] + v.d) % U32_MOD,
      (h[4] + v.e) % U32_MOD, (h[5] + v.f) % U32_MOD, (h[6] + v.g) % U32_MOD, (h[7] + v.h) % U32_MOD
    ]
  }

  function Compress(h: Hash, b: Block): Hash {
    AddVars(h, Rounds(h, b, 64))
  }

  function Digest(h: seq<u32>): (r: seq<byte>)
    ensures |r| == 4 * |h|
  {
    if h == [] then [] else Digest(h[..|h| - 1]) + BeBytes(h[|h| - 1], 4)
  }

  /** The message length in bits, as a 64-bit big-endian number. */
  function LengthField(n: nat): (r: seq<byte>)
    ensures |r| == 8
  {
    BeBytes(Counter(8 * n), 8)
  }

  function Sha256(m: seq<byte>): (r: seq<byte>)
    ensures |r| == 32
  {
    Digest(Fold(Compress, H0, Pad(m, LengthField(|m|))))
  }
}

/** The streaming implementation (src/utils/crypt_sha256.c). */
module Sha256Impl {
  import opened Bits
  import opened Bytes
  import opened MerkleDamgard
  import opened Sha256Standard
  import opened Strings
  import opened Words

  lemma MuxForms(a: bv32, b: bv32, c: bv32)
    ensures c ^ (a & (b ^ c)) == (a & b) ^ (!a & c)
    ensures (a & b) | (c & (a | b)) == (a & b) ^ (a & c) ^ (b & c)
  {
  }

  function ChMuxBits(a: bv32, b: bv32, c: bv32): bv32 { c ^ (a & (b ^ c)) }

  function MajMuxBits(a: bv32, b: bv32, c: bv32): bv32 { (a & b) | (c & (a | b)) }

  lemma SameBits(a: bv32, b: bv32, c: bv32)
    ensures ChMuxBits(a, b, c) == ChBits(a, b, c) && MajMuxBits(a, b, c) == MajBits(a, b, c)
  {
    MuxForms(a, b, c);
  }

  function ChMux(x: u32, y: u32, z: u32): (r: u32)
    ensures r == Ch(x, y, z)
  {
    hide ChBits, ChMuxBits, MajBits, MajMuxBits;
    SameBits(x as bv32, y as bv32, z as bv32);
    ChMuxBits(x as bv32, y as bv32, z as bv32) as u32
  }

  function MajMux(x: u32, y: u32, z: u32): (r: u32)
    ensures r == Maj(x, y, z)
  {
    hide ChBits, ChMuxBits, MajBits, MajMuxBits;
    SameBits(x as bv32, y as bv32, z as bv32);
    MajMuxBits(x as bv32, y as bv32, z as bv32) as u32
  }

  method LoadBigEndian(p: array<byte>, at: nat) returns (w: nat)
    requires at + 4 <= p.Length
    ensures w == BeWord(p[at], p[at + 1], p[at + 2], p[at + 3])
  {
    OrOfBytes(p[at], p[at + 1], p[at + 2], p[at + 3]);
    w := p[at] as nat * 0x100_0000;
    w := Or(w, p[at + 1] as nat * 0x1_0000);
    w := Or(w, p[at + 2] as nat * 0x100);
    w := Or(w, p[at + 3] as nat);
  }

  method StoreBigEndian32(a: array<byte>, at: nat, w: u32)
    requires at + 4 <= a.Length
    modifies a
    ensures a[..] == Overwrite(old(a[..]), at, BeBytes(w, 4))
  {
    forall k | 0 <= k < 4
      ensures BeBytes(w, 4)[3 - k] == Byte(ShiftBytes(w, k))
    {
      BeBytesAt(w, 4, k);
    }
    ShiftsOfU64(w);
    a[at] := Byte(w / 0x100_0000);
    a[at + 1] := Byte(w / 0x1_0000);
    a[at + 2] := Byte(w / 0x100);
    a[at + 3] := Byte(w);
  }

  method StoreBigEndian64(a: array<byte>, at: nat, w: nat)
    requires at + 8 <= a.Length
    modifies a
    ensures a[..] == Overwrite(old(a[..]), at, BeBytes(w, 8))
  {
    forall k | 0 <= k < 8
      ensures BeBytes(w, 8)[7 - k] == Byte(ShiftBytes(w, k))
    {
      BeBytesAt(w, 8, k);
    }
    ShiftsOfU64(w);
    a[at] := Byte(w / 0x100_0000_0000_0000);
    a[at + 1] := Byte(w / 0x1_0000_0000_0000);
    a[at + 2] := Byte(w / 0x100_0000_0000);
    a[at + 3] := Byte(w / 0x1_0000_0000);
    a[at + 4] := Byte(w / 0x100_0000);
    a[at + 5] := Byte(w / 0x1_0000);
    a[at + 6] := Byte(w / 0x100);
    a[at + 7] := Byte(w);
  }

  lemma WordOfBlock(p: seq<byte>, at: nat, i: nat)
    requires at + 64 <= |p| && i < 16
    ensures var k := at + 4 * i; W(p[at..at + 64], i) == BeWord(p[k], p[k + 1], p[k + 2], p[k + 3])
  {
    hide BeWord;
  }

  /** The message schedule, filled in place: the words of the block, then the recurrence. */
  method Expand(p: array<byte>, at: nat) returns (w: array<u32>)
    requires at + 64 <= p.Length
    ensures fresh(w) && w.Length == 64
    ensures forall t :: 0 <= t < 64 ==> w[t] == W(p[at..at + 64], t)
  {
    hide BeWord, W, Word;
    w := new u32[64];
    for i := 0 to 16
      invariant forall t :: 0 <= t < i ==> w[t] == W(p[at..at + 64], t)
    {
      WordOfBlock(p[..], at, i);
      w[i] := LoadBigEndian(p, at + 4 * i);
    }
    Recur(w, p[at..at + 64]);
  }

  method Recur(w: array<u32>, ghost block: Block)
    requires w.Length == 64
    requires forall t :: 0 <= t < 16 ==> w[t] == W(block, t)
    modifies w
    ensures forall t :: 0 <= t < 64 ==> w[t] == W(block, t)
  {
    hide Word, Sigma0, Sigma1;
    for i := 16 to 64
      invariant forall t :: 0 <= t < i ==> w[t] == W(block, t)
    {
      var next := (Sigma1(w[i - 2]) + w[i - 7] + Sigma0(w[i - 15]) + w[i - 16]) % U32_MOD;
      assert next == W(block, i) by {
        assert w[i - 2] == W(block, i - 2) && w[i - 7] == W(block, i - 7);
        assert w[i - 15] == W(block, i - 15) && w[i - 16] == W(block, i - 16);
      }
      w[i] := next;
    }
  }

  /** The 64 rounds, in eight variables that change roles. */
  method Scramble(hash: array<u32>, w: array<u32>, ghost block: Block) returns (v: Vars)
    requires hash.Length == 8 && w.Length == 64
    requires forall t :: 0 <= t < 64 ==> w[t] == W(block, t)
    ensures v == Rounds(hash[..], block, 64)
  {
    hide K, W, BigSigma0, BigSigma1, Ch, Maj, ChMux, MajMux;
    var a: u32, b: u32, c: u32, d: u32 := hash[0], hash[1], hash[2], hash[3];
    var e: u32, f: u32, g: u32, h: u32 := hash[4], hash[5], hash[6], hash[7];
    for i := 0 to 64
      invariant Vars(a, b, c, d, e, f, g, h) == Rounds(hash[..], block, i)
    {
      ghost var u := Vars(a, b, c, d, e, f, g, h);
      var t1 := (h + BigSigma1(e) + ChMux(e, f, g) + K(i) + w[i]) % U32_MOD;
      var t2 := (BigSigma0(a) + MajMux(a, b, c)) % U32_MOD;
      h := g;
      g := f;
      f := e;
      e := (d + t1) % U32_MOD;
      d := c;
      c := b;
      b := a;
      a := (t1 + t2) % U32_MOD;
      assert Vars(a, b, c, d, e, f, g, h) == Round(u, K(i), w[i]);
    }
    v := Vars(a, b, c, d, e, f, g, h);
  }

  /** The working variables added to the chaining state. */
  method AddInto(h: array<u32>, v: Vars)
    requires h.Length == 8
    modifies h
    ensures h[..] == AddVars(old(h[..]), v)
  {
    h[0] := (h[0] + v.a) % U32_MOD;
    h[1] := (h[1] + v.b) % U32_MOD;
    h[2] := (h[2] + v.c) % U32_MOD;
    h[3] := (h[3] + v.d) % U32_MOD;
    h[4] := (h[4] + v.e) % U32_MOD;
    h[5] := (h[5] + v.f) % U32_MOD;
    h[6] := (h[6] + v.g) % U32_MOD;
    h[7] := (h[7] + v.h) % U32_MOD;
  }

  lemma DigestStart(md: seq<byte>)
    ensures Overwrite(md, 0, Digest([])) == md
  {
  }

  lemma DigestNext(hash: seq<u32>, i: nat)
    requires i < |hash|
    ensures Digest(hash[..i + 1]) == Digest(hash[..i]) + BeBytes(hash[i], 4)
  {
    assert hash[..i + 1][..i] == hash[..i];
  }

  /** The length field comes out of the counter, even if that has wrapped. */
  lemma FieldOfCounter(n: nat)
    ensures BeBytes(Counter(8 * Counter(n)), 8) == LengthField(n)
  {
    CounterBits(n);
  }

  class Sha256State {
    var len: nat
    const h: array<u32>
    const buf: array<byte>

    ghost predicate Valid()
      reads this
    {
      len < U64_MOD && h.Length == 8 && buf.Length == 64
    }

    /** What the state stands for: the message msg has been taken in. */
    ghost predicate Absorbed(msg: seq<byte>)
      reads this, h, buf
    {
      && Valid()
      && len == Counter(|msg|)
      && h[..] == Fold(Compress, H0, msg)
      && buf[..|msg| % 64] == Tail(msg)
    }

    /** Memory for a state: nothing is known about its contents. */
    constructor ()
      ensures Valid() && fresh(h) && fresh(buf)
    {
      len := *;
      h := new u32[8];
      buf := new byte[64];
      new;
      len := len % U64_MOD;
    }

    method Init()
      requires Valid()
      modifies this, h
      ensures Absorbed([])
    {
      len := 0;
      h[0] := 0x6a09e667;
      h[1] := 0xbb67ae85;
      h[2] := 0x3c6ef372;
      h[3] := 0xa54ff53a;
      h[4] := 0x510e527f;
      h[5] := 0x9b05688c;
      h[6] := 0x1f83d9ab;
      h[7] := 0x5be0cd19;
    }

    method ProcessBlock(p: array<byte>, at: nat)
      requires Valid() && at + 64 <= p.Length
      modifies h
      ensures h[..] == Compress(old(h[..]), p[at..at + 64])
    {
      hide AddVars, Rounds, W;
      ghost var block: Block := p[at..at + 64];
      var w := Expand(p, at);
      var v := Scramble(h, w, block);
      AddInto(h, v);
    }

    /** Takes in the n0 bytes of m from position at on, whatever the chunk boundaries were before. */
    method Update(m: array<byte>, at: nat, n0: nat, ghost msg: seq<byte>)
      requires Absorbed(msg) && at + n0 <= m.Length && n0 < WORD_MOD && m != buf
      modifies this, h, buf
      ensures Absorbed(msg + m[at..at + n0])
    {
      hide Compress, Counter, Fold, Overwrite, Tail;
      CounterStep(|msg|, n0);
      CounterLow(|msg|);
      var r: nat, n: nat, p: nat := len % 64, n0, at;
      ghost var seen, was := msg, buf[..];
      len := Counter(len + n);
      if r != 0 {
        if n < 64 - r {
          Copy(buf, r, m, p, n);
          BufferShort(Compress, H0, msg, was, m[p..p + n]);
          return;
        }
        Copy(buf, r, m, p, 64 - r);
        BufferFull(Compress, H0, msg, was, m[p..p + (64 - r)]);
        seen := msg + m[p..p + (64 - r)];
        p, n := p + (64 - r), n - (64 - r);
        assert buf[0..64] == buf[..];
        ProcessBlock(buf, 0);
      }
      assert |seen| + n == |msg| + n0;
      UpdateAligned(m, p, n, seen);
      assert seen + m[p..p + n] == msg + m[at..at + n0];
    }

    /** The rest of an update, once the data seen so far fill whole blocks. */
    method UpdateAligned(m: array<byte>, p0: nat, n0: nat, ghost seen: seq<byte>)
      requires Valid() && p0 + n0 <= m.Length && m != buf
      requires Whole(|seen|) && h[..] == Fold(Compress, H0, seen) && len == Counter(|seen| + n0)
      modifies h, buf
      ensures Absorbed(seen + m[p0..p0 + n0])
    {
      hide Compress, Counter, Fold, Overwrite, Tail, Whole;
      var p, n := UpdateBlocks(m, p0, n0, seen);
      BufferRest(Compress, H0, seen, m[..], p0, p, n, buf[..]);
      Copy(buf, 0, m, p, n);
    }

    /** Compresses whole blocks straight from the data. */
    method UpdateBlocks(m: array<byte>, p0: nat, n0: nat, ghost seen: seq<byte>) returns (p: nat, n: nat)
      requires Valid() && p0 + n0 <= m.Length
      requires Whole(|seen|) && h[..] == Fold(Compress, H0, seen)
      modifies h
      ensures p0 <= p && p + n == p0 + n0 && n < 64 && Whole(|seen| + p - p0)
      ensures h[..] == Fold(Compress, H0, seen + m[p0..p])
    {
      hide Compress, Fold, Whole;
      p, n := p0, n0;
      assert seen + m[p0..p0] == seen && |seen| + p0 - p0 == |seen|;
      while n >= 64
        invariant p0 <= p && p + n == p0 + n0 && Whole(|seen| + p - p0)
        invariant h[..] == Fold(Compress, H0, seen + m[p0..p])
      {
        ProcessBlock(m, p);
        FoldNext(Compress, H0, seen, m[..], p0, p);
        p, n := p + 64, n - 64;
      }
    }

    /** The first half of pad: the bit 1, and a block of its own if the length does not fit behind it. */
    method StartPadding(ghost msg: seq<byte>) returns (r: nat)
      requires Absorbed(msg)
      modifies h, buf
      ensures |Tail(msg)| < 56 ==>
        && r == |Tail(msg)| + 1 && h[..] == old(h[..]) && buf[..] == old(buf[..])[|Tail(msg)| := 0x80]
      ensures |Tail(msg)| >= 56 ==>
        && r == 0
        && h[..] == Compress(Fold(Compress, H0, msg), Tail(msg) + ([0x80] + Repeat(0, 63 - |Tail(msg)|)))
    {
      hide Compress, Counter, Fold, Overwrite, Repeat, Tail;
      ghost var was := buf[..];
      CounterLow(|msg|);
      r := len % 64;
      buf[r] := 0x80;
      r := r + 1;
      if r > 56 {
        Fill(buf, r, 0, 64 - r);
        BufferEnds(was, Tail(msg));
        r := 0;
        assert buf[0..64] == buf[..];
        ProcessBlock(buf, 0);
      }
    }

    /** Feeds the compression function the last one or two blocks of the padded message. */
    method PadMessage(ghost msg: seq<byte>)
      requires Absorbed(msg)
      modifies this, h, buf
      ensures Valid() && h[..] == Fold(Compress, H0, Pad(msg, LengthField(|msg|)))
    {
      hide Compress, Counter, Fold, LengthField, Overwrite, Pad, Repeat, Tail;
      ghost var field, was := LengthField(|msg|), buf[..];
      var r := StartPadding(msg);
      if |Tail(msg)| >= 56 {
        BufferIsLength(buf[..], field);
        FoldPadTwo(Compress, H0, msg, field);
      } else {
        BufferEndsWithLength(was, Tail(msg), field);
        FoldPadOne(Compress, H0, msg, field);
      }
      Fill(buf, r, 0, 56 - r);
      FieldOfCounter(|msg|);
      len := Counter(8 * len);
      StoreBigEndian64(buf, 56, len);
      assert buf[0..64] == buf[..];
      ProcessBlock(buf, 0);
    }

    /** Writes the digest of the message taken in. */
    method Sum(md: array<byte>, ghost msg: seq<byte>)
      requires Absorbed(msg) && md.Length >= 32 && md != buf
      modifies this, h, buf, md
      ensures md[..] == Overwrite(old(md[..]), 0, Sha256(msg))
    {
      hide Compress, Digest, Fold, BeBytes, Overwrite, Pad;
      PadMessage(msg);
      ghost var was, hash := md[..], h[..];
      DigestStart(was);
      for i := 0 to 8
        invariant Valid() && h[..] == hash
        invariant md[..] == Overwrite(was, 0, Digest(hash[..i]))
      {
        DigestNext(hash, i);
        OverwriteTwice(was, 0, Digest(hash[..i]), BeBytes(hash[i], 4));
        StoreBigEndian32(md, 4 * i, h[i]);
      }
      assert hash[..8] == hash;
    }
  }
}
