/**
 What the two digests have in common: a message is padded to whole 64-byte
 blocks and a compression function is folded over the blocks (section 5.1.1 of
 FIPS 180-3, sections 3.1 and 3.2 of RFC 1321).
 */
module MerkleDamgard {
  import opened Bytes

  type Block = b: seq<byte> | |b| == 64 witness seq(64, _ => 0)

  /** The chaining state after the first n blocks of m. */
  function Blocks<S>(f: (S, Block) -> S, iv: S, m: seq<byte>, n: nat): S
    requires 64 * n <= |m|
  {
    if n == 0 then iv else f(Blocks(f, iv, m, n - 1), m[64 * (n - 1)..64 * n])
  }

  lemma {:induction false} BlocksOfPrefix<S>(f: (S, Block) -> S, iv: S, m: seq<byte>, m': seq<byte>, n: nat)
    requires 64 * n <= |m| && 64 * n <= |m'| && m[..64 * n] == m'[..64 * n]
    ensures Blocks(f, iv, m, n) == Blocks(f, iv, m', n)
  {
    if n == 0 {
    } else {
      assert m[..64 * (n - 1)] == m[..64 * n][..64 * (n - 1)] == m'[..64 * (n - 1)];
      BlocksOfPrefix(f, iv, m, m', n - 1);
      assert m[64 * (n - 1)..64 * n] == m[..64 * n][64 * (n - 1)..] == m'[64 * (n - 1)..64 * n];
    }
  }

  /** n bytes fill whole blocks. */
  predicate Whole(n: nat) {
    n % 64 == 0
  }

  /** The bytes of m after its last complete block. */
  function Tail(m: seq<byte>): (t: seq<byte>)
    ensures |t| == |m| % 64
  {
    m[|m| - |m| % 64..]
  }

  /** The state after all complete blocks of m. */
  function Fold<S>(f: (S, Block) -> S, iv: S, m: seq<byte>): S {
    Blocks(f, iv, m, |m| / 64)
  }

  /** Less than a block more: nothing to compress yet. */
  lemma FoldShort<S>(f: (S, Block) -> S, iv: S, m: seq<byte>, x: seq<byte>)
    requires |m| % 64 + |x| < 64
    ensures Fold(f, iv, m + x) == Fold(f, iv, m) && Tail(m + x) == Tail(m) + x
  {
    assert (m + x)[..64 * (|m| / 64)] == m[..64 * (|m| / 64)];
    BlocksOfPrefix(f, iv, m, m + x, |m| / 64);
  }

  /** The tail filled up to a block: one more compression. */
  lemma FoldBlock<S>(f: (S, Block) -> S, iv: S, m: seq<byte>, x: seq<byte>)
    requires |m| % 64 + |x| == 64
    ensures Fold(f, iv, m + x) == f(Fold(f, iv, m), Tail(m) + x) && Tail(m + x) == []
  {
    var q := |m| / 64;
    assert (m + x)[..64 * q] == m[..64 * q];
    BlocksOfPrefix(f, iv, m, m + x, q);
    assert |m + x| == 64 * (q + 1);
    assert (m + x)[64 * q..64 * (q + 1)] == Tail(m) + x;
  }

  /** The number of zero bytes after the 0x80 byte. */
  function Zeros(n: nat): nat {
    if n % 64 < 56 then 55 - n % 64 else 119 - n % 64
  }

  /** Zeros is the least number that leaves exactly 8 bytes in the last block. */
  lemma ZerosIsLeast(n: nat, z: nat)
    ensures (n + 1 + Zeros(n)) % 64 == 56
    ensures (n + 1 + z) % 64 == 56 ==> Zeros(n) <= z
  {
    var q, r := n / 64, n % 64;
    assert n + 1 + Zeros(n) == 64 * (if r < 56 then q else q + 1) + 56;
    if z < Zeros(n) {
      assert n + 1 + z == 64 * q + (r + 1 + z);
    }
  }

  /** m, the bit 1, zero bits and an 8-byte length field. */
  function Pad(m: seq<byte>, length: seq<byte>): (p: seq<byte>)
    requires |length| == 8
    ensures |p| % 64 == 0
  {
    m + [0x80] + Repeat(0, Zeros(|m|)) + length
  }

  /** The blocks with which `pad` ends the message: one if the length field fits behind the tail, else two. */
  lemma FoldPadOne<S>(f: (S, Block) -> S, iv: S, m: seq<byte>, length: seq<byte>)
    requires |length| == 8 && |m| % 64 < 56
    ensures Fold(f, iv, Pad(m, length)) ==
      f(Fold(f, iv, m), Tail(m) + ([0x80] + Repeat(0, 55 - |m| % 64) + length))
  {
    var x := [0x80] + Repeat(0, 55 - |m| % 64) + length;
    FoldBlock(f, iv, m, x);
    assert Pad(m, length) == m + x;
  }

  lemma FoldPadTwo<S>(f: (S, Block) -> S, iv: S, m: seq<byte>, length: seq<byte>)
    requires |length| == 8 && |m| % 64 >= 56
    ensures Fold(f, iv, Pad(m, length)) ==
      f(f(Fold(f, iv, m), Tail(m) + ([0x80] + Repeat(0, 63 - |m| % 64))), Repeat(0, 56) + length)
  {
    var x, y := [0x80] + Repeat(0, 63 - |m| % 64), Repeat(0, 56) + length;
    FoldBlock(f, iv, m, x);
    FoldBlock(f, iv, m + x, y);
    assert Tail(m + x) + y == y;
    assert Pad(m, length) == m + x + y;
  }

  /**
   When the length fields determine the lengths, no padded message is a suffix
   of another one. In particular padding is injective.
   */
  lemma PaddingIsSuffixFree(m: seq<byte>, length: seq<byte>, m': seq<byte>, length': seq<byte>)
    requires |length| == 8 && |length'| == 8
    requires length == length' ==> |m| == |m'|
    requires var p, p' := Pad(m, length), Pad(m', length');
      |p| <= |p'| && p'[|p'| - |p|..] == p
    ensures m == m'
  {
    var p, p' := Pad(m, length), Pad(m', length');
    assert p[|p| - 8..] == length && p'[|p'| - 8..] == length';
    assert p'[|p'| - |p|..][|p| - 8..] == p'[|p'| - 8..];
    assert |m| == |m'|;
    assert p == p';
    assert m == p[..|m|] && m' == p'[..|m|];
  }

  /** The value of the uint64_t byte counter when x bytes have been counted. */
  function Counter(x: nat): (r: nat)
    ensures r < U64_MOD
  {
    x % U64_MOD
  }

  /** The counter may wrap: counting on is not affected, */
  lemma CounterStep(x: nat, n: nat)
    ensures Counter(Counter(x) + n) == Counter(x + n)
  {
    assert x == U64_MOD * (x / U64_MOD) + Counter(x);
    Multiple(x / U64_MOD, Counter(x) + n);
  }

  /** and it still gives the length modulo 64 */
  lemma CounterLow(x: nat)
    ensures Counter(x) % 64 == x % 64
  {
    var q, r := x / U64_MOD, Counter(x);
    Multiple64(U64_MOD / 64 * q + r / 64, r % 64);
    assert x == 64 * (U64_MOD / 64 * q + r / 64) + r % 64;
  }

  lemma Multiple64(q: nat, r: nat)
    requires r < 64
    ensures (64 * q + r) % 64 == r
  {
  }

  /** and the bit count modulo 2^64. */
  lemma CounterBits(x: nat)
    ensures Counter(8 * Counter(x)) == Counter(8 * x)
  {
    assert 8 * x == U64_MOD * (8 * (x / U64_MOD)) + 8 * Counter(x);
    Multiple(8 * (x / U64_MOD), 8 * Counter(x));
  }

  lemma Multiple(q: nat, r: nat)
    ensures Counter(U64_MOD * q + r) == Counter(r)
  {
  }

  /** Data copied behind the tail in the buffer: not yet a block. */
  lemma BufferShort<S>(f: (S, Block) -> S, iv: S, msg: seq<byte>, buf: Block, x: seq<byte>)
    requires |msg| % 64 + |x| < 64 && buf[..|msg| % 64] == Tail(msg)
    ensures Fold(f, iv, msg + x) == Fold(f, iv, msg) && |msg + x| % 64 == |msg| % 64 + |x|
    ensures Overwrite(buf, |msg| % 64, x)[..|msg| % 64 + |x|] == Tail(msg + x)
  {
    FoldShort(f, iv, msg, x);
  }

  /** Data copied behind the tail in the buffer: a block. */
  lemma BufferFull<S>(f: (S, Block) -> S, iv: S, msg: seq<byte>, buf: Block, x: seq<byte>)
    requires |msg| % 64 + |x| == 64 && buf[..|msg| % 64] == Tail(msg)
    ensures Fold(f, iv, msg + x) == f(Fold(f, iv, msg), Overwrite(buf, |msg| % 64, x)) && Whole(|msg + x|)
  {
    FoldBlock(f, iv, msg, x);
    assert Overwrite(buf, |msg| % 64, x) == Tail(msg) + x;
  }

  /** The next whole block of m, when everything before it fills whole blocks. */
  lemma FoldNext<S>(f: (S, Block) -> S, iv: S, seen: seq<byte>, m: seq<byte>, p0: nat, p: nat)
    requires p0 <= p && p + 64 <= |m| && Whole(|seen| + p - p0)
    ensures Whole(|seen| + p + 64 - p0)
    ensures Fold(f, iv, seen + m[p0..p + 64]) == f(Fold(f, iv, seen + m[p0..p]), m[p..p + 64])
  {
    var all, x := seen + m[p0..p], m[p..p + 64];
    FoldBlock(f, iv, all, x);
    assert Tail(all) + x == x;
    assert all + x == seen + m[p0..p + 64];
  }

  /** The bytes of m left over after the last whole block, copied to the buffer. */
  lemma BufferRest<S>(f: (S, Block) -> S, iv: S, seen: seq<byte>, m: seq<byte>, p0: nat, p: nat, n: nat, buf: Block)
    requires p0 <= p && p + n <= |m| && Whole(|seen| + p - p0) && n < 64
    ensures var all := seen + m[p0..p + n];
      && Fold(f, iv, all) == Fold(f, iv, seen + m[p0..p])
      && |all| % 64 == n && Overwrite(buf, 0, m[p..p + n])[..n] == Tail(all)
  {
    var all, x := seen + m[p0..p], m[p..p + n];
    BufferShort(f, iv, all, buf, x);
    assert all + x == seen + m[p0..p + n];
  }

  /** What `pad` makes of a buffer that holds the tail t, if the length field goes into the next block, */
  lemma BufferEnds(buf: Block, t: seq<byte>)
    requires |t| < 64 && buf[..|t|] == t
    ensures Overwrite(buf[|t| := 0x80], |t| + 1, Repeat(0, 63 - |t|)) == t + ([0x80] + Repeat(0, 63 - |t|))
  {
  }

  /** if it goes into the same block, */
  lemma BufferEndsWithLength(buf: Block, t: seq<byte>, length: seq<byte>)
    requires |t| < 56 && buf[..|t|] == t && |length| == 8
    ensures Overwrite(Overwrite(buf[|t| := 0x80], |t| + 1, Repeat(0, 55 - |t|)), 56, length)
         == t + ([0x80] + Repeat(0, 55 - |t|) + length)
  {
  }

  /** and of the next block. */
  lemma BufferIsLength(buf: Block, length: seq<byte>)
    requires |length| == 8
    ensures Overwrite(Overwrite(buf, 0, Repeat(0, 56)), 56, length) == Repeat(0, 56) + length
  {
  }
}
