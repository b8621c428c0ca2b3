/**
 Bytes, machine words and how words are laid out in memory.

 BYTE_PER_WORD is left unspecified on purpose: everything proved about it holds
 for the 32-bit and for the 64-bit build (types.h).
 */
module Bytes {

  newtype byte = x: int | 0 <= x < 256

  type WordBytes = x: nat | x == 4 || x == 8 witness 8

  const BYTE_PER_WORD: WordBytes

  /** Number of values of word_t, paddr_t, vaddr_t and size_t. */
  const WORD_MOD: nat := if BYTE_PER_WORD == 4 then 0x1_0000_0000 else 0x1_0000_0000_0000_0000

  /** Number of values of uint32_t and of uint64_t. */
  const U32_MOD: nat := 0x1_0000_0000
  const U64_MOD: nat := 0x1_0000_0000_0000_0000

  type u32 = x: nat | x < 0x1_0000_0000

  type u64 = x: nat | x < 0x1_0000_0000_0000_0000

  datatype Option<T> = None | Some(value: T)

  /** Conversion of an integer to unsigned char. */
  function Byte(x: int): byte {
    (x % 256) as byte
  }

  /** s with the bytes from position `at` on replaced by data. */
  function Overwrite(s: seq<byte>, at: nat, data: seq<byte>): (r: seq<byte>)
    requires at + |data| <= |s|
    ensures |r| == |s|
  {
    seq(|s|, i requires 0 <= i < |s| => if at <= i < at + |data| then data[i - at] else s[i])
  }

  lemma OverwriteAll(s: seq<byte>, data: seq<byte>)
    requires |s| == |data|
    ensures Overwrite(s, 0, data) == data
  {
  }

  lemma OverwriteTwice(s: seq<byte>, at: nat, a: seq<byte>, b: seq<byte>)
    requires at + |a| + |b| <= |s|
    ensures Overwrite(Overwrite(s, at, a), at + |a|, b) == Overwrite(s, at, a + b)
  {
  }

  lemma OverwriteElsewhere(s: seq<byte>, at: nat, data: seq<byte>, lo: nat, hi: nat)
    requires at + |data| <= |s| && lo <= hi <= |s| && (hi <= at || at + |data| <= lo)
    ensures Overwrite(s, at, data)[lo..hi] == s[lo..hi]
  {
  }

  /** The little-endian bytes of w, least significant first. */
  function LeBytes(w: nat, k: nat): (r: seq<byte>)
    ensures |r| == k
  {
    if k == 0 then [] else [Byte(w)] + LeBytes(w / 256, k - 1)
  }

  function LeValue(b: seq<byte>): nat {
    if |b| == 0 then 0 else b[0] as nat + 256 * LeValue(b[1..])
  }

  function Repeat(b: byte, n: nat): (r: seq<byte>)
    ensures |r| == n && forall i :: 0 <= i < n ==> r[i] == b
  {
    seq(n, _ => b)
  }

  /** Storing what was loaded gives back the bytes loaded. */
  lemma {:induction false} LoadThenStore(b: seq<byte>)
    ensures LeBytes(LeValue(b), |b|) == b
  {
    if |b| == 0 {
    } else {
      LoadThenStore(b[1..]);
      var v := LeValue(b[1..]);
      assert (b[0] as nat + 256 * v) % 256 == b[0] as nat && (b[0] as nat + 256 * v) / 256 == v;
      assert b == [b[0]] + b[1..];
    }
  }

  function Pow256(k: nat): (r: nat)
    ensures r > 0
  {
    if k == 0 then 1 else 256 * Pow256(k - 1)
  }

  /** Loading what was stored gives back the word, reduced to k bytes. */
  lemma {:induction false} StoreThenLoad(w: nat, k: nat)
    requires w < Pow256(k)
    ensures LeValue(LeBytes(w, k)) == w
  {
    if k == 0 {
    } else {
      var q := w / 256;
      assert q < Pow256(k - 1);
      StoreThenLoad(q, k - 1);
      assert LeBytes(w, k)[0] == Byte(w) && LeBytes(w, k)[1..] == LeBytes(q, k - 1);
    }
  }
}
