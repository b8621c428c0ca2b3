/** 32-bit words and the two byte orders. */
module Words {
  import opened Bytes
  import opened Bits

  /** The number with the bits b. */
  function OfBits(b: bv32): u32 { b as u32 }

  /** The word with the given bytes, most significant first. */
  function BeWord(b0: byte, b1: byte, b2: byte, b3: byte): u32 {
    b0 as nat * 0x100_0000 + b1 as nat * 0x1_0000 + b2 as nat * 0x100 + b3 as nat
  }

  /** The big-endian bytes of w, most significant first. */
  function BeBytes(w: nat, k: nat): (r: seq<byte>)
    ensures |r| == k
  {
    if k == 0 then [] else BeBytes(w / 256, k - 1) + [Byte(w)]
  }

  lemma OrBelow16(q: nat, y: nat)
    requires y < 0x1_0000
    ensures Or(q * 0x1_0000, y) == q * 0x1_0000 + y
  {
    ShlValues(1);
    ShlValues(q);
    OrDisjoint(q, 16, y);
  }

  lemma OrBelow24(q: nat, y: nat)
    requires y < 0x100_0000
    ensures Or(q * 0x100_0000, y) == q * 0x100_0000 + y
  {
    ShlValues(1);
    ShlValues(q);
    OrDisjoint(q, 24, y);
  }

  /** Shifting the bytes into place and OR-ing them is the sum. */
  lemma OrOfBytes(b0: byte, b1: byte, b2: byte, b3: byte)
    ensures Or(Or(Or(b0 as nat * 0x100_0000, b1 as nat * 0x1_0000), b2 as nat * 0x100), b3 as nat)
         == BeWord(b0, b1, b2, b3)
  {
    hide Or;
    var h1 := b0 as nat * 0x100 + b1 as nat;
    OrBelow24(b0 as nat, b1 as nat * 0x1_0000);
    OrBelow16(h1, b2 as nat * 0x100);
    OrBelow8(h1 * 0x100 + b2 as nat, b3 as nat);
  }

  /** The same in the opposite order. */
  lemma OrOfBytesUp(b0: byte, b1: byte, b2: byte, b3: byte)
    ensures Or(Or(Or(b3 as nat, b2 as nat * 0x100), b1 as nat * 0x1_0000), b0 as nat * 0x100_0000)
         == BeWord(b0, b1, b2, b3)
  {
    hide Or;
    var l1 := b2 as nat * 0x100 + b3 as nat;
    var l2 := b1 as nat * 0x1_0000 + l1;
    OrCommutes(b3 as nat, b2 as nat * 0x100);
    OrBelow8(b2 as nat, b3 as nat);
    OrCommutes(l1, b1 as nat * 0x1_0000);
    OrBelow16(b1 as nat, l1);
    OrCommutes(l2, b0 as nat * 0x100_0000);
    OrBelow24(b0 as nat, l2);
  }

  /** The k-th byte from the bottom. */
  lemma {:induction false} BeBytesAt(w: nat, n: nat, k: nat)
    requires k < n
    ensures BeBytes(w, n)[n - 1 - k] == Byte(ShiftBytes(w, k))
  {
    if k == 0 {
    } else {
      BeBytesAt(w / 256, n - 1, k - 1);
    }
  }

  lemma {:induction false} LeBytesAt(w: nat, n: nat, k: nat)
    requires k < n
    ensures LeBytes(w, n)[k] == Byte(ShiftBytes(w, k))
  {
    if k == 0 {
    } else {
      LeBytesAt(w / 256, n - 1, k - 1);
    }
  }

  /** w shifted right by k bytes. */
  function ShiftBytes(w: nat, k: nat): nat {
    if k == 0 then w else ShiftBytes(w / 256, k - 1)
  }

  /** The encoding of a number below 256^n determines it. */
  lemma {:induction false} BeBytesInjective(w: nat, w': nat, n: nat)
    requires w < Pow256(n) && w' < Pow256(n) && BeBytes(w, n) == BeBytes(w', n)
    ensures w == w'
  {
    if n == 0 {
    } else {
      var b, b' := BeBytes(w, n), BeBytes(w', n);
      assert b[..n - 1] == BeBytes(w / 256, n - 1) && b'[..n - 1] == BeBytes(w' / 256, n - 1);
      BeBytesInjective(w / 256, w' / 256, n - 1);
      assert b[n - 1] == Byte(w) && b'[n - 1] == Byte(w');
    }
  }

  lemma LeBytesInjective(w: nat, w': nat, n: nat)
    requires w < Pow256(n) && w' < Pow256(n) && LeBytes(w, n) == LeBytes(w', n)
    ensures w == w'
  {
    StoreThenLoad(w, n);
    StoreThenLoad(w', n);
  }

  lemma ShiftsOfU64(w: nat)
    ensures ShiftBytes(w, 1) == w / 0x100 && ShiftBytes(w, 2) == w / 0x1_0000
    ensures ShiftBytes(w, 3) == w / 0x100_0000 && ShiftBytes(w, 4) == w / 0x1_0000_0000
    ensures ShiftBytes(w, 5) == w / 0x100_0000_0000 && ShiftBytes(w, 6) == w / 0x1_0000_0000_0000
    ensures ShiftBytes(w, 7) == w / 0x100_0000_0000_0000
  {
  }
}
