/**
 Word-wide memset and memcpy, and the string comparisons (src/string.c).

 An object in memory is an array together with the address `base` of its first
 byte: the address of a[i] is base + i, and alignment is a matter of addresses.
 */
module Strings {
  import opened Bytes

  /** The widths of a load or store: powers of two up to the word size. */
  predicate IsUnit(u: nat) {
    (u == 1 || u == 2 || u == 4 || u == 8) && u <= BYTE_PER_WORD
  }

  /** The remainder of address x modulo the unit u, one case a unit. */
  function Misalign(x: nat, u: nat): nat
    requires IsUnit(u)
  {
    if u == 8 then x % 8 else if u == 4 then x % 4 else if u == 2 then x % 2 else 0
  }

  lemma MisalignIsRemainder(x: nat, u: nat)
    requires IsUnit(u)
    ensures Misalign(x, u) == x % u
  {
  }

  lemma NextAddress(x: nat, u: nat)
    requires IsUnit(u)
    ensures Misalign(x + 1, u) == if Misalign(x, u) + 1 == u then 0 else Misalign(x, u) + 1
    ensures Misalign(x + u, u) == Misalign(x, u)
  {
    Residues2(x);
    Residues4(x);
    Residues8(x);
  }

  lemma Residues2(x: nat)
    ensures (x + 2) % 2 == x % 2 && (x + 1) % 2 == 1 - x % 2
  {
  }

  lemma Residues4(x: nat)
    ensures (x + 4) % 4 == x % 4 && (x + 1) % 4 == if x % 4 == 3 then 0 else x % 4 + 1
  {
  }

  lemma Residues8(x: nat)
    ensures (x + 8) % 8 == x % 8 && (x + 1) % 8 == if x % 8 == 7 then 0 else x % 8 + 1
  {
  }

  /** A k-byte load, allowed only at an address that is a multiple of k. */
  method LoadUnit(a: array<byte>, base: nat, i: nat, k: nat) returns (w: nat)
    requires IsUnit(k) && Misalign(base + i, k) == 0
    requires i + k <= a.Length
    ensures w == LeValue(a[i..i + k])
  {
    w := LeValue(a[i..i + k]);
  }

  /** A k-byte store, allowed only at an address that is a multiple of k. */
  method StoreUnit(a: array<byte>, base: nat, i: nat, k: nat, w: nat)
    requires IsUnit(k) && Misalign(base + i, k) == 0
    requires i + k <= a.Length
    modifies a
    ensures a[..] == Overwrite(old(a[..]), i, LeBytes(w, k))
  {
    var b := LeBytes(w, k);
    forall j | i <= j < i + k {
      a[j] := b[j - i];
    }
  }

  /** (word_t)-1 / 255 has a 1 in every byte, so the product repeats the low byte of c. */
  function FillWord(c: int): (w: nat)
    ensures w < WORD_MOD && LeBytes(w, BYTE_PER_WORD) == Repeat(Byte(c), BYTE_PER_WORD)
  {
    RepeatedBytes(c % 256, BYTE_PER_WORD);
    RepeatedProduct(c % 256, BYTE_PER_WORD);
    assert Byte(c % 256) == Byte(c);
    (WORD_MOD - 1) / 255 * (c % 256)
  }

  /** The number whose k low bytes are all c. */
  function Repeated(c: nat, k: nat): nat {
    if k == 0 then 0 else c + 256 * Repeated(c, k - 1)
  }

  lemma RepeatedProduct(c: nat, k: WordBytes)
    ensures Repeated(c, k) == if k == 4 then 0x0101_0101 * c else 0x0101_0101_0101_0101 * c
  {
    assert Repeated(c, 1) == c;
    assert Repeated(c, 2) == 0x0101 * c;
    assert Repeated(c, 4) == 0x0101_0101 * c;
    assert Repeated(c, 6) == 0x0101_0101_0101 * c;
  }

  lemma {:induction false} RepeatedBytes(c: nat, k: nat)
    requires c < 256
    ensures LeBytes(Repeated(c, k), k) == Repeat(Byte(c), k)
  {
    if k == 0 {
    } else {
      var r := Repeated(c, k - 1);
      RepeatedBytes(c, k - 1);
      LowByte(c, r);
      assert LeBytes(c + 256 * r, k) == [Byte(c)] + LeBytes(r, k - 1);
    }
  }

  lemma LowByte(c: nat, r: nat)
    requires c < 256
    ensures (c + 256 * r) / 256 == r && Byte(c + 256 * r) == Byte(c)
  {
  }

  lemma FillOne(now: seq<byte>, at: nat, b: byte)
    requires at < |now|
    ensures now[at := b] == Overwrite(now, at, Repeat(b, 1))
  {
  }

  /** k more bytes have been set. */
  lemma FillMore(was: seq<byte>, s: nat, b: byte, i: nat, k: nat)
    requires s + i + k <= |was|
    ensures Overwrite(Overwrite(was, s, Repeat(b, i)), s + i, Repeat(b, k)) == Overwrite(was, s, Repeat(b, i + k))
  {
  }

  lemma FillNone(was: seq<byte>, s: nat, b: byte)
    requires s <= |was|
    ensures Overwrite(was, s, Repeat(b, 0)) == was
  {
  }

  method Memset(a: array<byte>, base: nat, s: nat, c: int, n: nat)
    requires s + n <= a.Length
    modifies a
    ensures a[..] == Overwrite(old(a[..]), s, Repeat(Byte(c), n))
  {
    hide Byte, LeBytes, Misalign, Overwrite, Repeat;
    ghost var was := a[..];
    FillNone(was, s, Byte(c));
    var mem: nat, left: nat := s, n;
    // Byte by byte until word aligned.
    while Misalign(base + mem, BYTE_PER_WORD) != 0 && left > 0
      invariant s <= mem && mem + left == s + n
      invariant a[..] == Overwrite(was, s, Repeat(Byte(c), mem - s))
      decreases left
    {
      FillOne(a[..], mem, Byte(c));
      FillMore(was, s, Byte(c), mem - s, 1);
      a[mem] := Byte(c);
      mem, left := mem + 1, left - 1;
    }
    var fill := FillWord(c);
    // As many word stores as possible.
    while left > BYTE_PER_WORD - 1
      invariant s <= mem && mem + left == s + n
      invariant Misalign(base + mem, BYTE_PER_WORD) == 0 || left == 0
      invariant a[..] == Overwrite(was, s, Repeat(Byte(c), mem - s))
    {
      StoreUnit(a, base, mem, BYTE_PER_WORD, fill);
      NextAddress(base + mem, BYTE_PER_WORD);
      FillMore(was, s, Byte(c), mem - s, BYTE_PER_WORD);
      mem, left := mem + BYTE_PER_WORD, left - BYTE_PER_WORD;
    }
    // The remainder byte by byte.
    while left > 0
      invariant s <= mem && mem + left == s + n
      invariant a[..] == Overwrite(was, s, Repeat(Byte(c), mem - s))
    {
      FillOne(a[..], mem, Byte(c));
      FillMore(was, s, Byte(c), mem - s, 1);
      a[mem] := Byte(c);
      mem, left := mem + 1, left - 1;
    }
  }

  /** The byte loop used when word stores are not safe: same contract. */
  method MemsetBytewise(a: array<byte>, s: nat, c: int, n: nat)
    requires s + n <= a.Length
    modifies a
    ensures a[..] == Overwrite(old(a[..]), s, Repeat(Byte(c), n))
  {
    for i := 0 to n
      invariant a[..] == Overwrite(old(a[..]), s, Repeat(Byte(c), i))
    {
      a[s + i] := Byte(c);
    }
  }

  /** The largest access width at which both addresses have the same misalignment. */
  method CopyUnit(d: nat, s: nat) returns (u: nat)
    ensures IsUnit(u) && d % u == s % u
    ensures forall v: nat :: IsUnit(v) && d % v == s % v ==> v <= u
  {
    hide Misalign;
    forall v: nat, x: nat | IsUnit(v)
      ensures Misalign(x, v) == x % v
    {
      MisalignIsRemainder(x, v);
    }
    u := BYTE_PER_WORD;
    while true
      invariant IsUnit(u)
      invariant forall v: nat :: IsUnit(v) && v > u ==> Misalign(d, v) != Misalign(s, v)
      decreases u
    {
      var rs, rd := Misalign(s, u), Misalign(d, u);
      if rs == rd { break; }
      if u == 1 { break; }
      u := u / 2;
    }
  }

  /** Source and destination must not overlap (the C parameters are restrict). */
  ghost predicate NoOverlap(dst: array<byte>, d: nat, src: array<byte>, s: nat, n: nat) {
    dst == src ==> d + n <= s || s + n <= d
  }

  /** now is was with the first j bytes of data copied over it from position d0 on. */
  ghost predicate IsCopy(now: seq<byte>, was: seq<byte>, d0: nat, data: seq<byte>, j: nat) {
    && |now| == |was| && d0 + |data| <= |was| && j <= |data|
    && forall i :: 0 <= i < |was| ==> now[i] == if d0 <= i < d0 + j then data[i - d0] else was[i]
  }

  /** k more bytes have been copied. */
  lemma CopyMore(now: seq<byte>, after: seq<byte>, was: seq<byte>, d0: nat, data: seq<byte>, j: nat, k: nat)
    requires IsCopy(now, was, d0, data, j) && j + k <= |data| && after == Overwrite(now, d0 + j, data[j..j + k])
    ensures IsCopy(after, was, d0, data, j + k)
  {
  }

  /** The first j bytes of data, which src holds from s0 on, have been copied over was. */
  ghost predicate Copied(dst: array<byte>, was: seq<byte>, d0: nat, src: array<byte>, s0: nat, data: seq<byte>, j: nat)
    reads dst, src
  {
    && s0 + |data| <= src.Length && NoOverlap(dst, d0, src, s0, |data|)
    && src[s0..s0 + |data|] == data && IsCopy(dst[..], was, d0, data, j)
  }

  method Memcpy(dst: array<byte>, dBase: nat, d0: nat, src: array<byte>, sBase: nat, s0: nat, n0: nat)
    requires d0 + n0 <= dst.Length && s0 + n0 <= src.Length
    requires NoOverlap(dst, d0, src, s0, n0)
    modifies dst
    ensures dst[..] == Overwrite(old(dst[..]), d0, old(src[s0..s0 + n0]))
  {
    hide IsCopy, IsUnit, Misalign, Overwrite;
    ghost var was, data := dst[..], src[s0..s0 + n0];
    CopyNone(was, d0, data);
    var k: nat := 0;
    var unit := CopyUnit(dBase + d0, sBase + s0);
    MisalignIsRemainder(dBase + d0, unit);
    MisalignIsRemainder(sBase + s0, unit);
    // Byte by byte until unit aligned.
    while Misalign(dBase + d0 + k, unit) != 0 && n0 - k > 0
      invariant k <= n0
      invariant Misalign(dBase + d0 + k, unit) == Misalign(sBase + s0 + k, unit)
      invariant Copied(dst, was, d0, src, s0, data, k)
      decreases n0 - k
    {
      OneIsUnit(dBase + d0 + k);
      OneIsUnit(sBase + s0 + k);
      CopyOne(dst, dBase, d0, src, sBase, s0, k, 1, was, data);
      NextAddress(dBase + d0 + k, unit);
      NextAddress(sBase + s0 + k, unit);
      k := k + 1;
    }
    k := CopyUnits(dst, dBase, d0, src, sBase, s0, k, n0, unit, was, data);
    // The remainder byte by byte.
    while n0 - k > 0
      invariant k <= n0
      invariant Copied(dst, was, d0, src, s0, data, k)
    {
      OneIsUnit(dBase + d0 + k);
      OneIsUnit(sBase + s0 + k);
      CopyOne(dst, dBase, d0, src, sBase, s0, k, 1, was, data);
      k := k + 1;
    }
    CopyAll(dst[..], was, d0, data);
  }

  /** Bytes are always aligned. */
  lemma OneIsUnit(x: nat)
    ensures IsUnit(1) && Misalign(x, 1) == 0
  {
  }

  lemma CopyNone(was: seq<byte>, d0: nat, data: seq<byte>)
    requires d0 + |data| <= |was|
    ensures IsCopy(was, was, d0, data, 0)
  {
  }

  lemma CopyAll(now: seq<byte>, was: seq<byte>, d0: nat, data: seq<byte>)
    requires IsCopy(now, was, d0, data, |data|)
    ensures d0 + |data| <= |was| && now == Overwrite(was, d0, data)
  {
  }

  /** Unit by unit as long as possible, from the k0-th byte on. */
  method CopyUnits(dst: array<byte>, dBase: nat, d0: nat, src: array<byte>, sBase: nat, s0: nat,
                   k0: nat, n0: nat, unit: nat, ghost was: seq<byte>, ghost data: seq<byte>) returns (k: nat)
    requires IsUnit(unit) && k0 <= n0 == |data|
    requires k0 < n0 ==> Misalign(dBase + d0 + k0, unit) == 0 && Misalign(sBase + s0 + k0, unit) == 0
    requires Copied(dst, was, d0, src, s0, data, k0)
    modifies dst
    ensures n0 - unit < k <= n0
    ensures Copied(dst, was, d0, src, s0, data, k)
  {
    k := k0;
    while n0 - k > unit - 1
      invariant k <= n0
      invariant k < n0 ==> Misalign(dBase + d0 + k, unit) == 0 && Misalign(sBase + s0 + k, unit) == 0
      invariant Copied(dst, was, d0, src, s0, data, k)
    {
      match unit {
        case 8 => CopyOne(dst, dBase, d0, src, sBase, s0, k, 8, was, data);
        case 4 => CopyOne(dst, dBase, d0, src, sBase, s0, k, 4, was, data);
        case 2 => CopyOne(dst, dBase, d0, src, sBase, s0, k, 2, was, data);
        case 1 => CopyOne(dst, dBase, d0, src, sBase, s0, k, 1, was, data);
        case _ => assert false;  // the abort of the source is unreachable
      }
      NextAddress(dBase + d0 + k, unit);
      NextAddress(sBase + s0 + k, unit);
      k := k + unit;
    }
  }

  /** One load and one store of a unit, the k-th byte of the copy and the following ones. */
  method CopyOne(dst: array<byte>, dBase: nat, d0: nat, src: array<byte>, sBase: nat, s0: nat,
                 k: nat, unit: nat, ghost was: seq<byte>, ghost data: seq<byte>)
    requires IsUnit(unit) && k + unit <= |data|
    requires Misalign(dBase + d0 + k, unit) == 0 && Misalign(sBase + s0 + k, unit) == 0
    requires Copied(dst, was, d0, src, s0, data, k)
    modifies dst
    ensures Copied(dst, was, d0, src, s0, data, k + unit)
  {
    hide IsCopy, LeBytes, LeValue, Misalign, Overwrite;
    ghost var now, chunk := dst[..], data[k..k + unit];
    SliceOfSlice(src[..], s0, |data|, k, unit);
    LoadThenStore(chunk);
    CopyFits(now, was, d0, data, k);
    if dst == src {
      OverwriteElsewhere(now, d0 + k, chunk, s0, s0 + |data|);
    }
    var w := LoadUnit(src, sBase, s0 + k, unit);
    StoreUnit(dst, dBase, d0 + k, unit, w);
    CopyMore(now, dst[..], was, d0, data, k, unit);
  }

  lemma SliceOfSlice(s: seq<byte>, lo: nat, n: nat, k: nat, u: nat)
    requires lo + n <= |s| && k + u <= n
    ensures s[lo..lo + n][k..k + u] == s[lo + k..lo + k + u]
  {
    var t := s[lo..lo + n];
    var x, y := t[k..k + u], s[lo + k..lo + k + u];
    forall i | 0 <= i < u
      ensures x[i] == y[i]
    {
      assert x[i] == t[k + i] == s[lo + k + i];
    }
  }

  lemma CopyFits(now: seq<byte>, was: seq<byte>, d0: nat, data: seq<byte>, j: nat)
    requires IsCopy(now, was, d0, data, j)
    ensures |now| == |was| && d0 + |data| <= |was|
  {
  }

  /** memcpy between objects that may lie anywhere in memory. */
  method Copy(dst: array<byte>, d: nat, src: array<byte>, s: nat, n: nat)
    requires d + n <= dst.Length && s + n <= src.Length
    requires NoOverlap(dst, d, src, s, n)
    modifies dst
    ensures dst[..] == Overwrite(old(dst[..]), d, old(src[s..s + n]))
  {
    var dBase: nat, sBase: nat := *, *;
    Memcpy(dst, dBase, d, src, sBase, s, n);
  }

  /** memset of an object that may lie anywhere in memory. */
  method Fill(a: array<byte>, s: nat, c: int, n: nat)
    requires s + n <= a.Length
    modifies a
    ensures a[..] == Overwrite(old(a[..]), s, Repeat(Byte(c), n))
  {
    var base: nat := *;
    Memset(a, base, s, c, n);
  }

  /** The byte loop used when word copies are not safe: same contract. */
  method MemcpyBytewise(dst: array<byte>, d: nat, src: array<byte>, s: nat, n: nat)
    requires d + n <= dst.Length && s + n <= src.Length
    requires NoOverlap(dst, d, src, s, n)
    modifies dst
    ensures dst[..] == Overwrite(old(dst[..]), d, old(src[s..s + n]))
  {
    ghost var data := src[s..s + n];
    for i := 0 to n
      invariant src[s..s + n] == data
      invariant dst[..] == Overwrite(old(dst[..]), d, data[..i])
    {
      assert src[s + i] == src[s..s + n][i];
      dst[d + i] := src[s + i];
    }
    assert data[..n] == data;
  }

  /** The part of a buffer that a string function looks at: up to and including the first NUL. */
  function UpToNul(s: seq<byte>): (r: seq<byte>)
    ensures r <= s && (|r| < |s| ==> |r| > 0 && r[|r| - 1] == 0)
    ensures forall i :: 0 <= i < |r| - 1 ==> r[i] != 0
  {
    if |s| == 0 then [] else if s[0] == 0 then [s[0]] else [s[0]] + UpToNul(s[1..])
  }

  function Take(s: seq<byte>, n: nat): seq<byte> {
    if n <= |s| then s[..n] else s
  }

  lemma TakeAll(s: seq<byte>)
    ensures Take(s, |s|) == s
  {
  }

  /** The difference of two characters as unsigned char. */
  function Difference(x: byte, y: byte): (r: int)
    ensures (r == 0 <==> x == y) && (r < 0 <==> x < y)
    ensures -256 < r < 256
  {
    x as int - y as int
  }

  /** a and b agree on their first i bytes, none of which is NUL. */
  ghost predicate SameSoFar(a: seq<byte>, b: seq<byte>, i: nat) {
    i <= |a| && i <= |b| && forall j :: 0 <= j < i ==> a[j] == b[j] != 0
  }

  ghost predicate FirstDifference(a: seq<byte>, b: seq<byte>, i: nat) {
    i < |a| && i < |b| && SameSoFar(a, b, i) && a[i] != b[i]
  }

  lemma {:induction false} SamePrefix(a: seq<byte>, b: seq<byte>, i: nat)
    requires i < |a| && i < |b| && SameSoFar(a, b, i)
    ensures a[i] != b[i] ==> UpToNul(a) != UpToNul(b)
    ensures a[i] == 0 && b[i] == 0 ==> UpToNul(a) == UpToNul(b)
  {
    if i == 0 {
    } else {
      SamePrefix(a[1..], b[1..], i - 1);
      assert UpToNul(a)[1..] == UpToNul(a[1..]) && UpToNul(b)[1..] == UpToNul(b[1..]);
    }
  }

  /** a is less than b if its first byte that differs from b's is the smaller one, as unsigned char. */
  ghost predicate Less(a: seq<byte>, b: seq<byte>, n: nat) {
    exists i: nat :: FirstDifference(a, b, i) && i < n && a[i] < b[i]
  }

  lemma FirstDifferenceIsOne(a: seq<byte>, b: seq<byte>, i: nat, j: nat)
    requires FirstDifference(a, b, i) && FirstDifference(a, b, j)
    ensures i == j
  {
  }

  /** The sign of the first difference decides the order. */
  lemma SignIsOrder(a: seq<byte>, b: seq<byte>, n: nat, i: nat)
    requires FirstDifference(a, b, i) && i < n
    ensures a[i] < b[i] <==> Less(a, b, n)
    ensures b[i] < a[i] <==> Less(b, a, n)
  {
    assert FirstDifference(b, a, i);
    forall j: nat | FirstDifference(a, b, j) || FirstDifference(b, a, j)
      ensures j == i
    {
      if FirstDifference(a, b, j) {
        FirstDifferenceIsOne(a, b, i, j);
      } else {
        FirstDifferenceIsOne(b, a, i, j);
      }
    }
  }

  /** Equality of C strings, and otherwise their order and the difference of the first bytes that differ. */
  method Strcmp(a: seq<byte>, b: seq<byte>) returns (r: int)
    requires 0 in a && 0 in b
    ensures r == 0 <==> UpToNul(a) == UpToNul(b)
    ensures r != 0 ==> exists i: nat :: FirstDifference(a, b, i) && r == a[i] as int - b[i] as int
    ensures (r < 0 <==> Less(a, b, |a|)) && (r > 0 <==> Less(b, a, |a|))
  {
    hide Difference, Less, Take, UpToNul;
    ghost var na :| 0 <= na < |a| && a[na] == 0;
    ghost var nb :| 0 <= nb < |b| && b[nb] == 0;
    var i := 0;
    while true
      invariant 0 <= i <= na && i <= nb && SameSoFar(a, b, i)
      decreases na - i
    {
      SamePrefix(a, b, i);
      if a[i] != b[i] {
        Decided(a, b, |a|, i);
        return Difference(a[i], b[i]);
      }
      if a[i] == 0 {
        Decided(a, b, |a|, i);
        return 0;
      }
      i := i + 1;
    }
  }

  /**
   Comparison of at most n bytes. It stops at a NUL, so a result of 0 speaks only
   of the bytes up to the first NUL (load_elf compares digests with it).
   */
  method Strncmp(a: seq<byte>, b: seq<byte>, n: nat) returns (r: int)
    requires (n <= |a| || 0 in a) && (n <= |b| || 0 in b)
    ensures r == 0 <==> UpToNul(Take(a, n)) == UpToNul(Take(b, n))
    ensures r != 0 ==> exists i: nat :: FirstDifference(a, b, i) && i < n && r == a[i] as int - b[i] as int
    ensures (r < 0 <==> Less(a, b, n)) && (r > 0 <==> Less(b, a, n))
  {
    hide Difference, SameSoFar, Take, UpToNul;
    NothingCompared(a, b);
    for i := 0 to n
      invariant SameSoFar(a, b, i)
    {
      NextCompared(a, b, n, i);
      var diff := Difference(a[i], b[i]);
      if diff != 0 || a[i] == 0 {
        Decided(a, b, n, i);
        return diff;
      }
    }
    AllCompared(a, b, n);
    EqualNotLess(a, b, n);
    return 0;
  }

  lemma NothingCompared(a: seq<byte>, b: seq<byte>)
    ensures SameSoFar(a, b, 0)
  {
  }

  /** What comparing byte i decides. */
  lemma NextCompared(a: seq<byte>, b: seq<byte>, n: nat, i: nat)
    requires (n <= |a| || 0 in a) && (n <= |b| || 0 in b) && i < n && SameSoFar(a, b, i)
    ensures i < |a| && i < |b|
    ensures a[i] != b[i] ==> UpToNul(Take(a, n)) != UpToNul(Take(b, n))
    ensures a[i] == b[i] == 0 ==> UpToNul(Take(a, n)) == UpToNul(Take(b, n))
    ensures a[i] == b[i] != 0 ==> SameSoFar(a, b, i + 1)
  {
    hide UpToNul;
    assert i < |a| && i < |b|;
    SamePrefix(Take(a, n), Take(b, n), i);
  }

  /** What the result says if the comparison ends at byte i. */
  lemma Decided(a: seq<byte>, b: seq<byte>, n: nat, i: nat)
    requires (n <= |a| || 0 in a) && (n <= |b| || 0 in b) && i < n && SameSoFar(a, b, i) && i < |a| && i < |b|
    requires a[i] != b[i] || a[i] == 0
    ensures var r := Difference(a[i], b[i]);
      && r == a[i] as int - b[i] as int && (r != 0 ==> FirstDifference(a, b, i))
      && (r < 0 <==> Less(a, b, n)) && (r > 0 <==> Less(b, a, n))
  {
    hide SameSoFar;
    NextCompared(a, b, n, i);
    if a[i] != b[i] {
      SignIsOrder(a, b, n, i);
    } else {
      EqualNotLess(a, b, n);
    }
  }

  lemma EqualNotLess(a: seq<byte>, b: seq<byte>, n: nat)
    requires (n <= |a| || 0 in a) && (n <= |b| || 0 in b)
    requires UpToNul(Take(a, n)) == UpToNul(Take(b, n))
    ensures !Less(a, b, n) && !Less(b, a, n)
  {
    hide SameSoFar, Take, UpToNul;
    forall i: nat | i < n
      ensures !FirstDifference(a, b, i) && !FirstDifference(b, a, i)
    {
      if SameSoFar(a, b, i) {
        NextCompared(a, b, n, i);
      }
      if SameSoFar(b, a, i) {
        NextCompared(b, a, n, i);
      }
    }
  }

  lemma AllCompared(a: seq<byte>, b: seq<byte>, n: nat)
    requires SameSoFar(a, b, n)
    ensures Take(a, n) == Take(b, n)
  {
  }

  /**
   Comparing two buffers of the same length with strncmp decides their equality
   exactly when the first has no zero byte before its last byte.
   */
  lemma ComparisonIsExact(a: seq<byte>)
    requires |a| > 0
    ensures (forall b: seq<byte> :: |b| == |a| && UpToNul(a) == UpToNul(b) ==> a == b) <==> 0 !in a[..|a| - 1]
  {
    if 0 in a[..|a| - 1] {
      var b := AnotherMatch(a);
    } else {
      assert UpToNul(a) == a;
    }
  }

  lemma AnotherMatch(a: seq<byte>) returns (b: seq<byte>)
    requires |a| > 0 && 0 in a[..|a| - 1]
    ensures |b| == |a| && UpToNul(a) == UpToNul(b) && a != b
  {
    var last := |a| - 1;
    var z: nat :| z < last && a[z] == 0;
    b := a[last := if a[last] == 0 then 1 else 0];
    SharedUpToNul(a, b, z);
    assert b[last] != a[last];
  }

  lemma {:induction false} SharedUpToNul(a: seq<byte>, b: seq<byte>, z: nat)
    requires z < |a| && z < |b| && a[..z + 1] == b[..z + 1] && a[z] == 0
    ensures UpToNul(a) == UpToNul(b)
  {
    assert a[0] == a[..z + 1][0] && b[0] == b[..z + 1][0];
    if a[0] == 0 {
    } else {
      assert a[1..][..z] == a[..z + 1][1..] && b[1..][..z] == b[..z + 1][1..];
      SharedUpToNul(a[1..], b[1..], z - 1);
    }
  }
}
