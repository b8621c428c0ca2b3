/**
 The two ELF loaders: unpack_elf_to_paddr (src/common.c), which zeroes the whole
 region first, and elf_loadFile (src/binaries/elf/elf.c), which zeroes the tail
 of each segment. Physical memory is an array indexed by address.
 */
module ElfLoad {
  import opened Addresses
  import opened Bytes
  import opened Elf
  import opened Strings

  /** The image size as size_t. */
  function ImageSize(elf: ElfFile): nat {
    var (lo, hi) := Bounds(elf.phdrs, false);
    Trunc((hi - lo) % U64_MOD)
  }

  /** Where unpack_elf_to_paddr puts the file part of a header. */
  function Dest(elf: ElfFile, h: Phdr, dest: nat): nat {
    Trunc(dest + h.vaddr - Bounds(elf.phdrs, false).0)
  }

  /** Where the file part of a header lies in memory. */
  function Source(elf: ElfFile, h: Phdr): nat {
    Trunc(elf.base + h.offset)
  }

  function FileLen(h: Phdr): nat {
    Trunc(h.filesz)
  }

  /** Two ranges of addresses have no address in common. */
  predicate Apart(a: nat, n: nat, b: nat, m: nat) {
    n == 0 || m == 0 || a + n <= b || b + m <= a
  }

  /** Address a belongs to the ELF header or to the program header table. */
  predicate InHeaders(elf: ElfFile, a: nat) {
    || elf.base <= a < elf.base + elf.ehsize
    || elf.base + elf.phoff <= a < elf.base + elf.phoff + TableLen(elf)
  }

  predicate HeadersWithin(elf: ElfFile, lo: nat, hi: nat) {
    && lo <= elf.base && elf.base + elf.ehsize <= hi
    && elf.base + elf.phoff + TableLen(elf) <= hi
  }

  /** The n bytes from address a on hold nothing of the headers. */
  predicate HeadersMiss(elf: ElfFile, a: nat, n: nat) {
    && Apart(elf.base, elf.ehsize, a, n)
    && Apart(elf.base + elf.phoff, TableLen(elf), a, n)
  }

  lemma HeadersMissIff(elf: ElfFile, a: nat, n: nat)
    ensures HeadersMiss(elf, a, n) <==> forall b: nat :: a <= b < a + n ==> !InHeaders(elf, b)
  {
    if !HeadersMiss(elf, a, n) {
      var at, len := elf.base, elf.ehsize;
      if Apart(at, len, a, n) {
        at, len := elf.base + elf.phoff, TableLen(elf);
      }
      var b := if at < a then a else at;
      assert InHeaders(elf, b);
    }
  }

  /** Every access to a segment is inside a memory of `size` bytes, and no segment is overwritten before it is read. */
  ghost predicate UnpackFits(size: nat, elf: ElfFile, dest: nat) {
    var hs := elf.phdrs;
    && elf.valid && size <= WORD_MOD && dest + ImageSize(elf) <= size
    && (forall i :: 0 <= i < |hs| && hs[i].kind == PT_LOAD ==>
          && Dest(elf, hs[i], dest) + FileLen(hs[i]) <= size
          && Source(elf, hs[i]) + FileLen(hs[i]) <= size
          && Apart(Source(elf, hs[i]), FileLen(hs[i]), dest, ImageSize(elf)))
    && (forall i, j :: 0 <= i < |hs| && 0 <= j < |hs| && hs[i].kind == PT_LOAD && hs[j].kind == PT_LOAD ==>
          Apart(Source(elf, hs[i]), FileLen(hs[i]), Dest(elf, hs[j], dest), FileLen(hs[j])))
  }

  /** No write reaches the headers, which the loader reads again on every turn. */
  ghost predicate UnpackSpares(elf: ElfFile, dest: nat) {
    && HeadersMiss(elf, dest, ImageSize(elf))
    && forall h :: h in elf.phdrs && h.kind == PT_LOAD ==> HeadersMiss(elf, Dest(elf, h, dest), FileLen(h))
  }

  /** Every access of the loader is inside memory, and it does not overwrite what it still has to read. */
  ghost predicate UnpackSafe(size: nat, elf: ElfFile, dest: nat) {
    UnpackFits(size, elf, dest) && HeadersWithin(elf, 0, size) && UnpackSpares(elf, dest)
  }

  ghost predicate SameHeaders(elf: ElfFile, m: seq<byte>, m': seq<byte>) {
    |m| == |m'| && forall a: nat :: a < |m| && InHeaders(elf, a) ==> m[a] == m'[a]
  }

  /** Which means that the ELF header and the program header table are the same, byte for byte. */
  lemma SameHeadersIff(elf: ElfFile, m: seq<byte>, m': seq<byte>)
    requires |m| == |m'| && HeadersWithin(elf, 0, |m|)
    ensures elf.base + elf.ehsize <= |m| && elf.base + elf.phoff + elf.phentsize * |elf.phdrs| <= |m|
    ensures var at, n, table, len := elf.base, elf.ehsize, elf.base + elf.phoff, elf.phentsize * |elf.phdrs|;
      SameHeaders(elf, m, m') <==> m[at..at + n] == m'[at..at + n] && m[table..table + len] == m'[table..table + len]
  {
    var at, n, table, len := elf.base, elf.ehsize, elf.base + elf.phoff, elf.phentsize * |elf.phdrs|;
    if m[at..at + n] == m'[at..at + n] && m[table..table + len] == m'[table..table + len] {
      forall a: nat | a < |m| && InHeaders(elf, a)
        ensures m[a] == m'[a]
      {
        assert at <= a < at + n ==> m[at..at + n][a - at] == m'[at..at + n][a - at];
        assert table <= a < table + len ==> m[table..table + len][a - table] == m'[table..table + len][a - table];
      }
    }
  }

  /** Memory after the first n headers have been handled. */
  ghost function Unpacked(m: seq<byte>, elf: ElfFile, dest: nat, n: nat): (r: seq<byte>)
    requires UnpackFits(|m|, elf, dest) && n <= |elf.phdrs|
    ensures |r| == |m|
  {
    if n == 0 then Overwrite(m, dest, Repeat(0, ImageSize(elf)))
    else
      var before, h := Unpacked(m, elf, dest, n - 1), elf.phdrs[n - 1];
      if h.kind != PT_LOAD then before
      else Overwrite(before, Dest(elf, h, dest), m[Source(elf, h)..Source(elf, h) + FileLen(h)])
  }

  /** Address a belongs to the file part of loadable header i. */
  ghost predicate Covers(elf: ElfFile, dest: nat, i: nat, a: nat) {
    i < |elf.phdrs| && elf.phdrs[i].kind == PT_LOAD
    && Dest(elf, elf.phdrs[i], dest) <= a < Dest(elf, elf.phdrs[i], dest) + FileLen(elf.phdrs[i])
  }

  /** The byte of the file that header i has for address a. */
  ghost function FileByte(m: seq<byte>, elf: ElfFile, dest: nat, i: nat, a: nat): byte
    requires UnpackFits(|m|, elf, dest) && Covers(elf, dest, i, a)
  {
    m[Source(elf, elf.phdrs[i]) + (a - Dest(elf, elf.phdrs[i], dest))]
  }

  /** Each byte comes from the last header that covers it, */
  lemma {:induction false} CoveredByte(m: seq<byte>, elf: ElfFile, dest: nat, n: nat, i: nat, a: nat)
    requires UnpackFits(|m|, elf, dest) && i < n <= |elf.phdrs|
    requires Covers(elf, dest, i, a) && forall j: nat :: i < j < n ==> !Covers(elf, dest, j, a)
    ensures Unpacked(m, elf, dest, n)[a] == FileByte(m, elf, dest, i, a)
  {
    hide Dest, FileLen, ImageSize, Source;
    if i == n - 1 {
    } else {
      CoveredByte(m, elf, dest, n - 1, i, a);
      assert !Covers(elf, dest, n - 1, a);
    }
  }

  /** or else is zero in the region of the image and as before outside. */
  lemma {:induction false} UncoveredByte(m: seq<byte>, elf: ElfFile, dest: nat, n: nat, a: nat)
    requires UnpackFits(|m|, elf, dest) && n <= |elf.phdrs| && a < |m|
    requires forall i: nat :: i < n ==> !Covers(elf, dest, i, a)
    ensures Unpacked(m, elf, dest, n)[a] == if dest <= a < dest + ImageSize(elf) then 0 else m[a]
  {
    hide Dest, FileLen, ImageSize, Source;
    if n == 0 {
    } else {
      UncoveredByte(m, elf, dest, n - 1, a);
      assert !Covers(elf, dest, n - 1, a);
    }
  }

  /** The file is not touched while it is read. */
  lemma SourceKept(m: seq<byte>, elf: ElfFile, dest: nat, n: nat, i: nat)
    requires UnpackFits(|m|, elf, dest) && n <= |elf.phdrs| && i < |elf.phdrs| && elf.phdrs[i].kind == PT_LOAD
    ensures var s, len := Source(elf, elf.phdrs[i]), FileLen(elf.phdrs[i]);
      Unpacked(m, elf, dest, n)[s..s + len] == m[s..s + len]
  {
    var s, len := Source(elf, elf.phdrs[i]), FileLen(elf.phdrs[i]);
    forall a | s <= a < s + len
      ensures Unpacked(m, elf, dest, n)[a] == m[a]
    {
      assert forall j: nat :: j < n ==> !Covers(elf, dest, j, a);
      UncoveredByte(m, elf, dest, n, a);
    }
  }

  /** On every turn the headers are those of the file. */
  lemma UnpackKeepsHeaders(m: seq<byte>, elf: ElfFile, dest: nat, n: nat)
    requires UnpackSafe(|m|, elf, dest) && n <= |elf.phdrs|
    ensures SameHeaders(elf, m, Unpacked(m, elf, dest, n))
  {
    hide Dest, FileLen, HeadersMiss, ImageSize, InHeaders, Unpacked;
    forall a: nat | a < |m| && InHeaders(elf, a)
      ensures Unpacked(m, elf, dest, n)[a] == m[a]
    {
      HeadersMissIff(elf, dest, ImageSize(elf));
      forall j: nat | j < n
        ensures !Covers(elf, dest, j, a)
      {
        HeadersMissIff(elf, Dest(elf, elf.phdrs[j], dest), FileLen(elf.phdrs[j]));
      }
      UncoveredByte(m, elf, dest, n, a);
    }
  }

  /** Some memory loses a header byte that a write reaches. */
  lemma UnpackLosesHeader(size: nat, elf: ElfFile, dest: nat, a: nat) returns (m: seq<byte>)
    requires UnpackFits(size, elf, dest) && a < size
    requires dest <= a < dest + ImageSize(elf) || exists i: nat :: Covers(elf, dest, i, a)
    ensures |m| == size && Unpacked(m, elf, dest, |elf.phdrs|)[a] != m[a]
  {
    var n := |elf.phdrs|;
    m := seq(size, b => if b == a then 1 else 0);
    if i: nat :| Covers(elf, dest, i, a) {
      var last := LastCover(elf, dest, n, i, a);
      CoveredByte(m, elf, dest, n, last, a);
    } else {
      UncoveredByte(m, elf, dest, n, a);
    }
  }

  /** The headers survive, whatever memory holds, exactly when no write reaches them. */
  lemma HeadersSurviveUnpackIff(size: nat, elf: ElfFile, dest: nat)
    requires UnpackFits(size, elf, dest) && HeadersWithin(elf, 0, size)
    ensures (forall m: seq<byte> :: |m| == size ==> SameHeaders(elf, m, Unpacked(m, elf, dest, |elf.phdrs|)))
       <==> UnpackSpares(elf, dest)
  {
    hide Dest, FileLen, HeadersMiss, ImageSize, InHeaders, Unpacked;
    if UnpackSpares(elf, dest) {
      forall m: seq<byte> | |m| == size
        ensures SameHeaders(elf, m, Unpacked(m, elf, dest, |elf.phdrs|))
      {
        UnpackKeepsHeaders(m, elf, dest, |elf.phdrs|);
      }
    } else {
      var a := ReachedHeader(size, elf, dest);
      var m := UnpackLosesHeader(size, elf, dest, a);
      assert !SameHeaders(elf, m, Unpacked(m, elf, dest, |elf.phdrs|));
    }
  }

  lemma ReachedHeader(size: nat, elf: ElfFile, dest: nat) returns (a: nat)
    requires UnpackFits(size, elf, dest) && !UnpackSpares(elf, dest)
    ensures a < size && InHeaders(elf, a)
    ensures dest <= a < dest + ImageSize(elf) || exists i: nat :: Covers(elf, dest, i, a)
  {
    hide Dest, FileLen, HeadersMiss, ImageSize, InHeaders;
    if !HeadersMiss(elf, dest, ImageSize(elf)) {
      HeadersMissIff(elf, dest, ImageSize(elf));
      a :| dest <= a < dest + ImageSize(elf) && InHeaders(elf, a);
    } else {
      var i :| 0 <= i < |elf.phdrs| && elf.phdrs[i].kind == PT_LOAD
        && !HeadersMiss(elf, Dest(elf, elf.phdrs[i], dest), FileLen(elf.phdrs[i]));
      var d, n := Dest(elf, elf.phdrs[i], dest), FileLen(elf.phdrs[i]);
      HeadersMissIff(elf, d, n);
      a :| d <= a < d + n && InHeaders(elf, a);
      assert Covers(elf, dest, i, a);
    }
  }

  method UnpackElfToPaddr(mem: array<byte>, elf: ElfFile, dest: nat)
    requires UnpackSafe(mem.Length, elf, dest)
    modifies mem
    ensures mem[..] == Unpacked(old(mem[..]), elf, dest, |elf.phdrs|)
    ensures SameHeaders(elf, old(mem[..]), mem[..])
  {
    hide Bounds, HeadersWithin, Overwrite, SameHeaders, Trunc, UnpackSpares;
    ghost var was := mem[..];
    var bounds := GetMemoryBounds(elf, false);
    var (minVaddr, maxVaddr) := bounds.value;
    var imageSize := Trunc((maxVaddr - minVaddr) % U64_MOD);
    var physVirtOffset := Trunc(dest - Trunc(minVaddr));
    Memset(mem, 0, dest, 0, imageSize);
    UnpackKeepsHeaders(was, elf, dest, 0);
    for i := 0 to |elf.phdrs|
      invariant mem[..] == Unpacked(was, elf, dest, i)
      invariant SameHeaders(elf, was, mem[..])  // so h is still what it was
    {
      UnpackKeepsHeaders(was, elf, dest, i + 1);
      var h := elf.phdrs[i];
      if h.kind != PT_LOAD {
        continue;
      }
      var destVaddr, dataSize, dataOffset := Trunc(h.vaddr), Trunc(h.filesz), Trunc(h.offset);
      SourceKept(was, elf, dest, i, i);
      DestComputed(elf, h, dest);
      var d, s := Trunc(destVaddr + physVirtOffset), Trunc(elf.base + dataOffset);
      Memcpy(mem, 0, d, mem, 0, s, dataSize);
      assert mem[..] == Overwrite(Unpacked(was, elf, dest, i), d, was[s..s + dataSize]);
    }
  }

  lemma DestComputed(elf: ElfFile, h: Phdr, dest: nat)
    ensures var lo := Bounds(elf.phdrs, false).0;
      Trunc(Trunc(h.vaddr) + Trunc(dest - Trunc(lo))) == Dest(elf, h, dest)
    ensures Trunc(elf.base + Trunc(h.offset)) == Source(elf, h)
  {
    hide Bounds, Trunc;
    var lo := Bounds(elf.phdrs, false).0;
    TruncSum(lo, dest);
    TruncSum(dest - lo, Trunc(h.vaddr));
    TruncSum(h.vaddr, dest - lo);
    TruncSum(h.offset, elf.base);
  }

  // ---------- What unpacking achieves ----------

  ghost predicate IsImage(m: seq<byte>, r: seq<byte>, elf: ElfFile, dest: nat)
    requires UnpackFits(|m|, elf, dest) && |r| == |m|
  {
    && (forall i: nat, a: nat :: Covers(elf, dest, i, a) ==> r[a] == FileByte(m, elf, dest, i, a))
    && (forall a: nat :: a < |m| && (forall i: nat :: !Covers(elf, dest, i, a)) ==>
          r[a] == if dest <= a < dest + ImageSize(elf) then 0 else m[a])
  }

  /** Loadable headers that cover the same address have the same byte for it. */
  ghost predicate Consistent(m: seq<byte>, elf: ElfFile, dest: nat)
    requires UnpackFits(|m|, elf, dest)
  {
    forall i: nat, j: nat, a: nat :: Covers(elf, dest, i, a) && Covers(elf, dest, j, a) ==>
      FileByte(m, elf, dest, i, a) == FileByte(m, elf, dest, j, a)
  }

  /**
   Every loadable segment ends up in memory byte for byte, the rest of the region
   is zero and nothing else changes, exactly when overlapping segments agree.
   */
  lemma ImageIffConsistent(m: seq<byte>, elf: ElfFile, dest: nat)
    requires UnpackFits(|m|, elf, dest)
    ensures IsImage(m, Unpacked(m, elf, dest, |elf.phdrs|), elf, dest) <==> Consistent(m, elf, dest)
  {
    var n := |elf.phdrs|;
    var r := Unpacked(m, elf, dest, n);
    if Consistent(m, elf, dest) {
      forall i: nat, a: nat | Covers(elf, dest, i, a)
        ensures r[a] == FileByte(m, elf, dest, i, a)
      {
        var last := LastCover(elf, dest, n, i, a);
        CoveredByte(m, elf, dest, n, last, a);
      }
      forall a: nat | a < |m| && (forall i: nat :: !Covers(elf, dest, i, a))
        ensures r[a] == if dest <= a < dest + ImageSize(elf) then 0 else m[a]
      {
        UncoveredByte(m, elf, dest, n, a);
      }
    }
  }

  lemma LastCover(elf: ElfFile, dest: nat, n: nat, i: nat, a: nat) returns (last: nat)
    requires i < n && Covers(elf, dest, i, a)
    ensures i <= last < n && Covers(elf, dest, last, a)
    ensures forall j: nat :: last < j < n ==> !Covers(elf, dest, j, a)
  {
    if Covers(elf, dest, n - 1, a) {
      last := n - 1;
    } else {
      last := LastCover(elf, dest, n - 1, i, a);
    }
  }

  /** What a well-formed file looks like to the virtual-address loader: no wrap, and no more file bytes than memory. */
  ghost predicate WellFormed(elf: ElfFile) {
    NoWrap(elf.phdrs, false) && forall i :: 0 <= i < |elf.phdrs| ==> elf.phdrs[i].filesz <= elf.phdrs[i].memsz
  }

  /** A segment keeps its place relative to the image, and lies inside the region. */
  lemma SegmentInRegion(size: nat, elf: ElfFile, dest: nat, i: nat)
    requires UnpackFits(size, elf, dest) && WellFormed(elf) && i < |elf.phdrs| && elf.phdrs[i].memsz != 0
    requires Bounds(elf.phdrs, false).1 - Bounds(elf.phdrs, false).0 < WORD_MOD
    ensures var h, lo := elf.phdrs[i], Bounds(elf.phdrs, false).0;
      && Dest(elf, h, dest) == dest + (h.vaddr - lo) && lo <= h.vaddr
      && Dest(elf, h, dest) + h.memsz <= dest + ImageSize(elf) && FileLen(h) == h.filesz
  {
    hide Bounds, Trunc;
    var h, b := elf.phdrs[i], Bounds(elf.phdrs, false);
    BoundsEncloseIffNoWrap(elf.phdrs, false);
    assert b.0 <= h.vaddr && h.vaddr + h.memsz <= b.1;
    hide NoWrap, Encloses;
    TruncSmall(b.1 - b.0);
    TruncSmall(h.filesz);
    TruncSmall(dest + (h.vaddr - b.0));
  }

  /** Loadable segments do not overlap; other headers, such as notes, may lie inside them. */
  ghost predicate LoadableDisjoint(elf: ElfFile) {
    var hs := elf.phdrs;
    forall i, j :: 0 <= i < |hs| && 0 <= j < |hs| && i != j && hs[i].kind == hs[j].kind == PT_LOAD ==>
      Apart(hs[i].vaddr, hs[i].memsz, hs[j].vaddr, hs[j].memsz)
  }

  lemma OnlyOwnSegmentCovers(size: nat, elf: ElfFile, dest: nat, i: nat, j: nat, k: nat)
    requires UnpackFits(size, elf, dest) && WellFormed(elf) && LoadableDisjoint(elf)
    requires Bounds(elf.phdrs, false).1 - Bounds(elf.phdrs, false).0 < WORD_MOD
    requires i < |elf.phdrs| && j < |elf.phdrs| && elf.phdrs[i].kind == PT_LOAD && k < elf.phdrs[i].memsz
    ensures Covers(elf, dest, j, Dest(elf, elf.phdrs[i], dest) + k) ==> j == i && k < elf.phdrs[i].filesz
  {
    SegmentInRegion(size, elf, dest, i);
    if elf.phdrs[j].memsz != 0 {
      SegmentInRegion(size, elf, dest, j);
    } else {
      TruncSmall(0);
    }
  }

  lemma CoversOwnMemory(size: nat, elf: ElfFile, dest: nat, i: nat, a: nat)
    requires UnpackFits(size, elf, dest) && WellFormed(elf) && Covers(elf, dest, i, a)
    requires Bounds(elf.phdrs, false).1 - Bounds(elf.phdrs, false).0 < WORD_MOD
    ensures a - Dest(elf, elf.phdrs[i], dest) < elf.phdrs[i].memsz
  {
    if elf.phdrs[i].memsz != 0 {
      SegmentInRegion(size, elf, dest, i);
    } else {
      TruncSmall(0);
    }
  }

  /** A well-formed file whose loadable segments are disjoint is loaded as it should be. */
  lemma DisjointIsImage(m: seq<byte>, elf: ElfFile, dest: nat)
    requires UnpackSafe(|m|, elf, dest) && WellFormed(elf) && LoadableDisjoint(elf)
    requires Bounds(elf.phdrs, false).1 - Bounds(elf.phdrs, false).0 < WORD_MOD
    ensures Consistent(m, elf, dest) && IsImage(m, Unpacked(m, elf, dest, |elf.phdrs|), elf, dest)
  {
    assert UnpackFits(|m|, elf, dest);
    hide Bounds, Dest, FileLen, ImageSize, IsImage, LoadableDisjoint, UnpackFits, Unpacked, WellFormed;
    forall i: nat, j: nat, a: nat | Covers(elf, dest, i, a) && Covers(elf, dest, j, a)
      ensures i == j
    {
      CoversOwnMemory(|m|, elf, dest, i, a);
      OnlyOwnSegmentCovers(|m|, elf, dest, i, j, a - Dest(elf, elf.phdrs[i], dest));
    }
    ImageIffConsistent(m, elf, dest);
  }

  /** Loading a well-formed file changes nothing outside the region of the image. */
  lemma OutsideRegionKept(m: seq<byte>, elf: ElfFile, dest: nat, a: nat)
    requires UnpackFits(|m|, elf, dest) && WellFormed(elf) && a < |m|
    requires Bounds(elf.phdrs, false).1 - Bounds(elf.phdrs, false).0 < WORD_MOD
    requires !(dest <= a < dest + ImageSize(elf))
    ensures Unpacked(m, elf, dest, |elf.phdrs|)[a] == m[a]
  {
    forall i: nat | i < |elf.phdrs|
      ensures !Covers(elf, dest, i, a)
    {
      if elf.phdrs[i].memsz != 0 {
        SegmentInRegion(|m|, elf, dest, i);
      } else {
        TruncSmall(0);
      }
    }
    UncoveredByte(m, elf, dest, |elf.phdrs|, a);
  }

  // ---------- elf_loadFile ----------

  function Place(h: Phdr, phys: bool): nat {
    Trunc(Addr(h, phys))
  }

  /** The segment and its source lie inside a memory of `size` bytes. */
  predicate Fits(size: nat, elf: ElfFile, h: Phdr, phys: bool) {
    && h.filesz <= h.memsz < WORD_MOD && Place(h, phys) + h.memsz <= size
    && Source(elf, h) + h.filesz <= size
  }

  /** Every access to a segment is inside memory, and no segment is overwritten before it is read. */
  ghost predicate LoadFits(size: nat, elf: ElfFile, phys: bool) {
    var hs := elf.phdrs;
    && size <= WORD_MOD
    && (forall i :: 0 <= i < |hs| ==> Fits(size, elf, hs[i], phys))
    && (forall i, j :: 0 <= i < |hs| && 0 <= j < |hs| ==>
          Apart(Source(elf, hs[i]), hs[i].filesz, Place(hs[j], phys), hs[j].memsz))
  }

  /** No write reaches the headers. */
  ghost predicate LoadSpares(elf: ElfFile, phys: bool) {
    forall h :: h in elf.phdrs ==> HeadersMiss(elf, Place(h, phys), h.memsz)
  }

  ghost predicate LoadSafe(size: nat, elf: ElfFile, phys: bool) {
    LoadFits(size, elf, phys) && HeadersWithin(elf, 0, size) && LoadSpares(elf, phys)
  }

  /** A segment put at address d: its data, then zeros up to its memory size. */
  ghost function PutSegment(m: seq<byte>, d: nat, data: seq<byte>, memsz: nat): (r: seq<byte>)
    requires |data| <= memsz && d + memsz <= |m|
    ensures |r| == |m|
  {
    Overwrite(Overwrite(m, d, data), d + |data|, Repeat(0, memsz - |data|))
  }

  lemma PutByte(m: seq<byte>, d: nat, data: seq<byte>, memsz: nat, a: nat)
    requires |data| <= memsz && d + memsz <= |m| && a < |m|
    ensures PutSegment(m, d, data, memsz)[a]
         == if a < d || d + memsz <= a then m[a] else if a < d + |data| then data[a - d] else 0
  {
  }

  ghost function Loaded(m: seq<byte>, elf: ElfFile, phys: bool, n: nat): (r: seq<byte>)
    requires LoadFits(|m|, elf, phys) && n <= |elf.phdrs|
    ensures |r| == |m|
  {
    if n == 0 then m
    else
      var before, h := Loaded(m, elf, phys, n - 1), elf.phdrs[n - 1];
      var s, d := Source(elf, h), Place(h, phys);
      PutSegment(before, d, m[s..s + h.filesz], h.memsz)
  }

  /** Address a belongs to the memory of header i. */
  ghost predicate Occupies(elf: ElfFile, phys: bool, i: nat, a: nat) {
    i < |elf.phdrs| && Place(elf.phdrs[i], phys) <= a < Place(elf.phdrs[i], phys) + elf.phdrs[i].memsz
  }

  /** What the n-th turn of the loop does to the byte at address a. */
  lemma LoadedNext(m: seq<byte>, elf: ElfFile, phys: bool, n: nat, a: nat)
    requires LoadFits(|m|, elf, phys) && 0 < n <= |elf.phdrs| && a < |m|
    ensures var h := elf.phdrs[n - 1];
      Loaded(m, elf, phys, n)[a] ==
        if !Occupies(elf, phys, n - 1, a) then Loaded(m, elf, phys, n - 1)[a]
        else if a - Place(h, phys) < h.filesz then m[Source(elf, h) + (a - Place(h, phys))] else 0
  {
    hide Place, PutSegment, Source;
    var before, h := Loaded(m, elf, phys, n - 1), elf.phdrs[n - 1];
    var s, d := Source(elf, h), Place(h, phys);
    PutByte(before, d, m[s..s + h.filesz], h.memsz, a);
  }

  lemma {:induction false} UnoccupiedByte(m: seq<byte>, elf: ElfFile, phys: bool, n: nat, a: nat)
    requires LoadFits(|m|, elf, phys) && n <= |elf.phdrs| && a < |m|
    requires forall i: nat :: i < n ==> !Occupies(elf, phys, i, a)
    ensures Loaded(m, elf, phys, n)[a] == m[a]
  {
    hide LoadFits, Place, Source;
    if n == 0 {
      LoadedNone(m, elf, phys);
    } else {
      UnoccupiedByte(m, elf, phys, n - 1, a);
      LoadedNext(m, elf, phys, n, a);
    }
  }

  /** Each byte comes from the last header that occupies it: its file part, then zeros. */
  lemma {:induction false} OccupiedByte(m: seq<byte>, elf: ElfFile, phys: bool, n: nat, i: nat, a: nat)
    requires LoadFits(|m|, elf, phys) && i < n <= |elf.phdrs|
    requires Occupies(elf, phys, i, a) && forall j: nat :: i < j < n ==> !Occupies(elf, phys, j, a)
    ensures var h, k := elf.phdrs[i], a - Place(elf.phdrs[i], phys);
      Loaded(m, elf, phys, n)[a] == if k < h.filesz then m[Source(elf, h) + k] else 0
  {
    hide Loaded, Place, Source;
    LoadedNext(m, elf, phys, n, a);
    if i == n - 1 {
    } else {
      OccupiedByte(m, elf, phys, n - 1, i, a);
      assert !Occupies(elf, phys, n - 1, a);
    }
  }

  lemma LoadSourceKept(m: seq<byte>, elf: ElfFile, phys: bool, n: nat, i: nat)
    requires LoadFits(|m|, elf, phys) && n <= |elf.phdrs| && i < |elf.phdrs|
    ensures var s, len := Source(elf, elf.phdrs[i]), elf.phdrs[i].filesz;
      Loaded(m, elf, phys, n)[s..s + len] == m[s..s + len]
  {
    var s, len := Source(elf, elf.phdrs[i]), elf.phdrs[i].filesz;
    forall a | s <= a < s + len
      ensures Loaded(m, elf, phys, n)[a] == m[a]
    {
      assert forall j: nat :: j < n ==> !Occupies(elf, phys, j, a);
      UnoccupiedByte(m, elf, phys, n, a);
    }
  }

  /** The addresses and lengths of the source come out as meant. */
  lemma LoadComputed(size: nat, elf: ElfFile, phys: bool, h: Phdr)
    requires LoadFits(size, elf, phys) && h in elf.phdrs
    ensures Trunc(h.filesz) == h.filesz && Trunc(h.memsz - h.filesz) == h.memsz - h.filesz
    ensures Trunc((elf.base + h.offset) % U64_MOD) == Source(elf, h)
    ensures var tail := Trunc((Addr(h, phys) + h.filesz) % U64_MOD);
      tail <= Place(h, phys) + h.filesz && (h.filesz < h.memsz ==> tail == Place(h, phys) + h.filesz)
  {
    TruncSmall(h.filesz);
    TruncSmall(h.memsz - h.filesz);
    TruncOfU64(elf.base + h.offset);
    TruncOfU64(Addr(h, phys) + h.filesz);
    TruncSum(Addr(h, phys), h.filesz);
    if Place(h, phys) + h.filesz < WORD_MOD {
      TruncSmall(Place(h, phys) + h.filesz);
    }
  }

  /** On every turn the headers are those of the file. */
  lemma LoadKeepsHeaders(m: seq<byte>, elf: ElfFile, phys: bool, n: nat)
    requires LoadSafe(|m|, elf, phys) && n <= |elf.phdrs|
    ensures SameHeaders(elf, m, Loaded(m, elf, phys, n))
  {
    hide HeadersMiss, InHeaders, Loaded, Place;
    forall a: nat | a < |m| && InHeaders(elf, a)
      ensures Loaded(m, elf, phys, n)[a] == m[a]
    {
      forall j: nat | j < n
        ensures !Occupies(elf, phys, j, a)
      {
        HeadersMissIff(elf, Place(elf.phdrs[j], phys), elf.phdrs[j].memsz);
      }
      UnoccupiedByte(m, elf, phys, n, a);
    }
  }

  lemma LastOccupant(elf: ElfFile, phys: bool, n: nat, i: nat, a: nat) returns (last: nat)
    requires i < n && Occupies(elf, phys, i, a)
    ensures i <= last < n && Occupies(elf, phys, last, a)
    ensures forall j: nat :: last < j < n ==> !Occupies(elf, phys, j, a)
  {
    if Occupies(elf, phys, n - 1, a) {
      last := n - 1;
    } else {
      last := LastOccupant(elf, phys, n - 1, i, a);
    }
  }

  /** The headers survive, whatever memory holds, exactly when no write reaches them. */
  lemma HeadersSurviveLoadIff(size: nat, elf: ElfFile, phys: bool)
    requires LoadFits(size, elf, phys) && HeadersWithin(elf, 0, size)
    ensures (forall m: seq<byte> :: |m| == size ==> SameHeaders(elf, m, Loaded(m, elf, phys, |elf.phdrs|)))
       <==> LoadSpares(elf, phys)
  {
    hide HeadersMiss, InHeaders, Loaded, Place;
    if LoadSpares(elf, phys) {
      forall m: seq<byte> | |m| == size
        ensures SameHeaders(elf, m, Loaded(m, elf, phys, |elf.phdrs|))
      {
        LoadKeepsHeaders(m, elf, phys, |elf.phdrs|);
      }
    } else {
      var i: nat :| i < |elf.phdrs| && !HeadersMiss(elf, Place(elf.phdrs[i], phys), elf.phdrs[i].memsz);
      var m := LoadLosesHeader(size, elf, phys, i);
      assert !SameHeaders(elf, m, Loaded(m, elf, phys, |elf.phdrs|));
    }
  }

  /** Some memory loses a header byte that segment i reaches. */
  lemma LoadLosesHeader(size: nat, elf: ElfFile, phys: bool, i: nat) returns (m: seq<byte>)
    requires LoadFits(size, elf, phys) && i < |elf.phdrs|
    requires !HeadersMiss(elf, Place(elf.phdrs[i], phys), elf.phdrs[i].memsz)
    ensures |m| == size && !SameHeaders(elf, m, Loaded(m, elf, phys, |elf.phdrs|))
  {
    hide HeadersMiss, InHeaders, Loaded, Place, Source;
    var n, d := |elf.phdrs|, Place(elf.phdrs[i], phys);
    HeadersMissIff(elf, d, elf.phdrs[i].memsz);
    assert Fits(size, elf, elf.phdrs[i], phys);
    var a: nat :| d <= a < d + elf.phdrs[i].memsz && InHeaders(elf, a);
    m := seq(size, b => if b == a then 1 else 0);
    var last := LastOccupant(elf, phys, n, i, a);
    OccupiedByte(m, elf, phys, n, last, a);
    assert Loaded(m, elf, phys, n)[a] == 0;
  }

  method LoadFile(mem: array<byte>, elf: ElfFile, phys: bool) returns (ok: bool)
    requires elf.valid ==> LoadSafe(mem.Length, elf, phys)
    modifies mem
    ensures ok == elf.valid
    ensures elf.valid ==> mem[..] == Loaded(old(mem[..]), elf, phys, |elf.phdrs|)
    ensures elf.valid ==> SameHeaders(elf, old(mem[..]), mem[..])
    ensures !elf.valid ==> mem[..] == old(mem[..])
  {
    hide Loaded, LoadFits, SameHeaders;
    ok := elf.valid;
    if !elf.valid {
      return;
    }
    ghost var was := mem[..];
    LoadedNone(was, elf, phys);
    LoadKeepsHeaders(was, elf, phys, 0);
    var i := 0;
    while i < |elf.phdrs|
      invariant i <= |elf.phdrs| && mem[..] == Loaded(was, elf, phys, i)
      invariant SameHeaders(elf, was, mem[..])  // so the i-th header is still what it was
    {
      LoadKeepsHeaders(was, elf, phys, i + 1);
      LoadNext(mem, elf, phys, i, was);
      i := i + 1;
    }
  }

  lemma LoadedNone(m: seq<byte>, elf: ElfFile, phys: bool)
    requires LoadFits(|m|, elf, phys)
    ensures Loaded(m, elf, phys, 0) == m
  {
  }

  method LoadNext(mem: array<byte>, elf: ElfFile, phys: bool, i: nat, ghost was: seq<byte>)
    requires |was| == mem.Length && LoadFits(|was|, elf, phys) && i < |elf.phdrs|
    requires mem[..] == Loaded(was, elf, phys, i)
    modifies mem
    ensures mem[..] == Loaded(was, elf, phys, i + 1)
  {
    hide PutSegment;
    LoadSourceKept(was, elf, phys, i, i);
    LoadSegment(mem, elf, elf.phdrs[i], phys);
  }

  /** The body of the loop over the headers. */
  method LoadSegment(mem: array<byte>, elf: ElfFile, h: Phdr, phys: bool)
    requires LoadFits(mem.Length, elf, phys) && h in elf.phdrs
    modifies mem
    ensures var s := Source(elf, h);
      mem[..] == PutSegment(old(mem[..]), Place(h, phys), old(mem[s..s + h.filesz]), h.memsz)
  {
    hide Overwrite, Trunc;
    LoadComputed(mem.Length, elf, phys, h);
    var dest := if phys then h.paddr else h.vaddr;
    var len := Trunc(h.filesz);
    var src := Trunc((elf.base + h.offset) % U64_MOD);
    Memcpy(mem, 0, Trunc(dest), mem, 0, src, len);
    dest := (dest + len) % U64_MOD;
    ghost var copied := mem[..];
    Memset(mem, 0, Trunc(dest), 0, Trunc(h.memsz - len));
    if h.filesz == h.memsz {
      OverwriteNothing(copied, Trunc(dest));
      OverwriteNothing(copied, Place(h, phys) + h.filesz);
    }
  }

  lemma OverwriteNothing(s: seq<byte>, at: nat)
    requires at <= |s|
    ensures Overwrite(s, at, Repeat(0, 0)) == s
  {
  }

  // ---------- The two loaders agree ----------

  ghost predicate PlacesDisjoint(elf: ElfFile, phys: bool) {
    forall i, j :: 0 <= i < |elf.phdrs| && 0 <= j < |elf.phdrs| && i != j ==>
      Apart(Place(elf.phdrs[i], phys), elf.phdrs[i].memsz, Place(elf.phdrs[j], phys), elf.phdrs[j].memsz)
  }

  /** What byte k of a segment should be: the file's, and zero beyond it. */
  ghost function SegmentByte(m: seq<byte>, elf: ElfFile, h: Phdr, k: nat): byte
    requires Source(elf, h) + h.filesz <= |m|
  {
    if k < h.filesz then m[Source(elf, h) + k] else 0
  }

  lemma LoadedAt(m: seq<byte>, elf: ElfFile, phys: bool, i: nat, k: nat)
    requires LoadFits(|m|, elf, phys) && PlacesDisjoint(elf, phys)
    requires i < |elf.phdrs| && k < elf.phdrs[i].memsz
    ensures var h := elf.phdrs[i];
      Loaded(m, elf, phys, |elf.phdrs|)[Place(h, phys) + k] == SegmentByte(m, elf, h, k)
  {
    hide Loaded, Place, Source;
    var a := Place(elf.phdrs[i], phys) + k;
    forall j: nat | j < |elf.phdrs| && j != i
      ensures !Occupies(elf, phys, j, a)
    {
      assert Apart(Place(elf.phdrs[i], phys), elf.phdrs[i].memsz, Place(elf.phdrs[j], phys), elf.phdrs[j].memsz);
    }
    OccupiedByte(m, elf, phys, |elf.phdrs|, i, a);
  }

  lemma UnpackedAt(m: seq<byte>, elf: ElfFile, dest: nat, i: nat, k: nat)
    requires UnpackFits(|m|, elf, dest) && WellFormed(elf) && LoadableDisjoint(elf)
    requires Bounds(elf.phdrs, false).1 - Bounds(elf.phdrs, false).0 < WORD_MOD
    requires i < |elf.phdrs| && elf.phdrs[i].kind == PT_LOAD && k < elf.phdrs[i].memsz
    ensures var h := elf.phdrs[i];
      && FileLen(h) == h.filesz && Dest(elf, h, dest) + k < |m|
      && Unpacked(m, elf, dest, |elf.phdrs|)[Dest(elf, h, dest) + k] == SegmentByte(m, elf, h, k)
  {
    hide Bounds, Dest, FileLen, ImageSize, Source, Unpacked;
    var h, n := elf.phdrs[i], |elf.phdrs|;
    var b := Dest(elf, h, dest) + k;
    SegmentInRegion(|m|, elf, dest, i);
    forall j: nat | j < n
      ensures Covers(elf, dest, j, b) ==> j == i && k < h.filesz
    {
      OnlyOwnSegmentCovers(|m|, elf, dest, i, j, k);
    }
    if k < h.filesz {
      CoveredByte(m, elf, dest, n, i, b);
    } else {
      UncoveredByte(m, elf, dest, n, b);
    }
  }

  /**
   When segments are disjoint, the loader that zeroes tails and the loader that
   zeroes everything first put the same bytes into every loadable segment.
   */
  lemma LoadersAgree(m: seq<byte>, elf: ElfFile, dest: nat, phys: bool, i: nat, k: nat)
    requires UnpackSafe(|m|, elf, dest) && LoadSafe(|m|, elf, phys) && WellFormed(elf)
    requires Bounds(elf.phdrs, false).1 - Bounds(elf.phdrs, false).0 < WORD_MOD
    requires LoadableDisjoint(elf) && PlacesDisjoint(elf, phys)
    requires i < |elf.phdrs| && elf.phdrs[i].kind == PT_LOAD && k < elf.phdrs[i].memsz
    ensures var h, n := elf.phdrs[i], |elf.phdrs|;
      && Place(h, phys) + k < |m| && Dest(elf, h, dest) + k < |m|
      && Loaded(m, elf, phys, n)[Place(h, phys) + k] == Unpacked(m, elf, dest, n)[Dest(elf, h, dest) + k]
  {
    hide Loaded, Unpacked;
    LoadedAt(m, elf, phys, i, k);
    UnpackedAt(m, elf, dest, i, k);
  }

  lemma TranslatedPlace(h: Phdr, k: nat)
    requires h.vaddr + k < U64_MOD && Place(h, true) + k < WORD_MOD
    ensures Trunc(Vtop(h, h.vaddr + k)) == Place(h, true) + k
  {
    hide Trunc;
    TruncOfU64(h.paddr + k);
    TruncSum(h.paddr, k);
    TruncSmall(Place(h, true) + k);
  }

  /**
   After loading at physical addresses, the byte that the file has for virtual
   address v, or zero, is found where elf_vtopProgramHeader says.
   */
  lemma LoadedAtTranslation(m: seq<byte>, elf: ElfFile, i: nat, v: u64)
    requires LoadSafe(|m|, elf, true) && PlacesDisjoint(elf, true)
    requires i < |elf.phdrs| && elf.phdrs[i].vaddr <= v < elf.phdrs[i].vaddr + elf.phdrs[i].memsz < U64_MOD
    ensures var h, a := elf.phdrs[i], Trunc(Vtop(elf.phdrs[i], v));
      var k, b := v - h.vaddr, elf.base + h.offset + (v - h.vaddr);
      && VaddrInHeader(h, v) && a == (h.paddr + k) % WORD_MOD && a < |m|
      && (k < h.filesz && b < |m| ==> Loaded(m, elf, true, |elf.phdrs|)[a] == m[b])
      && (k >= h.filesz ==> Loaded(m, elf, true, |elf.phdrs|)[a] == 0)
  {
    hide Loaded, LoadFits, Place, PlacesDisjoint, Source, Trunc, Vtop;
    var h, k := elf.phdrs[i], v - elf.phdrs[i].vaddr;
    SegmentFits(|m|, elf, true, i);
    LoadedAt(m, elf, true, i, k);
    TranslatedPlace(h, k);
    TranslatedWord(h, k);
    SegmentByteIs(m, elf, h, k);
  }

  lemma SegmentFits(size: nat, elf: ElfFile, phys: bool, i: nat)
    requires LoadFits(size, elf, phys) && i < |elf.phdrs|
    ensures var h := elf.phdrs[i];
      Place(h, phys) + h.memsz <= size <= WORD_MOD && Source(elf, h) + h.filesz <= size
  {
    hide Place, Source;
    assert Fits(size, elf, elf.phdrs[i], phys);
  }

  lemma SegmentByteIs(m: seq<byte>, elf: ElfFile, h: Phdr, k: nat)
    requires Source(elf, h) + h.filesz <= |m| <= WORD_MOD
    ensures var b := elf.base + h.offset + k;
      && (k < h.filesz && b < |m| ==> SegmentByte(m, elf, h, k) == m[b])
      && (k >= h.filesz ==> SegmentByte(m, elf, h, k) == 0)
  {
    if elf.base + h.offset + k < |m| {
      TruncSmall(elf.base + h.offset);
    }
  }

  lemma TranslatedWord(h: Phdr, k: nat)
    requires h.vaddr + k < U64_MOD
    ensures Trunc(Vtop(h, h.vaddr + k)) == (h.paddr + k) % WORD_MOD
  {
    TruncOfU64(h.paddr + k);
  }
}
