/** load_elf and load_images (src/common.c) with their effect on physical memory. */
module LoadImages {
  import opened Addresses
  import opened Bytes
  import opened Elf
  import opened ElfLoad
  import opened Hash
  import Md5Standard
  import opened Paging
  import opened Placement
  import Sha256Standard
  import opened Strings

  /** A file of the CPIO archive; its data are size bytes at elf.base. */
  datatype Entry = Entry(name: string, elf: ElfFile, size: nat)

  datatype Config = Config(loader: Loader, hashing: Option<HashType>, archive: seq<Entry>)

  /** e is the first file of that name. */
  ghost predicate IsFirst(archive: seq<Entry>, name: string, e: Entry) {
    exists i :: 0 <= i < |archive| && archive[i] == e && e.name == name && AllDiffer(archive[..i], name)
  }

  ghost predicate AllDiffer(archive: seq<Entry>, name: string) {
    forall e :: e in archive ==> e.name != name
  }

  /** cpio_get_file: the first file of that name. */
  function Find(archive: seq<Entry>, name: string): (r: Option<Entry>)
    ensures r.Some? ==> IsFirst(archive, name, r.value)
    ensures r.None? ==> AllDiffer(archive, name)
  {
    if archive == [] then None
    else if archive[0].name == name then
      assert archive[0] == archive[0] && AllDiffer(archive[..0], name);
      Some(archive[0])
    else
      var r := Find(archive[1..], name);
      if r.Some? then FirstInTail(archive, name, r.value); r else r
  }

  lemma FirstInTail(archive: seq<Entry>, name: string, e: Entry)
    requires archive != [] && archive[0].name != name && IsFirst(archive[1..], name, e)
    ensures IsFirst(archive, name, e)
  {
    var i :| 0 <= i < |archive| - 1 && archive[1..][i] == e && e.name == name && AllDiffer(archive[1..][..i], name);
    assert archive[..i + 1] == [archive[0]] + archive[1..][..i];
    assert archive[i + 1] == e;
  }

  /** The archive is linked into the loader, with room for a digest behind each name; memory has `size` bytes. */
  ghost predicate Ready(size: nat, c: Config) {
    && c.loader.start < c.loader.end <= size < WORD_MOD
    && forall e :: e in c.archive ==>
         c.loader.start <= e.elf.base && e.elf.base + e.size <= c.loader.end && e.elf.base + 32 <= c.loader.end
  }

  // ---------- The digest check ----------

  ghost predicate Listed(size: nat, c: Config, e: Entry) {
    Ready(size, c) && e in c.archive
  }

  /** The digest that the archive states, in file f. */
  ghost function StatedDigest(m: seq<byte>, c: Config, kind: HashType, f: Entry): (r: seq<byte>)
    requires Listed(|m|, c, f)
    ensures |r| == DigestLength(kind)
  {
    m[f.elf.base..f.elf.base + DigestLength(kind)]
  }

  /** The digest of file e. */
  ghost function FileDigest(m: seq<byte>, c: Config, kind: HashType, e: Entry): (r: seq<byte>)
    requires Listed(|m|, c, e)
    ensures |r| == DigestLength(kind)
  {
    DigestOf(kind, m[e.elf.base..e.elf.base + e.size])
  }

  /** The stated digest equals the computed one as far as strncmp looks. */
  ghost predicate DigestAccepted(m: seq<byte>, c: Config, e: Entry, hashName: string)
    requires Listed(|m|, c, e)
  {
    c.hashing.None? ||
    match Find(c.archive, hashName)
    case None => false
    case Some(f) =>
      UpToNul(StatedDigest(m, c, c.hashing.value, f)) == UpToNul(FileDigest(m, c, c.hashing.value, e))
  }

  method CheckDigest(mem: array<byte>, c: Config, e: Entry, hashName: string) returns (ok: bool)
    requires Listed(mem.Length, c, e)
    ensures ok == DigestAccepted(mem[..], c, e, hashName)
  {
    if c.hashing.None? {
      return true;
    }
    var file := Find(c.archive, hashName);
    if file.None? {
      return false;
    }
    ok := CompareDigests(mem, c, c.hashing.value, file.value, e);
  }

  method CompareDigests(mem: array<byte>, c: Config, kind: HashType, f: Entry, e: Entry) returns (ok: bool)
    requires Listed(mem.Length, c, f) && Listed(mem.Length, c, e)
    ensures ok <==> UpToNul(StatedDigest(mem[..], c, kind, f)) == UpToNul(FileDigest(mem[..], c, kind, e))
  {
    hide DigestOf, FirstDifference, Less, Overwrite, Take, UpToNul;
    var n := DigestLength(kind);
    var calculated := new byte[n];
    OverwriteAll(calculated[..], DigestOf(kind, mem[e.elf.base..e.elf.base + e.size]));
    GetHash(kind, mem, e.elf.base, e.size, calculated);
    var stated := mem[f.elf.base..f.elf.base + n];
    var diff := Strncmp(stated, calculated[..], n);
    TakeAll(stated);
    TakeAll(calculated[..]);
    ok := diff == 0;
  }

  /** Unless the stated digest has an early zero byte, accepting a file means that its digest is the stated one. */
  lemma AcceptedIsEqual(m: seq<byte>, c: Config, e: Entry, hashName: string)
    requires Listed(|m|, c, e) && c.hashing.Some? && Find(c.archive, hashName).Some?
    ensures var f := Find(c.archive, hashName).value;
      var n := if c.hashing.value == SHA_256 then 32 else 16;
      var stated, file := m[f.elf.base..f.elf.base + n], m[e.elf.base..e.elf.base + e.size];
      0 !in stated[..n - 1] ==>
        (DigestAccepted(m, c, e, hashName) <==>
          stated == if c.hashing.value == SHA_256 then Sha256Standard.Sha256(file) else Md5Standard.Md5(file))
  {
    hide UpToNul, Sha256Standard.Sha256, Md5Standard.Md5;
    ComparisonIsExact(StatedDigest(m, c, c.hashing.value, Find(c.archive, hashName).value));
  }

  /** Without hashing every file is accepted; with hashing none is if the archive states no digest. */
  lemma AcceptedWithoutDigest(m: seq<byte>, c: Config, e: Entry, hashName: string)
    requires Listed(|m|, c, e)
    ensures c.hashing.None? ==> DigestAccepted(m, c, e, hashName)
    ensures c.hashing.Some? && AllDiffer(c.archive, hashName) ==> !DigestAccepted(m, c, e, hashName)
  {
  }

  // ---------- One image ----------

  /** The loader may load this file at dest: all writes stay in memory and off the loader and its archive. */
  ghost predicate ElfSafe(size: nat, loader: Loader, elf: ElfFile, dest: nat, keep: bool) {
    && Sane(elf) && WellFormed(elf) && UnpackFits(size, elf, dest)
    && dest + RegionSize(elf) + (if keep then PAGE else 0) <= size
    && (forall i :: 0 <= i < |elf.phdrs| && elf.phdrs[i].kind == PT_LOAD ==>
          loader.start <= Source(elf, elf.phdrs[i]) && Source(elf, elf.phdrs[i]) + FileLen(elf.phdrs[i]) <= loader.end)
    && HeadersWithin(elf, loader.start, loader.end)
    && (keep ==>
          && 8 + TableLen(elf) <= PAGE && elf.phentsize < 0x1_0000 && |elf.phdrs| < 0x1_0000
          && (dest + RegionSize(elf) + PAGE <= loader.start || loader.end <= dest + RegionSize(elf)))
  }

  /** The header page: the number of headers, their size, and the table. */
  ghost function Headers(m: seq<byte>, elf: ElfFile): (r: seq<byte>)
    requires elf.base + elf.phoff + TableLen(elf) <= |m|
    ensures |r| == 8 + TableLen(elf)
  {
    LeBytes(|elf.phdrs|, 4) + LeBytes(elf.phentsize, 4)
      + m[elf.base + elf.phoff..elf.base + elf.phoff + TableLen(elf)]
  }

  method WriteHeaders(mem: array<byte>, elf: ElfFile, page: nat)
    requires 8 + TableLen(elf) <= PAGE && page + PAGE <= mem.Length
    requires elf.base + elf.phoff + TableLen(elf) <= mem.Length
    requires page + PAGE <= elf.base + elf.phoff || elf.base + elf.phoff + TableLen(elf) <= page
    modifies mem
    ensures mem[..] == Overwrite(old(mem[..]), page, Headers(old(mem[..]), elf))
  {
    hide LeBytes, Overwrite, TableLen;
    var table, len := elf.base + elf.phoff, TableLen(elf);
    ghost var was, n, size := mem[..], LeBytes(|elf.phdrs|, 4), LeBytes(elf.phentsize, 4);
    OverwriteTwice(was, page, n, size);
    OverwriteElsewhere(was, page, n + size, table, table + len);
    OverwriteTwice(was, page, n + size, was[table..table + len]);
    CopyU32(mem, page, |elf.phdrs|);
    CopyU32(mem, page + 4, elf.phentsize);
    assert mem[..] == Overwrite(was, page, n + size);
    Copy(mem, page + 8, mem, table, len);
  }

  /** Copies a 4-byte integer variable. */
  method CopyU32(mem: array<byte>, at: nat, w: nat)
    requires at + 4 <= mem.Length
    modifies mem
    ensures mem[..] == Overwrite(old(mem[..]), at, LeBytes(w, 4))
  {
    hide LeBytes, Overwrite;
    var b := LeBytes(w, 4);
    var variable := new byte[4](i requires 0 <= i < 4 => b[i]);
    assert variable[0..4] == b;
    Copy(mem, at, variable, 0, 4);
  }

  /** Memory after load_elf. */
  ghost function Written(m: seq<byte>, loader: Loader, elf: ElfFile, dest: nat, keep: bool): (r: seq<byte>)
    requires ElfSafe(|m|, loader, elf, dest, keep) && loader.end <= |m|
    ensures |r| == |m|
  {
    var u := Unpacked(m, elf, dest, |elf.phdrs|);
    if keep then Overwrite(u, dest + RegionSize(elf), Headers(u, elf)) else u
  }

  /** Virtual address v has a byte in the file, or is one that the file leaves zero. */
  predicate InFilePart(h: Phdr, v: nat) {
    h.kind == 1 && h.vaddr <= v < h.vaddr + h.filesz
  }

  predicate InZeroPart(h: Phdr, v: nat) {
    h.kind == 1 && h.vaddr + h.filesz <= v < h.vaddr + h.memsz
  }

  /** At address a lies the byte that the file has in m0 for virtual address v of header h. */
  ghost predicate HasByte(m0: seq<byte>, m: seq<byte>, elf: ElfFile, h: Phdr, v: nat, a: nat)
    requires h.vaddr <= v
  {
    var at := elf.base + h.offset + (v - h.vaddr);
    a < |m| && (at < |m0| ==> m[a] == m0[at])
  }

  ghost predicate HasZero(m: seq<byte>, a: nat) {
    a < |m| && m[a] == 0
  }

  /** Adding the recorded offset takes every virtual address, and the recorded entry point, to its byte. */
  ghost predicate MapsFile(m0: seq<byte>, m: seq<byte>, elf: ElfFile, info: ImageInfo) {
    && (forall h, v: nat :: h in elf.phdrs && InFilePart(h, v) ==>
          HasByte(m0, m, elf, h, v, (v + info.physVirtOffset) % WORD_MOD))
    && (forall h, v: nat :: h in elf.phdrs && InZeroPart(h, v) ==> HasZero(m, (v + info.physVirtOffset) % WORD_MOD))
    && (forall h :: h in elf.phdrs && InFilePart(h, elf.entry) ==>
          HasByte(m0, m, elf, h, elf.entry, (info.virtEntry + info.physVirtOffset) % WORD_MOD))
  }

  /** One image with its information: described as the file says, and in memory where the information says. */
  ghost predicate ImageLoaded(m0: seq<byte>, m: seq<byte>, elf: ElfFile, info: ImageInfo) {
    Describes(info, elf) && (LoadableDisjoint(elf) ==> MapsFile(m0, m, elf, info))
  }

  /** The little-endian word of four bytes at address a. */
  function U32At(m: seq<byte>, a: nat): nat
    requires a + 4 <= |m|
  {
    m[a] as nat + 0x100 * m[a + 1] as nat + 0x1_0000 * m[a + 2] as nat + 0x100_0000 * m[a + 3] as nat
  }

  /** The page at that address tells the next stage the number of headers, their size, and the table. */
  ghost predicate TellsHeaders(m0: seq<byte>, m: seq<byte>, elf: ElfFile, page: nat) {
    var table, len := elf.base + elf.phoff, elf.phentsize * |elf.phdrs|;
    && page + 8 + len <= |m| && table + len <= |m0|
    && U32At(m, page) == |elf.phdrs| && U32At(m, page + 4) == elf.phentsize
    && m[page + 8..page + 8 + len] == m0[table..table + len]
  }

  /** What load_elf leaves; with keep there is a header page behind the region. */
  ghost predicate ElfLoaded(m0: seq<byte>, m: seq<byte>, elf: ElfFile, info: ImageInfo, keep: bool) {
    ImageLoaded(m0, m, elf, info) && (keep ==> TellsHeaders(m0, m, elf, info.physEnd))
  }

  /** Loads one file, or aborts without having written anything. */
  method LoadElf(mem: array<byte>, c: Config, e: Entry, dest: nat, keep: bool, hashName: string)
    returns (r: Option<(ImageInfo, nat)>)
    requires Listed(mem.Length, c, e) && dest < WORD_MOD
    requires PlaceElf(c.loader, e.elf, dest, keep).Some? ==> ElfSafe(mem.Length, c.loader, e.elf, dest, keep)
    modifies mem
    ensures r == if DigestAccepted(old(mem[..]), c, e, hashName) then PlaceElf(c.loader, e.elf, dest, keep) else None
    ensures mem[..] == if r.None? then old(mem[..]) else Written(old(mem[..]), c.loader, e.elf, dest, keep)
    ensures r.Some? ==> ElfLoaded(old(mem[..]), mem[..], e.elf, r.value.0, keep)
  {
    hide Bounds, DigestAccepted, ElfLoaded, ElfSafe, Headers, Overwrite, RegionsOverlap, RoundUp64, RoundUpWord, Trunc,
      Unpacked;
    var elf := e.elf;
    var bounds := GetMemoryBounds(elf, false);
    var (minVaddr, maxVaddr) := if bounds.Some? then bounds.value else (0, 0);
    maxVaddr := RoundUp64(maxVaddr);
    var imageSize := Trunc((maxVaddr - minVaddr) % U64_MOD);
    if dest % PAGE != 0 {
      return None;
    }
    var accepted := CheckDigest(mem, c, e, hashName);
    if !accepted {
      return None;
    }
    if !elf.valid {
      return None;
    }
    if minVaddr % PAGE != 0 {
      return None;
    }
    if RegionsOverlap(dest, Trunc(dest + imageSize - 1), c.loader.start, Trunc(c.loader.end - 1)) {
      return None;
    }
    HeadersAreSafe(mem.Length, c.loader, elf, dest, keep);
    WrittenIsLoaded(mem[..], c.loader, elf, dest, keep);
    UnpackElfToPaddr(mem, elf, dest);
    var info := ImageInfo(
      dest, Trunc(dest + imageSize), Trunc(minVaddr), Trunc(maxVaddr), Trunc(elf.entry), Trunc(dest - minVaddr));
    var next := RoundUpWord(Trunc(dest + imageSize));
    if keep {
      HeaderPageFits(mem.Length, c.loader, elf, dest);
      WriteHeaders(mem, elf, next);
      next := Trunc(next + PAGE);
    }
    r := Some((info, next));
  }

  /** The region is clear of the loader, and with it of the headers, which lie there. */
  lemma HeadersAreSafe(size: nat, loader: Loader, elf: ElfFile, dest: nat, keep: bool)
    requires ElfSafe(size, loader, elf, dest, keep) && PlaceElf(loader, elf, dest, keep).Some?
    requires loader.start < loader.end <= size < WORD_MOD && dest < WORD_MOD
    ensures UnpackSafe(size, elf, dest)
  {
    hide Dest, FileLen, ImageSize, PlaceElf, RegionSize, Sane, UnpackFits, WellFormed;
    PlacedClear(loader, elf, dest, keep);
    Placed(loader, elf, dest, keep);
    TruncSmall(dest + RegionSize(elf));
    ImageInRegion(loader, elf, dest, keep);
    forall h | h in elf.phdrs && h.kind == PT_LOAD
      ensures HeadersMiss(elf, Dest(elf, h, dest), FileLen(h))
    {
      DestInRegion(size, elf, dest, h);
    }
  }

  lemma DestInRegion(size: nat, elf: ElfFile, dest: nat, h: Phdr)
    requires UnpackFits(size, elf, dest) && WellFormed(elf) && h in elf.phdrs
    requires Bounds(elf.phdrs, false).1 - Bounds(elf.phdrs, false).0 < WORD_MOD
    ensures FileLen(h) == 0
         || (dest <= Dest(elf, h, dest) && Dest(elf, h, dest) + FileLen(h) <= dest + ImageSize(elf))
  {
    hide Bounds, Dest, ImageSize, UnpackFits;
    var i :| 0 <= i < |elf.phdrs| && elf.phdrs[i] == h;
    if h.memsz == 0 {
      TruncSmall(0);
    } else {
      SegmentInRegion(size, elf, dest, i);
    }
  }

  /** The header page directly follows the region of the image, in memory and off the table it is copied from. */
  lemma HeaderPageFits(size: nat, loader: Loader, elf: ElfFile, dest: nat)
    requires ElfSafe(size, loader, elf, dest, true) && PlaceElf(loader, elf, dest, true).Some? && size < WORD_MOD
    requires loader.end <= size
    ensures var page, table := RoundUpWord(Trunc(dest + RegionSize(elf))), elf.base + elf.phoff;
      && page == dest + RegionSize(elf) && page + PAGE <= size
      && 8 + TableLen(elf) <= PAGE && table + TableLen(elf) <= size
      && (page + PAGE <= table || table + TableLen(elf) <= page)
  {
    hide PlaceElf, RegionSize, RoundUpWord, Sane, TableLen, Trunc, UnpackFits, WellFormed;
    HeaderPage(loader, elf, dest);
  }

  lemma HeaderPage(loader: Loader, elf: ElfFile, dest: nat)
    requires PlaceElf(loader, elf, dest, true).Some? && Sane(elf) && dest + RegionSize(elf) < WORD_MOD
    ensures RoundUpWord(Trunc(dest + RegionSize(elf))) == dest + RegionSize(elf)
  {
    hide Bounds, PlaceElf, RegionSize, RoundUpWord, Sane, Trunc;
    Placed(loader, elf, dest, true);
    RegionSizeIsPages(elf);
    PagesAdd(dest, RegionSize(elf));
    TruncSmall(dest + RegionSize(elf));
    RoundUpWordAligned(dest + RegionSize(elf));
  }

  // ---------- What one load does to memory ----------

  lemma ImageInRegion(loader: Loader, elf: ElfFile, dest: nat, keep: bool)
    requires PlaceElf(loader, elf, dest, keep).Some? && Sane(elf)
    ensures ImageSize(elf) <= RegionSize(elf)
    ensures Bounds(elf.phdrs, false).1 - Bounds(elf.phdrs, false).0 == ImageSize(elf)
  {
    hide Bounds, RegionsOverlap, RoundUp64, RoundUpWord, Trunc;
    RegionSizeIsPages(elf);
    TruncSmall(Bounds(elf.phdrs, false).1 - Bounds(elf.phdrs, false).0);
  }

  /** Address a belongs to the image at dest or to the contents of its header page. */
  predicate Owns(elf: ElfFile, dest: nat, keep: bool, a: nat) {
    || dest <= a < dest + ImageSize(elf)
    || (keep && dest + RegionSize(elf) <= a < dest + RegionSize(elf) + 8 + TableLen(elf))
  }

  /** Nothing outside the image and the contents of its header page changes: the tails of both pages are kept, too. */
  lemma WrittenElsewhere(m: seq<byte>, loader: Loader, elf: ElfFile, dest: nat, keep: bool, a: nat)
    requires ElfSafe(|m|, loader, elf, dest, keep) && loader.end <= |m| && PlaceElf(loader, elf, dest, keep).Some?
    requires a < |m| && !Owns(elf, dest, keep, a)
    ensures Written(m, loader, elf, dest, keep)[a] == m[a]
  {
    hide ImageSize, LeBytes, PlaceElf, RegionSize, Sane, UnpackFits, Unpacked, WellFormed;
    ImageInRegion(loader, elf, dest, keep);
    OutsideRegionKept(m, elf, dest, a);
  }

  lemma UnpackedKeepsLoader(m: seq<byte>, loader: Loader, elf: ElfFile, dest: nat, keep: bool, a: nat)
    requires ElfSafe(|m|, loader, elf, dest, keep) && loader.start < loader.end <= |m| < WORD_MOD
    requires PlaceElf(loader, elf, dest, keep).Some? && loader.start <= a < loader.end && dest < WORD_MOD
    ensures Unpacked(m, elf, dest, |elf.phdrs|)[a] == m[a]
  {
    hide ImageSize, PlaceElf, RegionSize, Sane, UnpackFits, Unpacked, WellFormed;
    ImageInRegion(loader, elf, dest, keep);
    PlacedClear(loader, elf, dest, keep);
    Placed(loader, elf, dest, keep);
    TruncSmall(dest + RegionSize(elf));
    OutsideRegionKept(m, elf, dest, a);
  }

  /** The loader and its archive are untouched. */
  lemma WrittenKeepsLoader(m: seq<byte>, loader: Loader, elf: ElfFile, dest: nat, keep: bool, a: nat)
    requires ElfSafe(|m|, loader, elf, dest, keep) && loader.start < loader.end <= |m| < WORD_MOD
    requires PlaceElf(loader, elf, dest, keep).Some? && loader.start <= a < loader.end && dest < WORD_MOD
    ensures Written(m, loader, elf, dest, keep)[a] == m[a]
  {
    hide Headers, ImageSize, PlaceElf, RegionSize, Sane, UnpackFits, Unpacked, WellFormed;
    UnpackedKeepsLoader(m, loader, elf, dest, keep, a);
  }

  /** The image itself is what unpacking makes it. */
  lemma WrittenImage(m: seq<byte>, loader: Loader, elf: ElfFile, dest: nat, keep: bool, a: nat)
    requires ElfSafe(|m|, loader, elf, dest, keep) && loader.end <= |m| && PlaceElf(loader, elf, dest, keep).Some?
    requires dest <= a < dest + ImageSize(elf)
    ensures a < |m| && Written(m, loader, elf, dest, keep)[a] == Unpacked(m, elf, dest, |elf.phdrs|)[a]
  {
    hide ImageSize, LeBytes, PlaceElf, RegionSize, Sane, UnpackFits, Unpacked, WellFormed;
    ImageInRegion(loader, elf, dest, keep);
  }

  ghost predicate SameLoader(m: seq<byte>, m': seq<byte>, loader: Loader) {
    && loader.end <= |m| == |m'|
    && forall a :: loader.start <= a < loader.end ==> m[a] == m'[a]
  }

  /** The image depends on nothing but the archive. */
  lemma ImageFromArchive(m: seq<byte>, m': seq<byte>, loader: Loader, elf: ElfFile, dest: nat, keep: bool, a: nat)
    requires ElfSafe(|m|, loader, elf, dest, keep) && SameLoader(m, m', loader)
    requires dest <= a < dest + ImageSize(elf) && a < |m|
    ensures Unpacked(m, elf, dest, |elf.phdrs|)[a] == Unpacked(m', elf, dest, |elf.phdrs|)[a]
  {
    hide Dest, FileLen, ImageSize, RegionSize, Sane, Source, Unpacked, WellFormed;
    var n := |elf.phdrs|;
    if i: nat :| i < n && Covers(elf, dest, i, a) {
      var last := LastCover(elf, dest, n, i, a);
      CoveredByte(m, elf, dest, n, last, a);
      CoveredByte(m', elf, dest, n, last, a);
    } else {
      UncoveredByte(m, elf, dest, n, a);
      UncoveredByte(m', elf, dest, n, a);
    }
  }

  // ---------- All images ----------

  /** The files after the kernel, at most max of them. */
  function Users(c: Config, max: nat): seq<Entry> {
    if |c.archive| == 0 then [] else if 1 + max <= |c.archive| then c.archive[1..1 + max] else c.archive[1..]
  }

  function Elfs(es: seq<Entry>): (r: seq<ElfFile>)
    ensures |r| == |es| && forall i :: 0 <= i < |es| ==> r[i] == es[i].elf
  {
    seq(|es|, i requires 0 <= i < |es| => es[i].elf)
  }

  /** Every user image that can be placed can be loaded safely. */
  ghost predicate SafeUsers(size: nat, loader: Loader, elfs: seq<ElfFile>, dest: nat) {
    forall n :: 0 <= n < |elfs| && PlaceUsers(loader, elfs, dest, n + 1).Some? ==>
      PlaceUsers(loader, elfs, dest, n).Some?
      && ElfSafe(size, loader, elfs[n], PlaceUsers(loader, elfs, dest, n).value.1, true)
  }

  /** The kernel's physical load address. */
  function KernelDest(elf: ElfFile): nat {
    Trunc(Bounds(elf.phdrs, true).0)
  }

  /** A run of load_images: the kernel, its address, the user images, and the free address behind the kernel. */
  datatype Run = Run(loader: Loader, kernel: ElfFile, kernelDest: nat, users: seq<ElfFile>, next: nat)

  /** The writes of a run stay in memory and off the loader. */
  ghost predicate SafeRun(size: nat, run: Run) {
    && run.loader.start < run.loader.end <= size < WORD_MOD && run.kernelDest < WORD_MOD
    && PlaceElf(run.loader, run.kernel, run.kernelDest, false).Some?
    && PlaceElf(run.loader, run.kernel, run.kernelDest, false).value.1 == run.next
    && ElfSafe(size, run.loader, run.kernel, run.kernelDest, false)
    && SafeUsers(size, run.loader, run.users, run.next)
  }

  /** The run that the archive asks for, unless the kernel is missing or cannot be placed. */
  function RunOf(c: Config, max: nat): Option<Run> {
    match Find(c.archive, "kernel.elf")
    case None => None
    case Some(e) =>
      match PlaceElf(c.loader, e.elf, KernelDest(e.elf), false)
      case None => None
      case Some((info, next)) => Some(Run(c.loader, e.elf, KernelDest(e.elf), Elfs(Users(c, max)), next))
  }

  /** What load_images demands of its environment. */
  ghost predicate RunSafe(size: nat, c: Config, max: nat) {
    Ready(size, c) && (RunOf(c, max).Some? ==> SafeRun(size, RunOf(c, max).value))
  }

  /** The conditions under which load_images does not abort. */
  ghost predicate Accepts(m: seq<byte>, c: Config, max: nat)
    requires Ready(|m|, c)
  {
    RunOf(c, max).Some? &&
    var run := RunOf(c, max).value;
    && c.archive[0].name == "kernel.elf"
    && DigestAccepted(m, c, Find(c.archive, "kernel.elf").value, "kernel.bin")
    && PlaceUsers(run.loader, run.users, run.next, |run.users|).Some?
    && UsersAccepted(m, c, max, |run.users|)
  }

  ghost predicate UsersAccepted(m: seq<byte>, c: Config, max: nat, n: nat)
    requires Ready(|m|, c) && n <= |Users(c, max)|
  {
    forall i :: 0 <= i < n ==> DigestAccepted(m, c, Users(c, max)[i], "app.bin")
  }

  /** In m the image at dest and its headers are as if loaded alone into the original memory m0. */
  ghost predicate Intact(m0: seq<byte>, m: seq<byte>, loader: Loader, elf: ElfFile, dest: nat, keep: bool)
    requires ElfSafe(|m0|, loader, elf, dest, keep) && loader.end <= |m0| == |m|
  {
    forall a: nat :: a < |m| && Owns(elf, dest, keep, a) ==> m[a] == Written(m0, loader, elf, dest, keep)[a]
  }

  lemma HeadersFromArchive(m: seq<byte>, m': seq<byte>, loader: Loader, elf: ElfFile, dest: nat)
    requires ElfSafe(|m|, loader, elf, dest, true) && SameLoader(m, m', loader) && loader.start < loader.end
    requires PlaceElf(loader, elf, dest, true).Some? && dest < WORD_MOD && |m| < WORD_MOD
    ensures Headers(Unpacked(m, elf, dest, |elf.phdrs|), elf) == Headers(Unpacked(m', elf, dest, |elf.phdrs|), elf)
  {
    hide ImageSize, LeBytes, PlaceElf, RegionSize, Sane, TableLen, UnpackFits, Unpacked, WellFormed;
    var u, u' := Unpacked(m, elf, dest, |elf.phdrs|), Unpacked(m', elf, dest, |elf.phdrs|);
    var table, len := elf.base + elf.phoff, TableLen(elf);
    forall a: nat | table <= a < table + len
      ensures u[a] == u'[a]
    {
      UnpackedKeepsLoader(m, loader, elf, dest, true, a);
      UnpackedKeepsLoader(m', loader, elf, dest, true, a);
    }
    assert u[table..table + len] == u'[table..table + len];
  }

  lemma LoadedIntact(m0: seq<byte>, m: seq<byte>, loader: Loader, elf: ElfFile, dest: nat, keep: bool)
    requires ElfSafe(|m|, loader, elf, dest, keep) && SameLoader(m0, m, loader) && loader.start < loader.end
    requires PlaceElf(loader, elf, dest, keep).Some? && dest < WORD_MOD && |m| < WORD_MOD
    ensures Intact(m0, Written(m, loader, elf, dest, keep), loader, elf, dest, keep)
  {
    var w, w0 := Written(m, loader, elf, dest, keep), Written(m0, loader, elf, dest, keep);
    forall a: nat | a < |m| && Owns(elf, dest, keep, a)
      ensures w[a] == w0[a]
    {
      if dest <= a < dest + ImageSize(elf) {
        hide ImageSize, PlaceElf, RegionSize, Sane, UnpackFits, Unpacked, WellFormed, Written;
        WrittenImage(m, loader, elf, dest, keep, a);
        WrittenImage(m0, loader, elf, dest, keep, a);
        ImageFromArchive(m, m0, loader, elf, dest, keep, a);
      } else {
        hide Headers, ImageSize, PlaceElf, RegionSize, Sane, UnpackFits, Unpacked, WellFormed;
        HeadersFromArchive(m, m0, loader, elf, dest);
      }
    }
  }

  /** A later load, further up, leaves it intact. */
  lemma StaysIntact(m0: seq<byte>, m: seq<byte>, loader: Loader, elf: ElfFile, at: nat, keep: bool,
                    later: ElfFile, dest: nat)
    requires |m0| == |m| && loader.end <= |m| && at + RegionSize(elf) + (if keep then PAGE else 0) <= dest
    requires ElfSafe(|m0|, loader, elf, at, keep) && Intact(m0, m, loader, elf, at, keep)
    requires ImageSize(elf) <= RegionSize(elf)
    requires ElfSafe(|m|, loader, later, dest, true) && PlaceElf(loader, later, dest, true).Some?
    ensures Intact(m0, Written(m, loader, later, dest, true), loader, elf, at, keep)
  {
    forall a: nat | a < |m| && Owns(elf, at, keep, a)
      ensures Written(m, loader, later, dest, true)[a] == m[a]
    {
      hide ImageSize, PlaceElf, RegionSize, Sane, TableLen, UnpackFits, Unpacked, WellFormed, Written;
      WrittenElsewhere(m, loader, later, dest, true, a);
    }
  }

  lemma {:induction false} PlacedBefore(loader: Loader, elfs: seq<ElfFile>, dest: nat, i: nat, n: nat)
    requires i <= n <= |elfs| && PlaceUsers(loader, elfs, dest, n).Some?
    ensures PlaceUsers(loader, elfs, dest, i).Some?
  {
    hide PlaceElf;
    if i == n {
    } else {
      PlacedBefore(loader, elfs, dest, i, n - 1);
    }
  }

  lemma NextAfter(size: nat, loader: Loader, elf: ElfFile, dest: nat, keep: bool)
    requires ElfSafe(size, loader, elf, dest, keep) && PlaceElf(loader, elf, dest, keep).Some? && size < WORD_MOD
    ensures PlaceElf(loader, elf, dest, keep).value.1 == dest + RegionSize(elf) + (if keep then PAGE else 0) <= size
  {
    hide PlaceElf, RegionSize, Sane, Trunc, UnpackFits, WellFormed;
    Placed(loader, elf, dest, keep);
    TruncSmall(dest + RegionSize(elf) + if keep then PAGE else 0);
  }

  /** As long as images are placed, the next free address is simply the sum of the space used. */
  lemma {:induction false} NextFree(size: nat, loader: Loader, elfs: seq<ElfFile>, dest: nat, n: nat)
    requires SafeUsers(size, loader, elfs, dest) && dest <= size < WORD_MOD
    requires n <= |elfs| && PlaceUsers(loader, elfs, dest, n).Some?
    ensures PlaceUsers(loader, elfs, dest, n).value.1 == dest + Extent(elfs, n) <= size
  {
    hide ElfSafe, PlaceElf, RegionSize;
    if n == 0 {
    } else {
      NextFree(size, loader, elfs, dest, n - 1);
      assert PlaceUsers(loader, elfs, dest, n - 1 + 1).Some?;
      NextAfter(size, loader, elfs[n - 1], dest + Extent(elfs, n - 1), true);
    }
  }

  /** The first n user images are all intact at once. */
  ghost predicate AllIntact(m0: seq<byte>, m: seq<byte>, loader: Loader, elfs: seq<ElfFile>, dest: nat, n: nat)
    requires n <= |elfs| && loader.end <= |m0| == |m|
  {
    forall i :: 0 <= i < n ==>
      ElfSafe(|m0|, loader, elfs[i], dest + Extent(elfs, i), true)
      && ImageSize(elfs[i]) <= RegionSize(elfs[i])
      && Intact(m0, m, loader, elfs[i], dest + Extent(elfs, i), true)
  }

  lemma {:induction false} ExtentGrows(elfs: seq<ElfFile>, i: nat, n: nat)
    requires i < n <= |elfs|
    ensures Extent(elfs, i) + RegionSize(elfs[i]) + PAGE <= Extent(elfs, n)
  {
    if i + 1 == n {
    } else {
      ExtentGrows(elfs, i, n - 1);
    }
  }

  lemma OthersStayIntact(m0: seq<byte>, m: seq<byte>, loader: Loader, elfs: seq<ElfFile>, dest: nat, n: nat)
    requires n < |elfs| && loader.end <= |m0| == |m| && AllIntact(m0, m, loader, elfs, dest, n)
    requires ElfSafe(|m0|, loader, elfs[n], dest + Extent(elfs, n), true)
    requires PlaceElf(loader, elfs[n], dest + Extent(elfs, n), true).Some?
    ensures AllIntact(m0, Written(m, loader, elfs[n], dest + Extent(elfs, n), true), loader, elfs, dest, n)
  {
    hide ElfSafe, Extent, ImageSize, Intact, PlaceElf, RegionSize, Written;
    var w := Written(m, loader, elfs[n], dest + Extent(elfs, n), true);
    forall i | 0 <= i < n
      ensures Intact(m0, w, loader, elfs[i], dest + Extent(elfs, i), true)
    {
      ExtentGrows(elfs, i, n);
      StaysIntact(m0, m, loader, elfs[i], dest + Extent(elfs, i), true, elfs[n], dest + Extent(elfs, n));
    }
  }

  lemma OneMoreIntact(m0: seq<byte>, m: seq<byte>, loader: Loader, elfs: seq<ElfFile>, dest: nat, n: nat)
    requires n < |elfs| && SameLoader(m0, m, loader) && loader.start < loader.end && |m| < WORD_MOD
    requires AllIntact(m0, m, loader, elfs, dest, n)
    requires ElfSafe(|m0|, loader, elfs[n], dest + Extent(elfs, n), true)
    requires PlaceElf(loader, elfs[n], dest + Extent(elfs, n), true).Some?
    ensures AllIntact(m0, Written(m, loader, elfs[n], dest + Extent(elfs, n), true), loader, elfs, dest, n + 1)
  {
    hide Extent, ImageSize, Intact, PlaceElf, RegionSize, Sane, TableLen, UnpackFits, WellFormed, Written;
    OthersStayIntact(m0, m, loader, elfs, dest, n);
    LoadedIntact(m0, m, loader, elfs[n], dest + Extent(elfs, n), true);
    ImageInRegion(loader, elfs[n], dest + Extent(elfs, n), true);
  }

  lemma LoaderStillSame(m0: seq<byte>, m: seq<byte>, loader: Loader, elf: ElfFile, dest: nat, keep: bool)
    requires ElfSafe(|m|, loader, elf, dest, keep) && loader.start < loader.end <= |m| < WORD_MOD && dest < WORD_MOD
    requires PlaceElf(loader, elf, dest, keep).Some? && SameLoader(m0, m, loader)
    ensures SameLoader(m0, Written(m, loader, elf, dest, keep), loader)
  {
    forall a | loader.start <= a < loader.end
      ensures Written(m, loader, elf, dest, keep)[a] == m[a]
    {
      WrittenKeepsLoader(m, loader, elf, dest, keep, a);
    }
  }

  lemma SameSlice(m0: seq<byte>, m: seq<byte>, loader: Loader, lo: nat, hi: nat)
    requires SameLoader(m0, m, loader) && loader.start <= lo <= hi <= loader.end
    ensures |m| == |m0| && m[lo..hi] == m0[lo..hi]
  {
  }

  /** The digest check looks only at the archive. */
  lemma DigestFromArchive(m0: seq<byte>, m: seq<byte>, c: Config, e: Entry, hashName: string)
    requires Listed(|m0|, c, e) && SameLoader(m0, m, c.loader)
    ensures DigestAccepted(m, c, e, hashName) == DigestAccepted(m0, c, e, hashName)
  {
    hide DigestOf, SameLoader, UpToNul;
    assert |m| == |m0| by { SameSlice(m0, m, c.loader, c.loader.start, c.loader.start); }
    SameSlice(m0, m, c.loader, e.elf.base, e.elf.base + e.size);
    if c.hashing.Some? && Find(c.archive, hashName).Some? {
      var f, kind := Find(c.archive, hashName).value, c.hashing.value;
      SameSlice(m0, m, c.loader, f.elf.base, f.elf.base + DigestLength(kind));
    }
  }

  // ---------- Progress of a run ----------

  /** Address a belongs to the kernel or to one of the first n user images or its headers. */
  ghost predicate RunOwns(run: Run, n: nat, a: nat)
    requires n <= |run.users|
  {
    || Owns(run.kernel, run.kernelDest, false, a)
    || exists i :: 0 <= i < n && Owns(run.users[i], run.next + Extent(run.users, i), true, a)
  }

  /** All other memory is as it was. */
  ghost predicate OthersKept(m0: seq<byte>, m: seq<byte>, run: Run, n: nat)
    requires n <= |run.users| && |m| == |m0|
  {
    forall a: nat :: a < |m| && !RunOwns(run, n, a) ==> m[a] == m0[a]
  }

  lemma RunOwnsMore(run: Run, n: nat, a: nat)
    requires n < |run.users|
    ensures RunOwns(run, n, a) || Owns(run.users[n], run.next + Extent(run.users, n), true, a) ==>
      RunOwns(run, n + 1, a)
  {
    hide Extent, Owns;
  }

  lemma OthersKeptStep(m0: seq<byte>, m: seq<byte>, run: Run, n: nat, d: nat)
    requires n < |run.users| && |m| == |m0| && OthersKept(m0, m, run, n) && d == run.next + Extent(run.users, n)
    requires ElfSafe(|m|, run.loader, run.users[n], d, true) && run.loader.end <= |m|
    requires PlaceElf(run.loader, run.users[n], d, true).Some?
    ensures OthersKept(m0, Written(m, run.loader, run.users[n], d, true), run, n + 1)
  {
    hide ElfSafe, Extent, Owns, PlaceElf, RunOwns, Written;
    forall a: nat | a < |m| && !RunOwns(run, n + 1, a)
      ensures Written(m, run.loader, run.users[n], d, true)[a] == m0[a]
    {
      RunOwnsMore(run, n, a);
      WrittenElsewhere(m, run.loader, run.users[n], d, true, a);
    }
  }

  lemma OthersKeptStart(m0: seq<byte>, run: Run)
    requires SafeRun(|m0|, run)
    ensures OthersKept(m0, Written(m0, run.loader, run.kernel, run.kernelDest, false), run, 0)
  {
    hide ElfSafe, Owns, PlaceElf, SafeUsers, Written;
    forall a: nat | a < |m0| && !RunOwns(run, 0, a)
      ensures Written(m0, run.loader, run.kernel, run.kernelDest, false)[a] == m0[a]
    {
      WrittenElsewhere(m0, run.loader, run.kernel, run.kernelDest, false, a);
    }
  }

  /** Memory after the kernel and the first n user images have been loaded. */
  ghost predicate Progress(m0: seq<byte>, m: seq<byte>, run: Run, n: nat)
    requires SafeRun(|m0|, run) && n <= |run.users|
  {
    && SameLoader(m0, m, run.loader)
    && Intact(m0, m, run.loader, run.kernel, run.kernelDest, false)
    && AllIntact(m0, m, run.loader, run.users, run.next, n)
    && OthersKept(m0, m, run, n)
  }

  lemma ProgressStart(m0: seq<byte>, run: Run)
    requires SafeRun(|m0|, run)
    ensures Progress(m0, Written(m0, run.loader, run.kernel, run.kernelDest, false), run, 0)
  {
    hide ElfSafe, ImageSize, Intact, OthersKept, PlaceElf, RegionSize, SafeUsers, Written;
    OthersKeptStart(m0, run);
    LoadedIntact(m0, m0, run.loader, run.kernel, run.kernelDest, false);
    LoaderStillSame(m0, m0, run.loader, run.kernel, run.kernelDest, false);
  }

  /** The next user image goes exactly behind the ones before it. */
  lemma NextUser(size: nat, run: Run, n: nat)
    requires SafeRun(size, run) && n < |run.users| && PlaceUsers(run.loader, run.users, run.next, n).Some?
    ensures var d := PlaceUsers(run.loader, run.users, run.next, n).value.1;
      && run.next <= d == run.next + Extent(run.users, n) < WORD_MOD
      && (PlaceElf(run.loader, run.users[n], d, true).Some? ==>
            && PlaceUsers(run.loader, run.users, run.next, n + 1).Some?
            && ElfSafe(size, run.loader, run.users[n], d, true))
  {
    hide ElfSafe, PlaceElf, RegionSize;
    NextAfter(size, run.loader, run.kernel, run.kernelDest, false);
    NextFree(size, run.loader, run.users, run.next, n);
  }

  lemma KernelStaysIntact(m0: seq<byte>, m: seq<byte>, run: Run, elf: ElfFile, dest: nat)
    requires SafeRun(|m0|, run) && |m| == |m0| && run.next <= dest
    requires Intact(m0, m, run.loader, run.kernel, run.kernelDest, false)
    requires ElfSafe(|m|, run.loader, elf, dest, true) && PlaceElf(run.loader, elf, dest, true).Some?
    ensures Intact(m0, Written(m, run.loader, elf, dest, true), run.loader, run.kernel, run.kernelDest, false)
  {
    assert Sane(run.kernel);
    hide ElfSafe, ImageSize, Intact, PlaceElf, RegionSize, SafeUsers, Sane, Written;
    NextAfter(|m0|, run.loader, run.kernel, run.kernelDest, false);
    ImageInRegion(run.loader, run.kernel, run.kernelDest, false);
    StaysIntact(m0, m, run.loader, run.kernel, run.kernelDest, false, elf, dest);
  }

  lemma ProgressStep(m0: seq<byte>, m: seq<byte>, run: Run, n: nat, d: nat)
    requires SafeRun(|m0|, run) && n < |run.users| && Progress(m0, m, run, n)
    requires d == run.next + Extent(run.users, n) < WORD_MOD && PlaceElf(run.loader, run.users[n], d, true).Some?
    requires ElfSafe(|m0|, run.loader, run.users[n], d, true)
    ensures |m| == |m0| && Progress(m0, Written(m, run.loader, run.users[n], d, true), run, n + 1)
  {
    hide AllIntact, ElfSafe, Extent, Intact, OthersKept, PlaceElf, SafeUsers, SameLoader, Written;
    SameSlice(m0, m, run.loader, run.loader.start, run.loader.start);
    OthersKeptStep(m0, m, run, n, d);
    LoaderStillSame(m0, m, run.loader, run.users[n], d, true);
    OneMoreIntact(m0, m, run.loader, run.users, run.next, n);
    KernelStaysIntact(m0, m, run, run.users[n], d);
  }

  // ---------- What a run leaves in memory ----------

  /** The image at dest in m: the file's bytes in every loadable segment, and zeros elsewhere. */
  ghost predicate HoldsFile(m0: seq<byte>, m: seq<byte>, elf: ElfFile, dest: nat)
    requires UnpackFits(|m0|, elf, dest) && |m| == |m0|
  {
    && (forall j: nat, a: nat :: Covers(elf, dest, j, a) ==> a < |m| && m[a] == FileByte(m0, elf, dest, j, a))
    && (forall a: nat :: dest <= a < dest + ImageSize(elf) && (forall j: nat :: !Covers(elf, dest, j, a)) ==>
          m[a] == 0)
  }

  lemma IntactHoldsFile(m0: seq<byte>, m: seq<byte>, loader: Loader, elf: ElfFile, dest: nat, keep: bool)
    requires ElfSafe(|m0|, loader, elf, dest, keep) && loader.start < loader.end <= |m0| == |m| < WORD_MOD
    requires PlaceElf(loader, elf, dest, keep).Some? && dest < WORD_MOD && LoadableDisjoint(elf)
    requires Intact(m0, m, loader, elf, dest, keep)
    ensures HoldsFile(m0, m, elf, dest)
  {
    HeadersAreSafe(|m0|, loader, elf, dest, keep);
    ImageInRegion(loader, elf, dest, keep);
    DisjointIsImage(m0, elf, dest);
    forall a: nat | dest <= a < dest + ImageSize(elf)
      ensures a < |m| && m[a] == Unpacked(m0, elf, dest, |elf.phdrs|)[a]
    {
      hide ImageSize, PlaceElf, RegionSize, Sane, TableLen, UnpackFits, Unpacked, WellFormed, Written;
      WrittenImage(m0, loader, elf, dest, keep, a);
    }
    hide ElfSafe, ImageSize, LoadableDisjoint, PlaceElf, UnpackFits, Unpacked, WellFormed, Written;
    forall j: nat, a: nat | Covers(elf, dest, j, a)
      ensures dest <= a < dest + ImageSize(elf)
    {
      DestInRegion(|m0|, elf, dest, elf.phdrs[j]);
    }
  }

  /** User image i, where the run puts it. */
  ghost predicate UserHoldsFile(m0: seq<byte>, m: seq<byte>, run: Run, i: nat)
    requires i < |run.users| && |m| == |m0|
  {
    var at := run.next + Extent(run.users, i);
    UnpackFits(|m0|, run.users[i], at) && HoldsFile(m0, m, run.users[i], at)
  }

  /** In the end every image with disjoint segments holds its file, byte for byte, and zeros. */
  lemma RunHoldsFiles(m0: seq<byte>, m: seq<byte>, run: Run, n: nat)
    requires SafeRun(|m0|, run) && n <= |run.users| && |m| == |m0| && Progress(m0, m, run, n)
    requires PlaceUsers(run.loader, run.users, run.next, n).Some?
    ensures UnpackFits(|m0|, run.kernel, run.kernelDest)
    ensures LoadableDisjoint(run.kernel) ==> HoldsFile(m0, m, run.kernel, run.kernelDest)
    ensures forall i :: 0 <= i < n && LoadableDisjoint(run.users[i]) ==> UserHoldsFile(m0, m, run, i)
  {
    KernelHoldsFile(m0, m, run, n);
    assert AllIntact(m0, m, run.loader, run.users, run.next, n);
    assert run.loader.start < run.loader.end <= |m0| < WORD_MOD;
    hide AllIntact, Extent, HoldsFile, LoadableDisjoint, PlaceElf, PlaceUsers, Progress, SafeRun, UnpackFits,
      UserHoldsFile;
    forall i | 0 <= i < n && LoadableDisjoint(run.users[i])
      ensures UserHoldsFile(m0, m, run, i)
    {
      OneUserPlaced(|m0|, run, n, i);
      OneUserHoldsFile(m0, m, run, n, i);
    }
  }

  lemma KernelHoldsFile(m0: seq<byte>, m: seq<byte>, run: Run, n: nat)
    requires SafeRun(|m0|, run) && n <= |run.users| && |m| == |m0| && Progress(m0, m, run, n)
    ensures UnpackFits(|m0|, run.kernel, run.kernelDest)
    ensures LoadableDisjoint(run.kernel) ==> HoldsFile(m0, m, run.kernel, run.kernelDest)
  {
    hide AllIntact, HoldsFile, Intact, LoadableDisjoint, OthersKept, PlaceElf, SafeUsers, SameLoader, UnpackFits;
    if LoadableDisjoint(run.kernel) {
      IntactHoldsFile(m0, m, run.loader, run.kernel, run.kernelDest, false);
    }
  }

  lemma OneUserHoldsFile(m0: seq<byte>, m: seq<byte>, run: Run, n: nat, i: nat)
    requires i < n <= |run.users| && |m| == |m0| && run.loader.start < run.loader.end <= |m0| < WORD_MOD
    requires AllIntact(m0, m, run.loader, run.users, run.next, n) && LoadableDisjoint(run.users[i])
    requires run.next + Extent(run.users, i) < WORD_MOD
    requires PlaceElf(run.loader, run.users[i], run.next + Extent(run.users, i), true).Some?
    ensures UserHoldsFile(m0, m, run, i)
  {
    hide Extent, HoldsFile, Intact, LoadableDisjoint, PlaceElf, RegionSize, Sane, TableLen, UnpackFits, WellFormed;
    IntactHoldsFile(m0, m, run.loader, run.users[i], run.next + Extent(run.users, i), true);
  }

  lemma OneUserPlaced(size: nat, run: Run, n: nat, i: nat)
    requires SafeRun(size, run) && i < n <= |run.users| && PlaceUsers(run.loader, run.users, run.next, n).Some?
    ensures run.next + Extent(run.users, i) < WORD_MOD
    ensures PlaceElf(run.loader, run.users[i], run.next + Extent(run.users, i), true).Some?
  {
    hide Extent, PlaceElf, PlaceUsers, SafeRun;
    PlacedBefore(run.loader, run.users, run.next, i + 1, n);
    PlacedBefore(run.loader, run.users, run.next, i, n);
    PlacedNext(run.loader, run.users, run.next, i);
    NextUser(size, run, i);
  }

  lemma PlacedNext(loader: Loader, elfs: seq<ElfFile>, dest: nat, n: nat)
    requires n < |elfs| && PlaceUsers(loader, elfs, dest, n).Some? && PlaceUsers(loader, elfs, dest, n + 1).Some?
    ensures PlaceElf(loader, elfs[n], PlaceUsers(loader, elfs, dest, n).value.1, true).Some?
  {
    hide PlaceElf;
  }

  lemma {:induction false} AllPlacedSane(size: nat, loader: Loader, elfs: seq<ElfFile>, dest: nat)
    requires SafeUsers(size, loader, elfs, dest) && PlaceUsers(loader, elfs, dest, |elfs|).Some?
    ensures AllSane(elfs)
  {
    hide PlaceElf, Sane, UnpackFits, WellFormed;
    forall i | 0 <= i < |elfs|
      ensures Sane(elfs[i])
    {
      PlacedBefore(loader, elfs, dest, i + 1, |elfs|);
    }
  }

  /**
   Whenever load_images returns, the kernel is page aligned, clear of the loader,
   described consistently and starts at its least physical address.
   */
  lemma KernelLaidOut(size: nat, run: Run)
    requires SafeRun(size, run)
    ensures var k := PlaceElf(run.loader, run.kernel, run.kernelDest, false).value.0;
      && PageAligned(k) && ClearOf(k, run.loader) && InfoConsistent(k)
      && k.physStart == run.kernelDest < k.physEnd == run.next <= size
      && (run.kernelDest == KernelDest(run.kernel) ==> StartsAtPaddr(run.kernel, k))
  {
    KernelSane(size, run);
    if run.kernelDest == KernelDest(run.kernel) {
      KernelStarts(run.loader, run.kernel);
    }
    hide ClearOf, ElfSafe, InfoConsistent, KernelDest, PageAligned, PlaceElf, RegionSize, SafeUsers, Sane,
      StartsAtPaddr, Trunc;
    PlacedWell(run.loader, run.kernel, run.kernelDest, false);
    PlacedClear(run.loader, run.kernel, run.kernelDest, false);
    Placed(run.loader, run.kernel, run.kernelDest, false);
    NextAfter(size, run.loader, run.kernel, run.kernelDest, false);
    TruncSmall(run.kernelDest + RegionSize(run.kernel));
  }

  lemma KernelSane(size: nat, run: Run)
    requires SafeRun(size, run)
    ensures Sane(run.kernel) && run.kernelDest + RegionSize(run.kernel) < WORD_MOD
  {
    hide PlaceElf, SafeUsers, UnpackFits, WellFormed;
  }

  /**
   And the user images follow the kernel in increasing order, one header page
   after each, page aligned, clear of the loader and described consistently.
   */
  lemma UsersLaidOut(size: nat, run: Run)
    requires SafeRun(size, run) && PlaceUsers(run.loader, run.users, run.next, |run.users|).Some?
    ensures var infos := PlaceUsers(run.loader, run.users, run.next, |run.users|).value.0;
      && |infos| == |run.users| && Stacked(infos, run.next)
      && forall info :: info in infos ==> PageAligned(info) && ClearOf(info, run.loader) && InfoConsistent(info)
  {
    hide ClearOf, ElfSafe, Extent, InfoConsistent, PageAligned, PlaceElf, PlaceUsers, SafeUsers, Sane, Stacked;
    KernelLaidOut(size, run);
    NextFree(size, run.loader, run.users, run.next, |run.users|);
    AllPlacedSane(size, run.loader, run.users, run.next);
    StackedIfFits(run.loader, run.users, run.next, |run.users|);
    UsersPlacedWell(run.loader, run.users, run.next, |run.users|);
  }

  // ---------- What the boot code and the kernel find ----------

  /** The address that the recorded offset gives for address v of header i. */
  lemma TranslatedTo(size: nat, loader: Loader, elf: ElfFile, dest: nat, keep: bool, i: nat, v: nat)
    requires ElfSafe(size, loader, elf, dest, keep) && PlaceElf(loader, elf, dest, keep).Some? && size < WORD_MOD
    requires i < |elf.phdrs| && elf.phdrs[i].vaddr <= v < elf.phdrs[i].vaddr + elf.phdrs[i].memsz
    ensures var h, offset := elf.phdrs[i], PlaceElf(loader, elf, dest, keep).value.0.physVirtOffset;
      && (v + offset) % WORD_MOD == Dest(elf, h, dest) + (v - h.vaddr) < dest + ImageSize(elf) <= size
      && FileLen(h) == h.filesz && dest <= Dest(elf, h, dest)
  {
    hide Bounds, Dest, FileLen, HeadersWithin, ImageSize, RegionsOverlap, RegionSize, RoundUpWord, Sane, VirtEnd,
      WellFormed;
    ImageInRegion(loader, elf, dest, keep);
    SegmentInRegion(size, elf, dest, i);
    var lo := Bounds(elf.phdrs, false).0;
    TruncSum(dest - lo, v);
    TruncSmall(dest + (v - lo));
    assert Trunc(v + Trunc(dest - lo)) == dest + (v - lo);
  }

  lemma FilePartFound(m0: seq<byte>, m: seq<byte>, loader: Loader, elf: ElfFile, dest: nat, keep: bool, i: nat, v: nat)
    requires ElfSafe(|m0|, loader, elf, dest, keep) && PlaceElf(loader, elf, dest, keep).Some?
    requires |m| == |m0| < WORD_MOD && HoldsFile(m0, m, elf, dest)
    requires i < |elf.phdrs| && InFilePart(elf.phdrs[i], v)
    ensures var offset := PlaceElf(loader, elf, dest, keep).value.0.physVirtOffset;
      HasByte(m0, m, elf, elf.phdrs[i], v, (v + offset) % WORD_MOD)
  {
    hide Covers, Dest, ElfSafe, FileLen, FileByte, ImageSize, PlaceElf, Source, UnpackFits, WellFormed;
    var h := elf.phdrs[i];
    SafeExtent(|m0|, loader, elf, dest, keep);
    FilePartInMemory(elf, i);
    TranslatedTo(|m0|, loader, elf, dest, keep, i, v);
    FileByteOf(m0, elf, dest, i, v);
  }

  lemma FilePartInMemory(elf: ElfFile, i: nat)
    requires WellFormed(elf) && i < |elf.phdrs|
    ensures elf.phdrs[i].filesz <= elf.phdrs[i].memsz
  {
  }

  lemma FileByteOf(m0: seq<byte>, elf: ElfFile, dest: nat, i: nat, v: nat)
    requires UnpackFits(|m0|, elf, dest) && i < |elf.phdrs| && InFilePart(elf.phdrs[i], v) && |m0| < WORD_MOD
    requires FileLen(elf.phdrs[i]) == elf.phdrs[i].filesz
    ensures var h, a := elf.phdrs[i], Dest(elf, elf.phdrs[i], dest) + (v - elf.phdrs[i].vaddr);
      && Covers(elf, dest, i, a)
      && (elf.base + h.offset + (v - h.vaddr) < |m0| ==>
            FileByte(m0, elf, dest, i, a) == m0[elf.base + h.offset + (v - h.vaddr)])
  {
    hide Dest, FileLen, ImageSize;
    var h := elf.phdrs[i];
    if elf.base + h.offset + (v - h.vaddr) < |m0| {
      TruncSmall(elf.base + h.offset);
    }
  }

  lemma ZeroPartFound(m0: seq<byte>, m: seq<byte>, loader: Loader, elf: ElfFile, dest: nat, keep: bool, i: nat, v: nat)
    requires ElfSafe(|m0|, loader, elf, dest, keep) && PlaceElf(loader, elf, dest, keep).Some?
    requires |m| == |m0| < WORD_MOD && HoldsFile(m0, m, elf, dest) && LoadableDisjoint(elf)
    requires i < |elf.phdrs| && InZeroPart(elf.phdrs[i], v)
    ensures var offset := PlaceElf(loader, elf, dest, keep).value.0.physVirtOffset;
      HasZero(m, (v + offset) % WORD_MOD)
  {
    var h := elf.phdrs[i];
    TranslatedTo(|m0|, loader, elf, dest, keep, i, v);
    ImageInRegion(loader, elf, dest, keep);
    assert UnpackFits(|m0|, elf, dest) && WellFormed(elf);
    hide Bounds, Dest, ElfSafe, FileLen, ImageSize, LoadableDisjoint, PlaceElf, UnpackFits, WellFormed;
    NothingCovers(|m0|, elf, dest, i, Dest(elf, h, dest) + (v - h.vaddr));
  }

  lemma NothingCovers(size: nat, elf: ElfFile, dest: nat, i: nat, a: nat)
    requires UnpackFits(size, elf, dest) && WellFormed(elf) && LoadableDisjoint(elf)
    requires Bounds(elf.phdrs, false).1 - Bounds(elf.phdrs, false).0 < WORD_MOD
    requires i < |elf.phdrs| && elf.phdrs[i].kind == PT_LOAD
    requires elf.phdrs[i].filesz <= a - Dest(elf, elf.phdrs[i], dest) < elf.phdrs[i].memsz
    ensures forall j: nat :: !Covers(elf, dest, j, a)
  {
    hide Bounds, Dest, FileLen, LoadableDisjoint, UnpackFits, WellFormed;
    forall j: nat | j < |elf.phdrs|
      ensures !Covers(elf, dest, j, a)
    {
      OnlyOwnSegmentCovers(size, elf, dest, i, j, a - Dest(elf, elf.phdrs[i], dest));
    }
  }

  lemma ImageIsMapped(m0: seq<byte>, m: seq<byte>, loader: Loader, elf: ElfFile, dest: nat, keep: bool)
    requires ElfSafe(|m0|, loader, elf, dest, keep) && PlaceElf(loader, elf, dest, keep).Some?
    requires |m| == |m0| < WORD_MOD && HoldsFile(m0, m, elf, dest) && LoadableDisjoint(elf)
    requires Describes(PlaceElf(loader, elf, dest, keep).value.0, elf)
    ensures MapsFile(m0, m, elf, PlaceElf(loader, elf, dest, keep).value.0)
  {
    hide Describes, ElfSafe, HasByte, HasZero, HoldsFile, LoadableDisjoint, PlaceElf;
    var info := PlaceElf(loader, elf, dest, keep).value.0;
    EntryAddress(info, elf);
    forall h, v: nat | h in elf.phdrs && InFilePart(h, v)
      ensures HasByte(m0, m, elf, h, v, (v + info.physVirtOffset) % WORD_MOD)
    {
      var i: nat :| i < |elf.phdrs| && elf.phdrs[i] == h;
      FilePartFound(m0, m, loader, elf, dest, keep, i, v);
    }
    forall h, v: nat | h in elf.phdrs && InZeroPart(h, v)
      ensures HasZero(m, (v + info.physVirtOffset) % WORD_MOD)
    {
      var i: nat :| i < |elf.phdrs| && elf.phdrs[i] == h;
      ZeroPartFound(m0, m, loader, elf, dest, keep, i, v);
    }
  }

  lemma EntryAddress(info: ImageInfo, elf: ElfFile)
    requires Describes(info, elf)
    ensures (info.virtEntry + info.physVirtOffset) % WORD_MOD == (elf.entry + info.physVirtOffset) % WORD_MOD
  {
    assert info.virtEntry == Trunc(elf.entry);
    TruncSum(elf.entry, info.physVirtOffset);
    assert Trunc(info.virtEntry + info.physVirtOffset) == Trunc(elf.entry + info.physVirtOffset);
  }

  lemma HeadersTold(m0: seq<byte>, m: seq<byte>, loader: Loader, elf: ElfFile, dest: nat)
    requires ElfSafe(|m0|, loader, elf, dest, true) && PlaceElf(loader, elf, dest, true).Some?
    requires loader.start < loader.end <= |m0| == |m| < WORD_MOD && dest < WORD_MOD
    requires Intact(m0, m, loader, elf, dest, true)
    ensures TellsHeaders(m0, m, elf, dest + RegionSize(elf))
  {
    hide ElfSafe, Headers, Intact, LeBytes, LeValue, PlaceElf, RegionSize, Sane, Unpacked;
    PageIsHeaders(m0, m, loader, elf, dest);
    TableKept(m0, loader, elf, dest);
    HeadersRead(Unpacked(m0, elf, dest, |elf.phdrs|), elf);
    Subslices(m, dest + RegionSize(elf), Headers(Unpacked(m0, elf, dest, |elf.phdrs|), elf));
    U32IsLeValue(m, dest + RegionSize(elf));
    U32IsLeValue(m, dest + RegionSize(elf) + 4);
  }

  lemma U32IsLeValue(m: seq<byte>, a: nat)
    requires a + 4 <= |m|
    ensures U32At(m, a) == LeValue(m[a..a + 4])
  {
    var b := m[a..a + 4];
    assert b[1..][1..] == b[2..] && b[2..][1..] == b[3..] && b[3..][1..] == [];
    assert LeValue(b[3..]) == b[3] as nat;
    assert LeValue(b[2..]) == b[2] as nat + 0x100 * b[3] as nat;
  }

  /** Reading the header page back. */
  lemma HeadersRead(u: seq<byte>, elf: ElfFile)
    requires elf.base + elf.phoff + TableLen(elf) <= |u| && |elf.phdrs| < 0x1_0000 && elf.phentsize < 0x1_0000
    ensures var headers, table := Headers(u, elf), elf.base + elf.phoff;
      && LeValue(headers[..4]) == |elf.phdrs| && LeValue(headers[4..8]) == elf.phentsize
      && headers[8..] == u[table..table + TableLen(elf)]
  {
    hide LeBytes, LeValue, TableLen;
    assert Pow256(4) == 0x1_0000_0000;
    StoreThenLoad(|elf.phdrs|, 4);
    StoreThenLoad(elf.phentsize, 4);
    assert Headers(u, elf)[..4] == LeBytes(|elf.phdrs|, 4);
    assert Headers(u, elf)[4..8] == LeBytes(elf.phentsize, 4);
  }

  lemma Subslices(m: seq<byte>, page: nat, headers: seq<byte>)
    requires |headers| >= 8 && page + |headers| <= |m| && m[page..page + |headers|] == headers
    ensures m[page..page + 4] == headers[..4] && m[page + 4..page + 8] == headers[4..8]
    ensures m[page + 8..page + |headers|] == headers[8..]
  {
    forall k: nat | k < |headers|
      ensures m[page + k] == headers[k]
    {
      assert m[page..page + |headers|][k] == m[page + k];
    }
    assert forall k: nat {:trigger headers[k]} :: 4 <= k < 8 ==> m[page + 4..page + 8][k - 4] == headers[k];
  }

  lemma PageIsHeaders(m0: seq<byte>, m: seq<byte>, loader: Loader, elf: ElfFile, dest: nat)
    requires ElfSafe(|m0|, loader, elf, dest, true) && loader.end <= |m0| == |m|
    requires Intact(m0, m, loader, elf, dest, true)
    ensures var page, headers := dest + RegionSize(elf), Headers(Unpacked(m0, elf, dest, |elf.phdrs|), elf);
      page + |headers| <= |m| && m[page..page + |headers|] == headers
    ensures |elf.phdrs| < 0x1_0000 && elf.phentsize < 0x1_0000
  {
    hide ElfSafe, Headers, ImageSize, Intact, RegionSize, TableLen, Unpacked;
    HeadersFit(|m0|, loader, elf, dest);
    var page, headers := dest + RegionSize(elf), Headers(Unpacked(m0, elf, dest, |elf.phdrs|), elf);
    forall k: nat | k < |headers|
      ensures m[page + k] == headers[k]
    {
      PageByte(m0, m, loader, elf, dest, k);
    }
  }

  lemma HeadersFit(size: nat, loader: Loader, elf: ElfFile, dest: nat)
    requires ElfSafe(size, loader, elf, dest, true) && loader.end <= size
    ensures UnpackFits(size, elf, dest) && elf.base + elf.phoff + TableLen(elf) <= size
    ensures dest + RegionSize(elf) + 8 + TableLen(elf) <= size
    ensures |elf.phdrs| < 0x1_0000 && elf.phentsize < 0x1_0000
  {
    hide ImageSize, RegionSize, Sane, TableLen, UnpackFits, WellFormed;
  }

  lemma PageByte(m0: seq<byte>, m: seq<byte>, loader: Loader, elf: ElfFile, dest: nat, k: nat)
    requires ElfSafe(|m0|, loader, elf, dest, true) && loader.end <= |m0| == |m|
    requires Intact(m0, m, loader, elf, dest, true) && k < 8 + TableLen(elf)
    ensures UnpackFits(|m0|, elf, dest) && elf.base + elf.phoff + TableLen(elf) <= |m0|
    ensures var a := dest + RegionSize(elf) + k;
      a < |m| && m[a] == Headers(Unpacked(m0, elf, dest, |elf.phdrs|), elf)[k]
  {
    hide ElfSafe, Headers, ImageSize, RegionSize, TableLen, UnpackFits, Unpacked, Written;
    HeadersFit(|m0|, loader, elf, dest);
    WrittenHeaderByte(m0, loader, elf, dest, k);
    assert Owns(elf, dest, true, dest + RegionSize(elf) + k);
  }

  lemma WrittenHeaderByte(m: seq<byte>, loader: Loader, elf: ElfFile, dest: nat, k: nat)
    requires ElfSafe(|m|, loader, elf, dest, true) && loader.end <= |m| && k < 8 + TableLen(elf)
    ensures UnpackFits(|m|, elf, dest) && elf.base + elf.phoff + TableLen(elf) <= |m|
    ensures var a := dest + RegionSize(elf) + k;
      a < |m| && Written(m, loader, elf, dest, true)[a] == Headers(Unpacked(m, elf, dest, |elf.phdrs|), elf)[k]
  {
    hide ElfSafe, Headers, ImageSize, Overwrite, RegionSize, TableLen, UnpackFits, Unpacked;
    HeadersFit(|m|, loader, elf, dest);
    OverwrittenAt(Unpacked(m, elf, dest, |elf.phdrs|), dest + RegionSize(elf),
      Headers(Unpacked(m, elf, dest, |elf.phdrs|), elf), k);
  }

  lemma OverwrittenAt(s: seq<byte>, at: nat, data: seq<byte>, k: nat)
    requires at + |data| <= |s| && k < |data|
    ensures Overwrite(s, at, data)[at + k] == data[k]
  {
  }

  lemma TableKept(m0: seq<byte>, loader: Loader, elf: ElfFile, dest: nat)
    requires ElfSafe(|m0|, loader, elf, dest, true) && PlaceElf(loader, elf, dest, true).Some?
    requires loader.start < loader.end <= |m0| < WORD_MOD && dest < WORD_MOD
    ensures UnpackFits(|m0|, elf, dest)
    ensures var table, len, u := elf.base + elf.phoff, TableLen(elf), Unpacked(m0, elf, dest, |elf.phdrs|);
      table + len <= |m0| && u[table..table + len] == m0[table..table + len]
  {
    hide ImageSize, PlaceElf, RegionSize, Sane, TableLen, UnpackFits, Unpacked, WellFormed;
    var table, len, u := elf.base + elf.phoff, TableLen(elf), Unpacked(m0, elf, dest, |elf.phdrs|);
    forall a: nat | table <= a < table + len
      ensures u[a] == m0[a]
    {
      UnpackedKeepsLoader(m0, loader, elf, dest, true, a);
    }
  }

  /** An image that is intact is loaded, whatever else has been loaded since. */
  lemma IntactIsLoaded(m0: seq<byte>, m: seq<byte>, loader: Loader, elf: ElfFile, dest: nat, keep: bool)
    requires ElfSafe(|m0|, loader, elf, dest, keep) && PlaceElf(loader, elf, dest, keep).Some? && dest < WORD_MOD
    requires loader.start < loader.end <= |m0| == |m| < WORD_MOD && Intact(m0, m, loader, elf, dest, keep)
    ensures ElfLoaded(m0, m, elf, PlaceElf(loader, elf, dest, keep).value.0, keep)
  {
    hide Describes, ElfSafe, HoldsFile, Intact, LoadableDisjoint, MapsFile, PlaceElf, RegionSize, Sane, TellsHeaders,
      UnpackFits;
    SafeExtent(|m0|, loader, elf, dest, keep);
    PlacedDescribes(loader, elf, dest, keep);
    Placed(loader, elf, dest, keep);
    TruncSmall(dest + RegionSize(elf));
    if keep {
      HeadersTold(m0, m, loader, elf, dest);
    }
    if LoadableDisjoint(elf) {
      IntactHoldsFile(m0, m, loader, elf, dest, keep);
      ImageIsMapped(m0, m, loader, elf, dest, keep);
    }
  }

  lemma SafeExtent(size: nat, loader: Loader, elf: ElfFile, dest: nat, keep: bool)
    requires ElfSafe(size, loader, elf, dest, keep) && size < WORD_MOD
    ensures Sane(elf) && WellFormed(elf) && UnpackFits(size, elf, dest) && dest + RegionSize(elf) < WORD_MOD
  {
    hide RegionSize, Sane, UnpackFits, WellFormed;
  }

  /** What load_elf achieves. */
  lemma WrittenIsLoaded(m: seq<byte>, loader: Loader, elf: ElfFile, dest: nat, keep: bool)
    requires ElfSafe(|m|, loader, elf, dest, keep) && PlaceElf(loader, elf, dest, keep).Some? && dest < WORD_MOD
    requires loader.start < loader.end <= |m| < WORD_MOD
    ensures ElfLoaded(m, Written(m, loader, elf, dest, keep), elf, PlaceElf(loader, elf, dest, keep).value.0, keep)
  {
    hide ElfLoaded, ElfSafe, Intact, PlaceElf, Written;
    LoadedIntact(m, m, loader, elf, dest, keep);
    IntactIsLoaded(m, Written(m, loader, elf, dest, keep), loader, elf, dest, keep);
  }

  // ---------- The kernel ----------

  /** All headers with something to load are linked at one distance from where they want to be. */
  ghost predicate OneShift(elf: ElfFile) {
    forall g, h :: g in elf.phdrs && h in elf.phdrs && g.memsz != 0 && h.memsz != 0 ==>
      g.paddr - g.vaddr == h.paddr - h.vaddr
  }

  /** Every loadable segment lies at its own p_paddr. */
  ghost predicate AtOwnAddresses(m0: seq<byte>, m: seq<byte>, elf: ElfFile) {
    forall h, v: nat :: h in elf.phdrs && InFilePart(h, v) ==>
      HasByte(m0, m, elf, h, v, (h.paddr + (v - h.vaddr)) % WORD_MOD)
  }

  /** The region starts at the least p_paddr. */
  ghost predicate StartsAtPaddr(elf: ElfFile, info: ImageInfo) {
    exists x: nat :: LeastPaddr(elf.phdrs, x) && info.physStart == x % WORD_MOD
  }

  lemma KernelStarts(loader: Loader, elf: ElfFile)
    requires PlaceElf(loader, elf, KernelDest(elf), false).Some? && Sane(elf)
    ensures StartsAtPaddr(elf, PlaceElf(loader, elf, KernelDest(elf), false).value.0)
  {
    hide AllEmpty, Bounds, LeastPaddr, LeastVaddr, NoWrap, RegionsOverlap, RegionSize, RoundUpWord, VirtEnd;
    LowIsLeast(elf.phdrs);
  }

  /** The least physical and the least virtual address then belong to the same header. */
  lemma LeastTogether(elf: ElfFile, lo: nat, x: nat, h: Phdr)
    requires OneShift(elf) && LeastVaddr(elf.phdrs, lo) && LeastPaddr(elf.phdrs, x) && h in elf.phdrs && h.memsz != 0
    ensures h.paddr - h.vaddr == x - lo
  {
    var g :| g in elf.phdrs && g.memsz != 0 && g.paddr == x;
    var f :| f in elf.phdrs && f.memsz != 0 && f.vaddr == lo;
  }

  lemma KernelAtOwnAddresses(m0: seq<byte>, m: seq<byte>, elf: ElfFile, info: ImageInfo)
    requires Describes(info, elf) && StartsAtPaddr(elf, info) && MapsFile(m0, m, elf, info) && OneShift(elf)
    requires WellFormed(elf)
    ensures AtOwnAddresses(m0, m, elf)
  {
    hide Describes, HasByte, HasZero, OneShift, StartsAtPaddr, WellFormed;
    forall h, v: nat | h in elf.phdrs && InFilePart(h, v)
      ensures HasByte(m0, m, elf, h, v, (h.paddr + (v - h.vaddr)) % WORD_MOD)
    {
      var i: nat :| i < |elf.phdrs| && elf.phdrs[i] == h;
      FilePartInMemory(elf, i);
      OwnAddress(elf, info, h, v);
    }
  }

  lemma OwnAddress(elf: ElfFile, info: ImageInfo, h: Phdr, v: nat)
    requires Describes(info, elf) && StartsAtPaddr(elf, info) && OneShift(elf)
    requires h in elf.phdrs && h.memsz != 0 && h.vaddr <= v
    ensures (v + info.physVirtOffset) % WORD_MOD == (h.paddr + (v - h.vaddr)) % WORD_MOD
  {
    hide Bounds, Describes, LeastPaddr, LeastVaddr, OneShift, Trunc;
    var x: nat :| LeastPaddr(elf.phdrs, x) && info.physStart == x % WORD_MOD;
    var lo := LowestAddress(info, elf, x);
    LeastTogether(elf, lo, x, h);
    TruncSum(lo + info.physVirtOffset, v - lo);
    TruncSum(x, v - lo);
    SameAddress(v + info.physVirtOffset, h.paddr + (v - h.vaddr));
  }

  lemma LowestAddress(info: ImageInfo, elf: ElfFile, x: nat) returns (lo: nat)
    requires Describes(info, elf) && info.physStart == x % WORD_MOD
    ensures LeastVaddr(elf.phdrs, lo) && Trunc(lo + info.physVirtOffset) == Trunc(x)
  {
    hide GreatestEnd, LeastVaddr;
    lo := Bounds(elf.phdrs, false).0;
  }

  /**
   In general load_elf keeps the virtual layout: a segment is at its own p_paddr
   exactly if it is linked at the distance of the lowest addresses.
   */
  lemma OwnAddressIff(elf: ElfFile, info: ImageInfo, h: Phdr, v: nat, lo: nat, x: nat)
    requires Describes(info, elf) && LeastVaddr(elf.phdrs, lo) && LeastPaddr(elf.phdrs, x)
    requires info.physStart == x % WORD_MOD && h.vaddr <= v
    ensures (v + info.physVirtOffset) % WORD_MOD == (h.paddr + (v - h.vaddr)) % WORD_MOD
       <==> (h.paddr - h.vaddr) % WORD_MOD == (x - lo) % WORD_MOD
  {
    hide Bounds, Describes, LeastPaddr, LeastVaddr, Trunc;
    var least := LowestAddress(info, elf, x);
    OneLeast(elf.phdrs, lo, least);
    TruncSum(lo + info.physVirtOffset, v - lo);
    TruncSum(x, v - lo);
    TruncSum(x + (v - lo), 0 - v);
    TruncSum(h.paddr + (v - h.vaddr), 0 - v);
    TruncSum(x - lo, v);
    TruncSum(h.paddr - h.vaddr, v);
    TruncIs(v + info.physVirtOffset);
    TruncIs(h.paddr + (v - h.vaddr));
    TruncIs(h.paddr - h.vaddr);
    TruncIs(x - lo);
  }

  lemma OneLeast(hs: seq<Phdr>, x: nat, y: nat)
    requires LeastVaddr(hs, x) && LeastVaddr(hs, y)
    ensures x == y
  {
  }

  lemma TruncIs(a: int)
    ensures Trunc(a) == a % WORD_MOD
  {
  }

  lemma SameAddress(a: int, b: int)
    requires Trunc(a) == Trunc(b)
    ensures a % WORD_MOD == b % WORD_MOD
  {
  }

  // ---------- The whole system ----------

  ghost predicate KernelLoaded(m0: seq<byte>, m: seq<byte>, elf: ElfFile, info: ImageInfo) {
    && ElfLoaded(m0, m, elf, info, false) && StartsAtPaddr(elf, info)
    && (LoadableDisjoint(elf) && OneShift(elf) ==> AtOwnAddresses(m0, m, elf))
  }

  /** Address a belongs to the segments of the image or lies between them. */
  predicate InImage(elf: ElfFile, info: ImageInfo, a: nat) {
    info.physStart <= a < info.physStart + (Bounds(elf.phdrs, false).1 - Bounds(elf.phdrs, false).0)
  }

  /** Or to what is written on the header page. */
  predicate InUserMemory(elf: ElfFile, info: ImageInfo, a: nat) {
    InImage(elf, info, a) || info.physEnd <= a < info.physEnd + 8 + elf.phentsize * |elf.phdrs|
  }

  ghost predicate InSomeImage(c: Config, kernel: ImageInfo, infos: seq<ImageInfo>, a: nat)
    requires |infos| < |c.archive|
  {
    || InImage(c.archive[0].elf, kernel, a)
    || exists i :: 0 <= i < |infos| && InUserMemory(c.archive[i + 1].elf, infos[i], a)
  }

  /** Nothing else in memory has changed. */
  ghost predicate RestKept(m0: seq<byte>, m: seq<byte>, c: Config, kernel: ImageInfo, infos: seq<ImageInfo>)
    requires |infos| < |c.archive| && |m| == |m0|
  {
    forall a: nat :: a < |m| && !InSomeImage(c, kernel, infos, a) ==> m[a] == m0[a]
  }

  /**
   What load_images leaves: the first file as the kernel, at least physical
   address, the next files up to max behind it, one page apart, and the rest of
   memory as it was.
   */
  ghost predicate Booted(m0: seq<byte>, m: seq<byte>, c: Config, max: nat, kernel: ImageInfo, infos: seq<ImageInfo>) {
    && |c.archive| > 0 && c.archive[0].name == "kernel.elf" && |m| == |m0|
    && |infos| == (if max < |c.archive| - 1 then max else |c.archive| - 1)
    && KernelLoaded(m0, m, c.archive[0].elf, kernel)
    && (forall i :: 0 <= i < |infos| ==> ElfLoaded(m0, m, c.archive[i + 1].elf, infos[i], true))
    && Stacked(infos, kernel.physEnd)
    && RestKept(m0, m, c, kernel, infos)
  }

  lemma KernelIsLoaded(m0: seq<byte>, m: seq<byte>, run: Run, n: nat)
    requires SafeRun(|m0|, run) && n <= |run.users| && |m| == |m0| && Progress(m0, m, run, n)
    requires run.kernelDest == KernelDest(run.kernel)
    ensures KernelLoaded(m0, m, run.kernel, PlaceElf(run.loader, run.kernel, run.kernelDest, false).value.0)
  {
    hide AtOwnAddresses, Describes, ElfSafe, HoldsFile, Intact, KernelDest, LoadableDisjoint, MapsFile, OneShift,
      PlaceElf, RegionSize, Sane, StartsAtPaddr, TellsHeaders, UnpackFits, WellFormed;
    var elf, info := run.kernel, PlaceElf(run.loader, run.kernel, run.kernelDest, false).value.0;
    KernelInRun(m0, m, run, n);
    SafeExtent(|m0|, run.loader, elf, run.kernelDest, false);
    IntactIsLoaded(m0, m, run.loader, elf, run.kernelDest, false);
    KernelStarts(run.loader, elf);
    if LoadableDisjoint(elf) && OneShift(elf) {
      KernelAtOwnAddresses(m0, m, elf, info);
    }
  }

  lemma KernelInRun(m0: seq<byte>, m: seq<byte>, run: Run, n: nat)
    requires SafeRun(|m0|, run) && n <= |run.users| && |m| == |m0| && Progress(m0, m, run, n)
    ensures ElfSafe(|m0|, run.loader, run.kernel, run.kernelDest, false) && run.kernelDest < WORD_MOD
    ensures PlaceElf(run.loader, run.kernel, run.kernelDest, false).Some?
    ensures run.loader.start < run.loader.end <= |m0| < WORD_MOD
    ensures Intact(m0, m, run.loader, run.kernel, run.kernelDest, false)
  {
    hide AllIntact, ElfSafe, Intact, OthersKept, PlaceElf, SafeUsers, SameLoader;
  }

  /** The information recorded for user image i is that of its placement. */
  lemma {:induction false} InfoAt(loader: Loader, elfs: seq<ElfFile>, dest: nat, i: nat, n: nat)
    requires i < n <= |elfs| && PlaceUsers(loader, elfs, dest, n).Some?
    ensures PlaceUsers(loader, elfs, dest, i).Some? && |PlaceUsers(loader, elfs, dest, n).value.0| == n
    ensures var placed := PlaceElf(loader, elfs[i], PlaceUsers(loader, elfs, dest, i).value.1, true);
      placed.Some? && PlaceUsers(loader, elfs, dest, n).value.0[i] == placed.value.0
  {
    hide PlaceElf;
    PlacedCount(loader, elfs, dest, n);
    if i + 1 < n {
      InfoAt(loader, elfs, dest, i, n - 1);
    }
  }

  /** Where the run puts user image i, */
  lemma UserPlaced(size: nat, run: Run, n: nat, i: nat) returns (at: nat, info: ImageInfo)
    requires SafeRun(size, run) && i < n <= |run.users| && PlaceUsers(run.loader, run.users, run.next, n).Some?
    ensures |PlaceUsers(run.loader, run.users, run.next, n).value.0| == n
    ensures PlaceUsers(run.loader, run.users, run.next, n).value.0[i] == info
    ensures at == run.next + Extent(run.users, i) < WORD_MOD
    ensures IsPlaced(PlaceElf(run.loader, run.users[i], at, true), info)
    ensures ElfSafe(size, run.loader, run.users[i], at, true)
  {
    hide ElfSafe, Extent, PlaceElf, PlaceUsers, SafeRun;
    InfoAt(run.loader, run.users, run.next, i, n);
    NextUser(size, run, i);
    at := run.next + Extent(run.users, i);
    info := PlaceElf(run.loader, run.users[i], at, true).value.0;
  }

  predicate IsPlaced(r: Option<(ImageInfo, nat)>, info: ImageInfo) {
    r.Some? && r.value.0 == info
  }

  lemma RunWithin(size: nat, run: Run)
    requires SafeRun(size, run)
    ensures run.loader.start < run.loader.end <= size < WORD_MOD
    ensures PlaceElf(run.loader, run.kernel, run.kernelDest, false).Some?
  {
    hide ElfSafe, PlaceElf, SafeUsers;
  }

  /** and that it is intact there in the end. */
  lemma UserAt(m0: seq<byte>, m: seq<byte>, run: Run, n: nat, i: nat, at: nat)
    requires SafeRun(|m0|, run) && i < n <= |run.users| && |m| == |m0| && Progress(m0, m, run, n)
    requires run.loader.end <= |m0| && at == run.next + Extent(run.users, i)
    requires ElfSafe(|m0|, run.loader, run.users[i], at, true)
    ensures Intact(m0, m, run.loader, run.users[i], at, true)
  {
    hide AllIntact, ElfSafe, Extent, Intact, OthersKept, SafeRun, SameLoader;
    IntactOf(m0, m, run.loader, run.users, run.next, n, i);
  }

  lemma IntactOf(m0: seq<byte>, m: seq<byte>, loader: Loader, elfs: seq<ElfFile>, dest: nat, n: nat, i: nat)
    requires i < n <= |elfs| && loader.end <= |m0| == |m| && AllIntact(m0, m, loader, elfs, dest, n)
    requires ElfSafe(|m0|, loader, elfs[i], dest + Extent(elfs, i), true)
    ensures Intact(m0, m, loader, elfs[i], dest + Extent(elfs, i), true)
  {
    hide ElfSafe, Extent, ImageSize, Intact, RegionSize;
  }

  lemma UserIsLoaded(m0: seq<byte>, m: seq<byte>, run: Run, n: nat, i: nat)
    requires SafeRun(|m0|, run) && i < n <= |run.users| && |m| == |m0| && Progress(m0, m, run, n)
    requires PlaceUsers(run.loader, run.users, run.next, n).Some?
    ensures |PlaceUsers(run.loader, run.users, run.next, n).value.0| == n
    ensures ElfLoaded(m0, m, run.users[i], PlaceUsers(run.loader, run.users, run.next, n).value.0[i], true)
  {
    hide ElfLoaded, ElfSafe, Extent, Intact, PlaceElf, PlaceUsers, Progress, SafeRun;
    RunWithin(|m0|, run);
    var at, info := UserPlaced(|m0|, run, n, i);
    UserAt(m0, m, run, n, i, at);
    IntactIsLoaded(m0, m, run.loader, run.users[i], at, true);
  }

  lemma PhysRange(loader: Loader, elf: ElfFile, dest: nat, keep: bool, a: nat)
    requires PlaceElf(loader, elf, dest, keep).Some? && Sane(elf) && dest + RegionSize(elf) < WORD_MOD
    ensures var info := PlaceElf(loader, elf, dest, keep).value.0;
      Owns(elf, dest, keep, a) ==> if keep then InUserMemory(elf, info, a) else InImage(elf, info, a)
  {
    hide PlaceElf, RegionSize, Sane, Trunc;
    ImageInRegion(loader, elf, dest, keep);
    Placed(loader, elf, dest, keep);
    TruncSmall(dest + RegionSize(elf));
  }

  lemma RunKeepsRest(m0: seq<byte>, m: seq<byte>, run: Run, n: nat, c: Config)
    requires SafeRun(|m0|, run) && n <= |run.users| && |m| == |m0| && Progress(m0, m, run, n)
    requires PlaceUsers(run.loader, run.users, run.next, n).Some?
    requires n < |c.archive| && c.archive[0].elf == run.kernel
    requires forall i :: 0 <= i < n ==> c.archive[i + 1].elf == run.users[i]
    ensures |PlaceUsers(run.loader, run.users, run.next, n).value.0| == n
    ensures RestKept(m0, m, c, PlaceElf(run.loader, run.kernel, run.kernelDest, false).value.0,
              PlaceUsers(run.loader, run.users, run.next, n).value.0)
  {
    PlacedCount(run.loader, run.users, run.next, n);
    assert OthersKept(m0, m, run, n);
    var kernel := PlaceElf(run.loader, run.kernel, run.kernelDest, false).value.0;
    var infos := PlaceUsers(run.loader, run.users, run.next, n).value.0;
    hide InSomeImage, PlaceElf, PlaceUsers, Progress, RunOwns, SafeRun;
    forall a: nat | a < |m| && !InSomeImage(c, kernel, infos, a)
      ensures !RunOwns(run, n, a)
    {
      OwnedIsInImage(|m0|, run, n, c, a);
    }
  }

  lemma OwnedIsInImage(size: nat, run: Run, n: nat, c: Config, a: nat)
    requires SafeRun(size, run) && n <= |run.users| && PlaceUsers(run.loader, run.users, run.next, n).Some?
    requires n < |c.archive| && c.archive[0].elf == run.kernel
    requires forall i :: 0 <= i < n ==> c.archive[i + 1].elf == run.users[i]
    ensures |PlaceUsers(run.loader, run.users, run.next, n).value.0| == n
    ensures RunOwns(run, n, a) ==>
      InSomeImage(c, PlaceElf(run.loader, run.kernel, run.kernelDest, false).value.0,
        PlaceUsers(run.loader, run.users, run.next, n).value.0, a)
  {
    hide Extent, InImage, InUserMemory, Owns, PlaceElf, PlaceUsers, SafeRun;
    RunWithin(size, run);
    PlacedCount(run.loader, run.users, run.next, n);
    if Owns(run.kernel, run.kernelDest, false, a) {
      KernelRange(size, run, a);
    } else if i :| 0 <= i < n && Owns(run.users[i], run.next + Extent(run.users, i), true, a) {
      UserRange(size, run, n, i, a);
      assert c.archive[i + 1].elf == run.users[i];
    }
  }

  lemma KernelRange(size: nat, run: Run, a: nat)
    requires SafeRun(size, run) && Owns(run.kernel, run.kernelDest, false, a)
    ensures InImage(run.kernel, PlaceElf(run.loader, run.kernel, run.kernelDest, false).value.0, a)
  {
    hide ElfSafe, InImage, Owns, PlaceElf, RegionSize, SafeUsers, Sane;
    KernelSane(size, run);
    PhysRange(run.loader, run.kernel, run.kernelDest, false, a);
  }

  lemma UserRange(size: nat, run: Run, n: nat, i: nat, a: nat)
    requires SafeRun(size, run) && i < n <= |run.users|
    requires PlaceUsers(run.loader, run.users, run.next, n).Some?
    requires Owns(run.users[i], run.next + Extent(run.users, i), true, a)
    ensures |PlaceUsers(run.loader, run.users, run.next, n).value.0| == n
    ensures InUserMemory(run.users[i], PlaceUsers(run.loader, run.users, run.next, n).value.0[i], a)
  {
    hide ElfSafe, Extent, InUserMemory, Owns, PlaceElf, PlaceUsers, RegionSize, SafeRun, Sane;
    var at, info := UserPlaced(size, run, n, i);
    RunWithin(size, run);
    SafeExtent(size, run.loader, run.users[i], at, true);
    PhysRange(run.loader, run.users[i], at, true, a);
  }

  lemma RunFiles(c: Config, max: nat)
    requires RunOf(c, max).Some? && |c.archive| > 0 && c.archive[0].name == "kernel.elf"
    ensures Find(c.archive, "kernel.elf") == Some(c.archive[0])
    ensures |Users(c, max)| == if max < |c.archive| - 1 then max else |c.archive| - 1
    ensures forall i :: 0 <= i < |Users(c, max)| ==> Users(c, max)[i] == c.archive[i + 1]
    ensures var run, kernel := RunOf(c, max).value, c.archive[0].elf;
      && run.loader == c.loader && run.kernel == kernel && run.kernelDest == KernelDest(kernel)
      && |run.users| == |Users(c, max)| && forall i :: 0 <= i < |run.users| ==> run.users[i] == c.archive[i + 1].elf
  {
    hide KernelDest, PlaceElf;
  }

  /** A run that comes to its end leaves the system that the next stage expects. */
  lemma RunIsBooted(m0: seq<byte>, m: seq<byte>, c: Config, max: nat, run: Run)
    requires RunSafe(|m0|, c, max) && RunOf(c, max) == Some(run) && |m| == |m0|
    requires |c.archive| > 0 && c.archive[0].name == "kernel.elf"
    requires PlaceUsers(run.loader, run.users, run.next, |run.users|).Some? && Progress(m0, m, run, |run.users|)
    requires PlaceElf(run.loader, run.kernel, run.kernelDest, false).Some?
    ensures Booted(m0, m, c, max, PlaceElf(run.loader, run.kernel, run.kernelDest, false).value.0,
              PlaceUsers(run.loader, run.users, run.next, |run.users|).value.0)
  {
    hide ElfLoaded, KernelDest, KernelLoaded, PlaceElf, PlaceUsers, Progress, RestKept, RunOf, SafeRun, Stacked, Users;
    var n := |run.users|;
    RunFiles(c, max);
    KernelIsLoaded(m0, m, run, n);
    RunKeepsRest(m0, m, run, n, c);
    UsersLaidOut(|m0|, run);
    KernelEnd(|m0|, run);
    forall i | 0 <= i < n
      ensures ElfLoaded(m0, m, c.archive[i + 1].elf, PlaceUsers(run.loader, run.users, run.next, n).value.0[i], true)
    {
      UserIsLoaded(m0, m, run, n, i);
    }
  }

  lemma KernelEnd(size: nat, run: Run)
    requires SafeRun(size, run)
    ensures PlaceElf(run.loader, run.kernel, run.kernelDest, false).value.0.physEnd == run.next
  {
    hide PlaceElf, SafeRun;
    KernelLaidOut(size, run);
  }

  // ---------- load_images ----------

  /** load_images returns exactly for an archive whose first file is the kernel, that fits, and whose digests agree. */
  lemma AcceptsIff(m: seq<byte>, c: Config, max: nat)
    requires RunSafe(|m|, c, max)
    ensures Accepts(m, c, max) <==>
      && |c.archive| > 0 && c.archive[0].name == "kernel.elf" && RunPlaced(c, max)
      && DigestAccepted(m, c, c.archive[0], "kernel.bin")
      && forall i :: 1 <= i <= max && i < |c.archive| ==> DigestAccepted(m, c, c.archive[i], "app.bin")
  {
    hide DigestAccepted, PlaceUsers, RunOf, SafeRun, Users;
    RunNeedsFile(c, max);
    if |c.archive| > 0 && c.archive[0].name == "kernel.elf" && RunPlaced(c, max) {
      RunFiles(c, max);
      if Accepts(m, c, max) {
        forall i | 1 <= i <= max && i < |c.archive|
          ensures DigestAccepted(m, c, c.archive[i], "app.bin")
        {
          assert Users(c, max)[i - 1] == c.archive[i];
        }
      }
    }
  }

  lemma RunNeedsFile(c: Config, max: nat)
    ensures RunOf(c, max).Some? ==> |c.archive| > 0
  {
    hide KernelDest, PlaceElf;
  }

  /** The kernel and all user images are placed without running into a reason to abort. */
  predicate RunPlaced(c: Config, max: nat) {
    RunOf(c, max).Some? &&
    var run := RunOf(c, max).value;
    PlaceUsers(run.loader, run.users, run.next, |run.users|).Some?
  }

  lemma InvalidNotPlaced(c: Config, max: nat)
    requires Find(c.archive, "kernel.elf").None? || !Find(c.archive, "kernel.elf").value.elf.valid
    ensures RunOf(c, max).None?
  {
  }

  lemma KernelFacts(size: nat, c: Config, max: nat)
    requires RunSafe(size, c, max) && Find(c.archive, "kernel.elf").Some?
    ensures var elf := Find(c.archive, "kernel.elf").value.elf;
      && KernelDest(elf) < WORD_MOD
      && (PlaceElf(c.loader, elf, KernelDest(elf), false).Some? <==> RunOf(c, max).Some?)
      && (PlaceElf(c.loader, elf, KernelDest(elf), false).Some? ==>
            ElfSafe(size, c.loader, elf, KernelDest(elf), false))
  {
    hide ElfSafe, PlaceElf, SafeUsers;
  }

  /** The i-th user image is an archive file whose digest check has not been disturbed. */
  lemma UserEntry(m0: seq<byte>, m: seq<byte>, c: Config, max: nat, run: Run, i: nat)
    requires Ready(|m0|, c) && SafeRun(|m0|, run) && run.loader == c.loader && run.users == Elfs(Users(c, max))
    requires i < |run.users| && Progress(m0, m, run, i)
    ensures Listed(|m0|, c, Users(c, max)[i]) && |m| == |m0| && run.users[i] == Users(c, max)[i].elf
    ensures DigestAccepted(m, c, Users(c, max)[i], "app.bin") == DigestAccepted(m0, c, Users(c, max)[i], "app.bin")
  {
    hide AllIntact, DigestAccepted, Intact, OthersKept, SafeRun, SameLoader;
    SameSlice(m0, m, run.loader, run.loader.start, run.loader.start);
    DigestFromArchive(m0, m, c, Users(c, max)[i], "app.bin");
  }

  /** What loading the i-th user image at the next free address d does. */
  lemma UserTurn(m0: seq<byte>, m: seq<byte>, run: Run, i: nat, d: nat)
    requires SafeRun(|m0|, run) && i < |run.users| && Progress(m0, m, run, i)
    requires PlaceUsers(run.loader, run.users, run.next, i).Some?
    requires d == PlaceUsers(run.loader, run.users, run.next, i).value.1
    ensures |m| == |m0| && d < WORD_MOD && run.loader.end <= |m|
    ensures PlaceElf(run.loader, run.users[i], d, true).Some? ==>
      ElfSafe(|m0|, run.loader, run.users[i], d, true)
      && Progress(m0, Written(m, run.loader, run.users[i], d, true), run, i + 1)
    ensures PlaceElf(run.loader, run.users[i], d, true).None? ==>
      PlaceUsers(run.loader, run.users, run.next, |run.users|).None?
  {
    hide AllIntact, ElfSafe, Extent, Intact, OthersKept, PlaceElf, SafeUsers, SameLoader, Written;
    SameSlice(m0, m, run.loader, run.loader.start, run.loader.start);
    NextUser(|m0|, run, i);
    if PlaceElf(run.loader, run.users[i], d, true).Some? {
      ProgressStep(m0, m, run, i, d);
    } else if PlaceUsers(run.loader, run.users, run.next, |run.users|).Some? {
      PlacedBefore(run.loader, run.users, run.next, i + 1, |run.users|);
      assert false;
    }
  }

  /** The i-th turn of the loop over the user images. */
  method LoadUser(mem: array<byte>, c: Config, maxUserImages: nat, userInfo: array<ImageInfo>, i: nat, next: nat,
                  ghost was: seq<byte>, ghost run: Run)
    returns (after: Option<nat>)
    requires Ready(mem.Length, c) && |was| == mem.Length && i < maxUserImages <= userInfo.Length
    requires SafeRun(|was|, run) && run.loader == c.loader && run.users == Elfs(Users(c, maxUserImages))
    requires i < |run.users| && Progress(was, mem[..], run, i)
    requires PlaceUsers(run.loader, run.users, run.next, i) == Some((userInfo[..i], next))
    modifies mem, userInfo
    ensures after.Some? ==>
      && DigestAccepted(was, c, Users(c, maxUserImages)[i], "app.bin")
      && PlaceUsers(run.loader, run.users, run.next, i + 1) == Some((userInfo[..i + 1], after.value))
      && Progress(was, mem[..], run, i + 1)
    ensures after.None? ==>
      || !DigestAccepted(was, c, Users(c, maxUserImages)[i], "app.bin")
      || PlaceUsers(run.loader, run.users, run.next, |run.users|).None?
  {
    hide DigestAccepted, ElfSafe, Extent, PlaceElf, Progress, SafeRun, Written;
    var user := c.archive[i + 1];
    assert user == Users(c, maxUserImages)[i];
    UserEntry(was, mem[..], c, maxUserImages, run, i);
    UserTurn(was, mem[..], run, i, next);
    var placed := LoadElf(mem, c, user, next, true, "app.bin");
    if placed.None? {
      return None;
    }
    ghost var infos := userInfo[..i];
    userInfo[i] := placed.value.0;
    assert userInfo[..i + 1] == infos + [placed.value.0];
    after := Some(placed.value.1);
  }

  /** The loop over the user images. */
  method LoadUsers(mem: array<byte>, c: Config, maxUserImages: nat, userInfo: array<ImageInfo>, kernelEnd: nat,
                   ghost was: seq<byte>, ghost run: Run)
    returns (numImages: Option<nat>)
    requires Ready(mem.Length, c) && |was| == mem.Length && maxUserImages <= userInfo.Length && |c.archive| > 0
    requires SafeRun(|was|, run) && run.loader == c.loader && run.next == kernelEnd
    requires run.users == Elfs(Users(c, maxUserImages)) && Progress(was, mem[..], run, 0)
    modifies mem, userInfo
    ensures numImages.Some? <==>
      PlaceUsers(run.loader, run.users, run.next, |run.users|).Some?
      && UsersAccepted(was, c, maxUserImages, |run.users|)
    ensures numImages.Some? ==>
      && numImages.value == |run.users| <= userInfo.Length
      && userInfo[..|run.users|] == PlaceUsers(run.loader, run.users, run.next, |run.users|).value.0
      && Progress(was, mem[..], run, |run.users|)
  {
    hide DigestAccepted, ElfSafe, Extent, PlaceElf, Progress, SafeRun, Written;
    var next := kernelEnd;
    var i, n := 0, 0;
    while i < maxUserImages
      invariant i == n <= |run.users| && n <= maxUserImages
      invariant PlaceUsers(run.loader, run.users, run.next, n) == Some((userInfo[..n], next))
      invariant Progress(was, mem[..], run, n) && UsersAccepted(was, c, maxUserImages, n)
    {
      if i + 1 >= |c.archive| {
        break;
      }
      var after := LoadUser(mem, c, maxUserImages, userInfo, i, next, was, run);
      if after.None? {
        return None;
      }
      next := after.value;
      n := i + 1;
      i := i + 1;
    }
    numImages := Some(n);
  }

  /** Loads the kernel and up to maxUserImages user images, or aborts (None). */
  method LoadImages(mem: array<byte>, c: Config, maxUserImages: nat, userInfo: array<ImageInfo>)
    returns (r: Option<(ImageInfo, nat)>)
    requires RunSafe(mem.Length, c, maxUserImages) && maxUserImages <= userInfo.Length
    modifies mem, userInfo
    ensures r.Some? <==> Accepts(old(mem[..]), c, maxUserImages)
    ensures r.Some? ==>
      var run := RunOf(c, maxUserImages).value;
      && r.value.0 == PlaceElf(run.loader, run.kernel, run.kernelDest, false).value.0
      && r.value.1 == |run.users| <= userInfo.Length
      && userInfo[..|run.users|] == PlaceUsers(run.loader, run.users, run.next, |run.users|).value.0
      && Progress(old(mem[..]), mem[..], run, |run.users|)
    ensures r.Some? ==>
      r.value.1 <= userInfo.Length
      && Booted(old(mem[..]), mem[..], c, maxUserImages, r.value.0, userInfo[..r.value.1])
  {
    hide Booted, DigestAccepted, ElfSafe, KernelDest, PlaceElf, Progress, SafeRun, Written;
    ghost var was := mem[..];
    var found := Find(c.archive, "kernel.elf");
    if found.None? || !found.value.elf.valid {
      InvalidNotPlaced(c, maxUserImages);
      return None;
    }
    var kernel := found.value;
    var kernelDest := KernelDest(kernel.elf);
    KernelFacts(mem.Length, c, maxUserImages);
    var placed := LoadElf(mem, c, kernel, kernelDest, false, "kernel.bin");
    if placed.None? {
      return None;
    }
    ghost var run := RunOf(c, maxUserImages).value;
    ProgressStart(was, run);
    if c.archive[0].name != "kernel.elf" {
      return None;
    }
    var numImages := LoadUsers(mem, c, maxUserImages, userInfo, placed.value.1, was, run);
    if numImages.None? {
      return None;
    }
    r := Some((placed.value.0, numImages.value));
    RunIsBooted(was, mem[..], c, maxUserImages, run);
  }
}
