/** A small system that meets everything the loader demands of its environment. */
module Example {
  import opened Addresses
  import opened Bytes
  import opened Elf
  import opened ElfLoad
  import opened LoadImages
  import opened Paging
  import opened Placement

  const SIZE: nat := 0x1_0000
  const LOADER: Loader := Loader(0x1000, 0x3000)

  /**
   An ELF file at base with one segment of 16 file bytes and 32 bytes of memory,
   linked at virtual address v for physical address p, with its entry at byte 8.
   */
  function File(base: nat, v: u64, p: u64): ElfFile
    requires v + 8 < U64_MOD
  {
    ElfFile(true, base, 64, v + 8, 64, 56, [Phdr(1, 0x100, v, p, 16, 32)])
  }

  const KERNEL: ElfFile := File(0x1000, 0xa000, 0x4000)
  const USER: ElfFile := File(0x2000, 0x8000, 0x8000)

  const ARCHIVE: Config :=
    Config(LOADER, None, [Entry("kernel.elf", KERNEL, 0x800), Entry("app", USER, 0x800)])

  lemma FileBounds(base: nat, v: u64, p: u64)
    requires v < 0x1_0000 && p < 0x1_0000
    ensures Bounds(File(base, v, p).phdrs, false) == (v, v + 32)
    ensures Bounds(File(base, v, p).phdrs, true) == (p, p + 32)
  {
    var hs := File(base, v, p).phdrs;
    assert hs[..0] == [];
    assert Bounds(hs[..0], false) == Bounds(hs[..0], true) == (U64_MOD - 1, 0);
  }

  lemma FileSizes(base: nat, v: u64, p: u64)
    requires v < 0x1_0000 && v % PAGE == 0 && p < 0x1_0000
    ensures RegionSize(File(base, v, p)) == PAGE && ImageSize(File(base, v, p)) == 32
  {
    FileBounds(base, v, p);
    assert RoundUp64(v + 32) == v + PAGE;
    TruncSmall(PAGE);
    TruncSmall(32);
  }

  lemma FileIsSane(base: nat, v: u64, p: u64)
    requires v < 0x1_0000 && p < 0x1_0000
    ensures Sane(File(base, v, p)) && WellFormed(File(base, v, p))
  {
    hide Bounds;
    FileBounds(base, v, p);
    assert File(base, v, p).phdrs[0].memsz == 32;
  }

  lemma FileUnpacks(base: nat, v: u64, p: u64, dest: nat)
    requires 0x1000 <= base <= 0x2000 && v < 0x1_0000 && v % PAGE == 0 && p < 0x1_0000 && 0x4000 <= dest < 0x8000
    ensures var elf := File(base, v, p);
      && UnpackFits(SIZE, elf, dest)
      && Source(elf, elf.phdrs[0]) == base + 0x100 && FileLen(elf.phdrs[0]) == 16
  {
    hide Bounds, ImageSize, Trunc;
    FileBounds(base, v, p);
    FileSizes(base, v, p);
    TruncSmall(dest);
    TruncSmall(base + 0x100);
    TruncSmall(16);
    assert Dest(File(base, v, p), File(base, v, p).phdrs[0], dest) == dest;
  }

  lemma FileIsPlaced(base: nat, v: u64, p: u64, dest: nat, keep: bool)
    requires v < 0x1_0000 && v % PAGE == 0 && p < 0x1_0000 && dest % PAGE == 0 && 0x4000 <= dest < 0x8000
    ensures PlaceElf(LOADER, File(base, v, p), dest, keep).Some?
    ensures PlaceElf(LOADER, File(base, v, p), dest, keep).value.1 == dest + PAGE + if keep then PAGE else 0
  {
    hide AllEmpty, Bounds, GreatestEnd, LeastVaddr, NoWrap, PlaceElf, RegionSize;
    FileSizes(base, v, p);
    FileBounds(base, v, p);
    FileIsSane(base, v, p);
    PlacedIff(LOADER, File(base, v, p), dest, keep);
    Placed(LOADER, File(base, v, p), dest, keep);
    TruncSmall(dest + PAGE + if keep then PAGE else 0);
  }

  /** A file in the loader may be loaded at a free page behind it. */
  lemma FileIsSafe(base: nat, v: u64, p: u64, dest: nat, keep: bool)
    requires 0x1000 <= base <= 0x2000 && v < 0x1_0000 && v % PAGE == 0 && p < 0x1_0000
    requires dest % PAGE == 0 && 0x4000 <= dest < 0x8000
    ensures ElfSafe(SIZE, LOADER, File(base, v, p), dest, keep)
    ensures PlaceElf(LOADER, File(base, v, p), dest, keep).Some?
    ensures PlaceElf(LOADER, File(base, v, p), dest, keep).value.1 == dest + PAGE + if keep then PAGE else 0
  {
    hide FileLen, PlaceElf, RegionSize, Sane, Source, UnpackFits, WellFormed;
    FileSizes(base, v, p);
    FileIsSane(base, v, p);
    FileUnpacks(base, v, p, dest);
    FileIsPlaced(base, v, p, dest, keep);
  }

  /** load_images may be called, and it accepts and places both images. */
  lemma DemandsCanBeMet(m: seq<byte>)
    requires |m| == SIZE
    ensures RunSafe(|m|, ARCHIVE, 1) && Accepts(m, ARCHIVE, 1) && |RunOf(ARCHIVE, 1).value.users| == 1
  {
    hide ElfSafe, PlaceElf;
    FileBounds(0x1000, 0xa000, 0x4000);
    TruncSmall(0x4000);
    FileIsSafe(0x1000, 0xa000, 0x4000, 0x4000, false);
    FileIsSafe(0x2000, 0x8000, 0x8000, 0x5000, true);
    assert Find(ARCHIVE.archive, "kernel.elf") == Some(ARCHIVE.archive[0]);
    assert Users(ARCHIVE, 1) == [ARCHIVE.archive[1]];
    var run := RunOf(ARCHIVE, 1).value;
    assert run == Run(LOADER, KERNEL, 0x4000, [USER], 0x5000);
    assert PlaceUsers(LOADER, run.users, 0x5000, 0) == Some(([], 0x5000));
    assert PlaceUsers(LOADER, run.users, 0x5000, 1).Some?;
  }

  /** Then the kernel lies at its physical address, and its entry point is translated to the ninth byte of it. */
  lemma KernelOfExample(m0: seq<byte>, m: seq<byte>, kernel: ImageInfo, infos: seq<ImageInfo>, k: nat)
    requires |m0| == SIZE && Booted(m0, m, ARCHIVE, 1, kernel, infos) && k < 16
    ensures kernel.physStart == 0x4000 && kernel.virtStart == 0xa000 && kernel.virtEntry == 0xa008
    ensures (kernel.virtEntry + kernel.physVirtOffset) % WORD_MOD == 0x4008
    ensures |m| == SIZE && m[0x4000 + k] == m0[0x1100 + k] && m[0x4010 + k] == 0
    ensures |infos| == 1 && infos[0].physStart == 0x5000
  {
    hide Describes, KernelLoaded, MapsFile, RestKept;
    KernelInfo(m0, m, kernel);
    KernelBytes(m0, m, kernel, k);
    assert Link(infos, kernel.physEnd, 0);
  }

  lemma KernelInfo(m0: seq<byte>, m: seq<byte>, kernel: ImageInfo)
    requires KernelLoaded(m0, m, KERNEL, kernel)
    ensures kernel.physStart == 0x4000 && kernel.virtStart == 0xa000 && kernel.virtEntry == 0xa008
    ensures kernel.physEnd == 0x5000 && kernel.physVirtOffset == WORD_MOD - 0x6000
  {
    hide AtOwnAddresses, Bounds, GreatestEnd, LoadableDisjoint, LeastVaddr, MapsFile, OneShift;
    FileBounds(0x1000, 0xa000, 0x4000);
    assert KERNEL.phdrs[0] in KERNEL.phdrs;
    assert forall x :: LeastPaddr(KERNEL.phdrs, x) ==> x == 0x4000;
  }

  lemma KernelBytes(m0: seq<byte>, m: seq<byte>, kernel: ImageInfo, k: nat)
    requires |m0| == |m| == SIZE && KernelLoaded(m0, m, KERNEL, kernel) && k < 16
    ensures m[0x4000 + k] == m0[0x1100 + k] && m[0x4010 + k] == 0
  {
    hide AtOwnAddresses, Bounds, Describes, StartsAtPaddr;
    var h := KERNEL.phdrs[0];
    KernelInfo(m0, m, kernel);
    assert MapsFile(m0, m, KERNEL, kernel);
    assert h in KERNEL.phdrs && InFilePart(h, 0xa000 + k) && InZeroPart(h, 0xa010 + k);
    assert HasByte(m0, m, KERNEL, h, 0xa000 + k, 0x4000 + k);
    assert HasZero(m, 0x4010 + k);
  }

  /** The kernel file suits both ELF loaders. */
  lemma BothLoadersSuit()
    ensures UnpackSafe(SIZE, KERNEL, 0x6000) && LoadSafe(SIZE, KERNEL, true) && WellFormed(KERNEL)
    ensures Bounds(KERNEL.phdrs, false).1 - Bounds(KERNEL.phdrs, false).0 < WORD_MOD
    ensures LoadableDisjoint(KERNEL) && PlacesDisjoint(KERNEL, true)
  {
    hide Bounds, HeadersWithin, LoadFits, LoadSpares, PlaceElf, Trunc, UnpackFits, UnpackSpares, WellFormed;
    FileIsSafe(0x1000, 0xa000, 0x4000, 0x6000, false);
    FileIsSane(0x1000, 0xa000, 0x4000);
    FileBounds(0x1000, 0xa000, 0x4000);
    HeadersAreSafe(SIZE, LOADER, KERNEL, 0x6000, false);
    KernelLoadsInPlace();
  }

  lemma KernelLoadsInPlace()
    ensures LoadFits(SIZE, KERNEL, true) && LoadSpares(KERNEL, true)
  {
    TruncSmall(0x4000);
    TruncSmall(0x1100);
    hide Trunc;
  }

  /** A file whose first segment lies over its own headers: it zeroes the table before the second segment is read. */
  const SELF_DESTRUCTIVE: ElfFile := ElfFile(true, 0x1000, 64, 0x5000, 64, 56,
    [Phdr(PT_LOAD, 0x800, 0x1000, 0x1000, 16, 0x400), Phdr(PT_LOAD, 0x900, 0x5000, 0x5000, 16, 32)])

  /** That nothing but the headers is overwritten too early is not enough for the loader in place. */
  lemma HeadersCanBeLost()
    ensures LoadFits(SIZE, SELF_DESTRUCTIVE, true) && HeadersWithin(SELF_DESTRUCTIVE, 0, SIZE)
    ensures !LoadSpares(SELF_DESTRUCTIVE, true)
    ensures exists m: seq<byte> ::
      |m| == SIZE && !SameHeaders(SELF_DESTRUCTIVE, m, Loaded(m, SELF_DESTRUCTIVE, true, 2))
  {
    LostFits();
    LostIsReached();
    hide LoadFits, LoadSpares, Loaded, SameHeaders;
    HeadersSurviveLoadIff(SIZE, SELF_DESTRUCTIVE, true);
  }

  lemma LostFits()
    ensures LoadFits(SIZE, SELF_DESTRUCTIVE, true) && HeadersWithin(SELF_DESTRUCTIVE, 0, SIZE)
  {
    TruncSmall(0x1000);
    TruncSmall(0x1800);
    TruncSmall(0x1900);
    TruncSmall(0x5000);
    hide Trunc;
  }

  lemma LostIsReached()
    ensures !LoadSpares(SELF_DESTRUCTIVE, true) && |SELF_DESTRUCTIVE.phdrs| == 2
  {
    var elf := SELF_DESTRUCTIVE;
    TruncSmall(0x1000);
    assert elf.phdrs[0] in elf.phdrs && !HeadersMiss(elf, 0x1000, 0x400);
  }
}
