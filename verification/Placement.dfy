/** Where load_elf and load_images (src/common.c) put images in physical memory. */
module Placement {
  import opened Addresses
  import opened Bits
  import opened Bytes
  import opened Elf
  import opened Paging

  datatype ImageInfo = ImageInfo(
    physStart: nat, physEnd: nat, virtStart: nat, virtEnd: nat, virtEntry: nat, physVirtOffset: nat)

  /** The memory the ELF-loader itself occupies: from _start up to _end. */
  datatype Loader = Loader(start: nat, end: nat)

  predicate Within(a: nat, first: nat, last: nat) {
    first <= a <= last
  }

  /** Whether two closed intervals have an address in common. */
  function RegionsOverlap(startA: nat, endA: nat, startB: nat, endB: nat): (r: bool)
    ensures startA <= endA && startB <= endB ==>
      (r <==> exists a: nat :: Within(a, startA, endA) && Within(a, startB, endB))
  {
    assert startA <= endA && startB <= endB && !(endA < startB) && !(endB < startA) ==>
      var a := if startA < startB then startB else startA;
      Within(a, startA, endA) && Within(a, startB, endB);
    if endA < startB then false else if endB < startA then false else true
  }

  /** ROUND_UP to a page, on uint64_t. */
  function RoundUp64(n: u64): u64 {
    ((n - 1) % U64_MOD / PAGE + 1) * PAGE % U64_MOD
  }

  /** ROUND_UP to a page, on uintptr_t. */
  function RoundUpWord(n: nat): nat {
    Trunc((Trunc(n - 1) / PAGE + 1) * PAGE)
  }

  lemma RoundUp64IsLeast(n: u64)
    requires n <= U64_MOD - PAGE
    ensures RoundUp64(n) % PAGE == 0 && n <= RoundUp64(n) < n + PAGE
  {
    if n != 0 {
      assert (n - 1) % U64_MOD == n - 1;
    }
  }

  lemma RoundUpWordAligned(n: nat)
    requires n < WORD_MOD && n % PAGE == 0
    ensures RoundUpWord(n) == n
  {
    if n == 0 {
      TruncShift(-1, 1);
      TruncSmall(WORD_MOD - 1);
      TruncShift(0, 1);
      TruncSmall(0);
    } else {
      TruncSmall(n - 1);
      TruncSmall(n);
      assert (n - 1) / PAGE + 1 == n / PAGE;
    }
  }

  /** The page-rounded virtual end, and the size computed from it. */
  function VirtEnd(elf: ElfFile): nat {
    RoundUp64(Bounds(elf.phdrs, false).1)
  }

  function RegionSize(elf: ElfFile): (r: nat)
    ensures r < WORD_MOD
  {
    Trunc((VirtEnd(elf) - Bounds(elf.phdrs, false).0) % U64_MOD)
  }

  /** load_elf without its effect on memory: where the image goes and the next free address, or None for abort. */
  function PlaceElf(loader: Loader, elf: ElfFile, dest: nat, keepHeaders: bool): Option<(ImageInfo, nat)> {
    var min, size := Bounds(elf.phdrs, false).0, RegionSize(elf);
    if dest % PAGE != 0 || !elf.valid || min % PAGE != 0 then None
    else if RegionsOverlap(dest, Trunc(dest + size - 1), loader.start, Trunc(loader.end - 1)) then None
    else
      var info := ImageInfo(
        dest, Trunc(dest + size), Trunc(min), Trunc(VirtEnd(elf)), Trunc(elf.entry), Trunc(dest - min));
      var next := RoundUpWord(Trunc(dest + size));
      Some((info, if keepHeaders then Trunc(next + PAGE) else next))
  }

  /** The placement of the first n user images from address dest on. */
  function PlaceUsers(loader: Loader, elfs: seq<ElfFile>, dest: nat, n: nat): Option<(seq<ImageInfo>, nat)>
    requires n <= |elfs|
  {
    if n == 0 then Some(([], dest))
    else
      match PlaceUsers(loader, elfs, dest, n - 1)
      case None => None
      case Some((infos, d)) =>
        match PlaceElf(loader, elfs[n - 1], d, true)
        case None => None
        case Some((info, next)) => Some((infos + [info], next))
  }

  // ---------- One image ----------

  /** The ELF file describes an image that fits the address space: no header wraps, and the extent is a size_t. */
  predicate Sane(elf: ElfFile) {
    var (lo, hi) := Bounds(elf.phdrs, false);
    NoWrap(elf.phdrs, false) && !AllEmpty(elf.phdrs) && hi <= U64_MOD - PAGE && hi - lo <= WORD_MOD - PAGE
  }

  /** The region is a positive number of pages that holds the image with less than a page to spare. */
  lemma RegionSizeIsPages(elf: ElfFile)
    requires Sane(elf) && Bounds(elf.phdrs, false).0 % PAGE == 0
    ensures RegionSize(elf) % PAGE == 0
    ensures var (lo, hi) := Bounds(elf.phdrs, false);
      lo < hi && hi - lo <= RegionSize(elf) < hi - lo + PAGE && VirtEnd(elf) == lo + RegionSize(elf)
  {
    hide Bounds, RoundUp64, Trunc;
    var (lo, hi) := Bounds(elf.phdrs, false);
    BoundsTight(elf.phdrs, false);
    RoundUp64IsLeast(hi);
    var size := VirtEnd(elf) - lo;
    PagesAdd(VirtEnd(elf), lo);
    assert size < WORD_MOD by {
      assert size < hi - lo + PAGE;
    }
    TruncSmall(size);
    assert size % U64_MOD == size;
  }

  /** virtual address + offset = physical address, and both regions have the same length (all in words). */
  predicate InfoConsistent(info: ImageInfo) {
    && Trunc(info.virtStart + info.physVirtOffset) == info.physStart
    && Trunc(info.virtEnd - info.virtStart) == Trunc(info.physEnd - info.physStart)
  }

  predicate ClearOf(info: ImageInfo, loader: Loader) {
    info.physEnd <= loader.start || loader.end <= info.physStart
  }

  /** The recorded information is consistent for every image, even if its addresses wrap. */
  lemma PlacedConsistent(loader: Loader, elf: ElfFile, dest: nat, keep: bool)
    requires PlaceElf(loader, elf, dest, keep).Some? && dest < WORD_MOD
    ensures InfoConsistent(PlaceElf(loader, elf, dest, keep).value.0)
  {
    hide Bounds, RegionsOverlap, RoundUp64, RoundUpWord, Trunc;
    var min: int, max: int, size: int := Bounds(elf.phdrs, false).0, VirtEnd(elf), RegionSize(elf);
    calc {
      Trunc(Trunc(min) + Trunc(dest - min));
      { TruncSum(dest - min, Trunc(min)); TruncSum(min, dest - min); }
      Trunc(dest);
      { TruncSmall(dest); }
      dest;
    }
    calc {
      Trunc(Trunc(max) - Trunc(min));
      { TruncSum(min, Trunc(max)); TruncSum(max, 0 - min); }
      Trunc(max - min);
      { TruncOfU64(max - min); }
      size;
      { TruncSmall(size); }
      Trunc(dest + size - dest);
      { TruncSum(dest + size, 0 - dest); }
      Trunc(Trunc(dest + size) - dest);
    }
  }

  /** Where an image and the next free address lie; the header page is what separates them. */
  lemma Placed(loader: Loader, elf: ElfFile, dest: nat, keep: bool)
    requires PlaceElf(loader, elf, dest, keep).Some? && Sane(elf) && dest < WORD_MOD
    ensures var (info, next) := PlaceElf(loader, elf, dest, keep).value;
      && dest % PAGE == 0 && Bounds(elf.phdrs, false).0 % PAGE == 0
      && info.physStart == dest && info.physEnd == Trunc(dest + RegionSize(elf))
      && next == Trunc(dest + RegionSize(elf) + if keep then PAGE else 0)
  {
    hide Bounds, RegionsOverlap, RoundUp64, RoundUpWord, Trunc;
    var size := RegionSize(elf);
    RegionSizeIsPages(elf);
    PagesStayPages(dest + size);
    RoundUpWordAligned(Trunc(dest + size));
    TruncSum(dest + size, PAGE);
  }

  lemma PagesStayPages(x: nat)
    requires x % PAGE == 0
    ensures Trunc(x) % PAGE == 0
  {
    hide Trunc;
    var q, r := x / WORD_MOD, Trunc(x);
    TruncSplit(x);
    if BYTE_PER_WORD == 4 {
      DivMod(PAGE, 0x10_0000 * q + r / PAGE, r % PAGE);
    } else {
      DivMod(PAGE, 0x10_0000_0000_0000 * q + r / PAGE, r % PAGE);
    }
  }

  /** A region that does not wrap misses the loader. */
  lemma PlacedClear(loader: Loader, elf: ElfFile, dest: nat, keep: bool)
    requires PlaceElf(loader, elf, dest, keep).Some? && Sane(elf) && loader.start < loader.end < WORD_MOD
    requires dest + RegionSize(elf) < WORD_MOD
    ensures ClearOf(PlaceElf(loader, elf, dest, keep).value.0, loader)
    ensures dest < PlaceElf(loader, elf, dest, keep).value.0.physEnd
  {
    hide Bounds, RoundUp64, RoundUpWord, Trunc;
    RegionSizeIsPages(elf);
    TruncSmall(dest + RegionSize(elf) - 1);
    TruncSmall(dest + RegionSize(elf));
    TruncSmall(loader.end - 1);
  }

  /**
   What the recorded information says in the file's own terms: the lowest virtual
   address and the entry point, which addition of the offset takes to physical
   addresses, and a physical region of whole pages that holds all segments.
   */
  ghost predicate Describes(info: ImageInfo, elf: ElfFile) {
    var (lo, hi) := Bounds(elf.phdrs, false);
    && LeastVaddr(elf.phdrs, lo) && GreatestEnd(elf.phdrs, hi) && lo < hi
    && info.virtStart == lo % WORD_MOD && info.virtEntry == elf.entry % WORD_MOD
    && info.physVirtOffset < WORD_MOD && (lo + info.physVirtOffset) % WORD_MOD == info.physStart
    && info.physStart % 0x1000 == 0 && info.physEnd % 0x1000 == 0
    && info.physStart + (hi - lo) <= info.physEnd < info.physStart + (hi - lo) + 0x1000
    && info.virtEnd == (lo + (info.physEnd - info.physStart)) % WORD_MOD
  }

  lemma PlacedDescribes(loader: Loader, elf: ElfFile, dest: nat, keep: bool)
    requires PlaceElf(loader, elf, dest, keep).Some? && Sane(elf) && dest + RegionSize(elf) < WORD_MOD
    ensures Describes(PlaceElf(loader, elf, dest, keep).value.0, elf)
  {
    hide AllEmpty, Bounds, GreatestEnd, LeastPaddr, LeastVaddr, NoWrap, RegionsOverlap, RegionSize, RoundUp64,
      RoundUpWord;
    var lo, size := Bounds(elf.phdrs, false).0, RegionSize(elf);
    LowIsLeast(elf.phdrs);
    HighIsGreatest(elf.phdrs);
    Placed(loader, elf, dest, keep);
    PlacedAligned(loader, elf, dest, keep);
    RegionSizeIsPages(elf);
    TruncSmall(dest);
    TruncSmall(dest + size);
    TruncSum(dest - lo, lo);
    assert Trunc(lo + Trunc(dest - lo)) == dest;
  }

  /** An image that fits the address space is accepted exactly if it is aligned, valid and misses the loader. */
  lemma PlacedIff(loader: Loader, elf: ElfFile, dest: nat, keep: bool)
    requires Sane(elf) && loader.start < loader.end < WORD_MOD && dest + RegionSize(elf) < WORD_MOD
    ensures var lo := Bounds(elf.phdrs, false).0;
      PlaceElf(loader, elf, dest, keep).Some? <==>
        && dest % 0x1000 == 0 && elf.valid && lo % 0x1000 == 0
        && (dest + RegionSize(elf) <= loader.start || loader.end <= dest)
  {
    hide AllEmpty, Bounds, NoWrap, RegionSize, RoundUp64, RoundUpWord, Trunc;
    var size := RegionSize(elf);
    if elf.valid && Bounds(elf.phdrs, false).0 % PAGE == 0 {
      RegionSizeIsPages(elf);
      TruncSmall(dest + size - 1);
      TruncSmall(loader.end - 1);
    }
  }

  // ---------- Any number of images ----------

  /** Region i is not empty and starts right after the header page of the one before it. */
  predicate Link(infos: seq<ImageInfo>, dest: nat, i: nat)
    requires i < |infos|
  {
    && infos[i].physStart < infos[i].physEnd
    && infos[i].physStart == if i == 0 then dest else infos[i - 1].physEnd + PAGE
  }

  /** Regions upwards from dest, each followed by one header page. */
  predicate Stacked(infos: seq<ImageInfo>, dest: nat) {
    forall i :: 0 <= i < |infos| ==> Link(infos, dest, i)
  }

  /** The space that the first n images and their header pages need. */
  function Extent(elfs: seq<ElfFile>, n: nat): nat
    requires n <= |elfs|
  {
    if n == 0 then 0 else Extent(elfs, n - 1) + RegionSize(elfs[n - 1]) + PAGE
  }

  predicate AllSane(elfs: seq<ElfFile>) {
    forall i :: 0 <= i < |elfs| ==> Sane(elfs[i])
  }

  lemma {:induction false} StackedIfFits(loader: Loader, elfs: seq<ElfFile>, dest: nat, n: nat)
    requires n <= |elfs| && AllSane(elfs) && dest < WORD_MOD
    requires PlaceUsers(loader, elfs, dest, n).Some? && dest + Extent(elfs, n) - PAGE < WORD_MOD
    ensures var (infos, next) := PlaceUsers(loader, elfs, dest, n).value;
      && |infos| == n && Stacked(infos, dest) && next == Trunc(dest + Extent(elfs, n))
      && (n > 0 ==> infos[n - 1].physEnd == dest + Extent(elfs, n) - PAGE)
  {
    hide PlaceElf, RegionSize, Sane, Trunc;
    if n == 0 {
      TruncSmall(dest);
    } else {
      StackedIfFits(loader, elfs, dest, n - 1);
      var d := dest + Extent(elfs, n - 1);
      TruncSmall(d);
      Placed(loader, elfs[n - 1], d, true);
      SizePositive(loader, elfs[n - 1], d);
      TruncSmall(d + RegionSize(elfs[n - 1]));
      var (infos, before) := (PlaceUsers(loader, elfs, dest, n).value.0, PlaceUsers(loader, elfs, dest, n - 1).value.0);
      assert forall i :: 0 <= i < n - 1 ==> Link(before, dest, i) == Link(infos, dest, i);
    }
  }

  lemma SizePositive(loader: Loader, elf: ElfFile, dest: nat)
    requires PlaceElf(loader, elf, dest, true).Some? && Sane(elf)
    ensures RegionSize(elf) > 0
  {
    RegionSizeIsPages(elf);
  }

  lemma {:induction false} FitsIfStacked(loader: Loader, elfs: seq<ElfFile>, dest: nat, n: nat)
    requires 0 < n <= |elfs| && AllSane(elfs) && dest < WORD_MOD
    requires PlaceUsers(loader, elfs, dest, n).Some? && |PlaceUsers(loader, elfs, dest, n).value.0| == n
    requires Stacked(PlaceUsers(loader, elfs, dest, n).value.0, dest)
    ensures dest + Extent(elfs, n) - PAGE < WORD_MOD
  {
    hide PlaceElf, RegionSize, Sane, Trunc;
    var (infos, next) := PlaceUsers(loader, elfs, dest, n).value;
    var (before, d) := PlaceUsers(loader, elfs, dest, n - 1).value;
    assert before == infos[..n - 1];
    if n == 1 {
    } else {
      assert forall i :: 0 <= i < n - 1 ==> Link(infos, dest, i) == Link(before, dest, i);
      FitsIfStacked(loader, elfs, dest, n - 1);
    }
    StackedIfFits(loader, elfs, dest, n - 1);
    assert d < WORD_MOD;
    Placed(loader, elfs[n - 1], d, true);
    assert Link(infos, dest, n - 1);
    assert infos[n - 1].physStart == d == dest + Extent(elfs, n - 1);
    TruncOrder(d, RegionSize(elfs[n - 1]));
  }

  lemma TruncOrder(d: nat, size: nat)
    requires d < WORD_MOD && size < WORD_MOD && d < Trunc(d + size)
    ensures d + size < WORD_MOD
  {
    if d + size >= WORD_MOD {
      TruncShift(d + size - WORD_MOD, 1);
      TruncSmall(d + size - WORD_MOD);
    }
  }

  /**
   User images are stacked upwards with exactly one header page after each,
   precisely when the space they need ends below the top of the address space.
   */
  lemma StackedIffFits(loader: Loader, elfs: seq<ElfFile>, dest: nat, n: nat)
    requires 0 < n <= |elfs| && AllSane(elfs) && dest < WORD_MOD
    requires PlaceUsers(loader, elfs, dest, n).Some?
    ensures |PlaceUsers(loader, elfs, dest, n).value.0| == n
    ensures Stacked(PlaceUsers(loader, elfs, dest, n).value.0, dest) <==> dest + Extent(elfs, n) - PAGE < WORD_MOD
  {
    PlacedCount(loader, elfs, dest, n);
    if dest + Extent(elfs, n) - PAGE < WORD_MOD {
      StackedIfFits(loader, elfs, dest, n);
    } else if Stacked(PlaceUsers(loader, elfs, dest, n).value.0, dest) {
      FitsIfStacked(loader, elfs, dest, n);
    }
  }

  lemma {:induction false} PlacedCount(loader: Loader, elfs: seq<ElfFile>, dest: nat, n: nat)
    requires n <= |elfs| && PlaceUsers(loader, elfs, dest, n).Some?
    ensures |PlaceUsers(loader, elfs, dest, n).value.0| == n
  {
    hide PlaceElf;
    if n == 0 {
    } else {
      PlacedCount(loader, elfs, dest, n - 1);
    }
  }

  /** Stacked regions are in increasing order and pairwise apart, header pages included. */
  lemma {:induction false} StackedOrder(infos: seq<ImageInfo>, dest: nat, i: nat, j: nat)
    requires Stacked(infos, dest) && i < j < |infos|
    ensures dest <= infos[i].physStart < infos[i].physEnd && infos[i].physEnd + PAGE <= infos[j].physStart
  {
    assert Link(infos, dest, i) && Link(infos, dest, j);
    if i + 1 < j {
      assert Link(infos, dest, j - 1);
      StackedOrder(infos, dest, i, j - 1);
    } else if i > 0 {
      StackedOrder(infos, dest, i - 1, i);
    }
  }

  predicate PageAligned(info: ImageInfo) {
    info.physStart % PAGE == 0 && info.physEnd % PAGE == 0
  }

  /** Every user image is page aligned, misses the loader and has consistent information. */
  lemma {:induction false} UsersPlacedWell(loader: Loader, elfs: seq<ElfFile>, dest: nat, n: nat)
    requires n <= |elfs| && AllSane(elfs) && dest < WORD_MOD && loader.start < loader.end < WORD_MOD
    requires PlaceUsers(loader, elfs, dest, n).Some? && dest + Extent(elfs, n) - PAGE < WORD_MOD
    ensures forall info :: info in PlaceUsers(loader, elfs, dest, n).value.0 ==>
      PageAligned(info) && ClearOf(info, loader) && InfoConsistent(info)
  {
    hide ClearOf, InfoConsistent, PlaceElf, RegionSize, Sane, Trunc;
    if n == 0 {
    } else {
      UsersPlacedWell(loader, elfs, dest, n - 1);
      StackedIfFits(loader, elfs, dest, n - 1);
      var d := dest + Extent(elfs, n - 1);
      TruncSmall(d);
      PlacedWell(loader, elfs[n - 1], d, true);
    }
  }

  lemma PlacedWell(loader: Loader, elf: ElfFile, dest: nat, keep: bool)
    requires PlaceElf(loader, elf, dest, keep).Some? && Sane(elf) && loader.start < loader.end < WORD_MOD
    requires dest + RegionSize(elf) < WORD_MOD
    ensures var info := PlaceElf(loader, elf, dest, keep).value.0;
      PageAligned(info) && ClearOf(info, loader) && InfoConsistent(info)
  {
    hide ClearOf, InfoConsistent, PageAligned, PlaceElf, RegionSize, Sane, Trunc;
    PlacedClear(loader, elf, dest, keep);
    PlacedConsistent(loader, elf, dest, keep);
    PlacedAligned(loader, elf, dest, keep);
  }

  lemma PlacedAligned(loader: Loader, elf: ElfFile, dest: nat, keep: bool)
    requires PlaceElf(loader, elf, dest, keep).Some? && Sane(elf) && dest + RegionSize(elf) < WORD_MOD
    ensures PageAligned(PlaceElf(loader, elf, dest, keep).value.0)
  {
    hide Bounds, PlaceElf, RegionSize, Sane, Trunc;
    Placed(loader, elf, dest, keep);
    RegionSizeIsPages(elf);
    TruncSmall(dest + RegionSize(elf));
    PagesAdd(dest, RegionSize(elf));
  }

  lemma PagesAdd(a: nat, b: nat)
    requires a % PAGE == 0 && b % PAGE == 0
    ensures (a + b) % PAGE == 0 && (a >= b ==> (a - b) % PAGE == 0)
  {
    DivMod(PAGE, a / PAGE + b / PAGE, 0);
    if a >= b {
      DivMod(PAGE, a / PAGE - b / PAGE, 0);
    }
  }
}
