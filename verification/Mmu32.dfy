/** The boot page tables of 32-bit ARM (src/arch-arm/32/mmu.c) and the table walks that give them meaning. */
module Mmu32 {
  import opened Bits
  import opened Bytes
  import opened Paging

  const MIB: nat := 0x10_0000
  const LAST_MIB: nat := 0xfff0_0000
  const ARM_VECTOR_TABLE: nat := 0xffff_0000

  // ---------- Short descriptors ----------

  /** The directory _boot_pd, the page table _boot_pt with its address, and the address of arm_vector_table. */
  datatype Tables = Tables(pd: seq<nat>, pt: seq<nat>, ptAddr: u32, vector: u32) {
    predicate Valid() {
      |pd| == 4096 && |pt| == 256 && ptAddr % 0x400 == 0 && vector % PAGE == 0
    }
  }

  /** A translation: the physical address, and the access permission bits AP[2:0]. */
  datatype Leaf = Leaf(address: nat, ap: nat)

  /** The table walk of section B3.5 of ARM DDI 0406C; None is a translation fault. */
  function Find(t: Tables, v: u32): Option<Leaf>
    requires t.Valid()
  {
    var d := t.pd[v / MIB];
    if d % 4 == 2 then
      var ap := d / 0x400 % 4 + d / 0x8000 % 2 * 4;
      if d / 0x4_0000 % 2 == 0 then Some(Leaf(d / MIB * MIB + v % MIB, ap))          // section
      else Some(Leaf(d / 0x100_0000 * 0x100_0000 + v % 0x100_0000, ap))              // supersection
    else if d % 4 == 1 && d / 0x400 * 0x400 == t.ptAddr then
      var e := t.pt[v / PAGE % 0x100];
      var ap := e / 0x10 % 4 + e / 0x200 % 2 * 4;
      if e / 2 % 2 == 1 then Some(Leaf(e / PAGE * PAGE + v % PAGE, ap))              // small page
      else if e % 4 == 1 then Some(Leaf(e / 0x1_0000 * 0x1_0000 + v % 0x1_0000, ap)) // large page
      else None
    else None
  }

  /** Access permission 0 lets nobody through (section B3.7.1). */
  function Walk(t: Tables, v: u32): Option<nat>
    requires t.Valid()
  {
    match Find(t, v)
    case None => None
    case Some(leaf) => if leaf.ap == 0 then None else Some(leaf.address)
  }

  /** Access permission 1: the kernel may read and write, user code may do nothing. */
  predicate KernelOnly(t: Tables, v: u32)
    requires t.Valid()
  {
    Find(t, v).Some? ==> Find(t, v).value.ap == 1
  }

  /** The address map that init_boot_vspace is documented to set up. */
  function BootMap(firstVaddr: u32, firstPaddr: u32, vector: u32, v: u32): Option<nat> {
    if v < LAST_MIB then Some(if v < firstVaddr then v else (v - firstVaddr + firstPaddr) % U32_MOD)
    else if v / PAGE == ARM_VECTOR_TABLE / PAGE then Some(vector + v % PAGE)
    else None
  }

  function Section(base: u32): nat {
    Or(Or(base, 0x400), 2)
  }

  function PtEntry(ptAddr: u32): nat {
    Or(Or(ptAddr, 0x200), 1)
  }

  /** -first_vaddr >> 20: the number of sections the window has, with its last one. */
  function WindowSections(firstVaddr: u32): nat {
    (U32_MOD - firstVaddr) % U32_MOD / MIB
  }

  /** Entry j of the directory as the three assignments of init_boot_vspace leave it. */
  function PdEntry(firstVaddr: u32, firstPaddr: u32, t: Tables, j: nat): nat
    requires t.Valid() && j < 4096
  {
    var f, n := firstVaddr / MIB, WindowSections(firstVaddr);
    if j < f then Section(j * MIB)
    else if j < f + n - 1 then Section(((j - f) * MIB + firstPaddr) % U32_MOD)
    else if j == f + n - 1 then PtEntry(t.ptAddr)
    else t.pd[j]
  }

  function VectorEntry(vector: u32): nat {
    Or(Or(vector, 0x10), 2)
  }

  function BootTables(firstVaddr: u32, firstPaddr: u32, t: Tables): (r: Tables)
    requires t.Valid()
    ensures r.Valid()
  {
    t.(pd := seq(4096, j requires 0 <= j < 4096 => PdEntry(firstVaddr, firstPaddr, t, j)),
       pt := t.pt[ARM_VECTOR_TABLE / PAGE % 0x100 := VectorEntry(t.vector)])
  }

  /** The entry after the second loop, whose bound is a uint32_t, lies in the directory exactly for these starts. */
  lemma DirectoryIffStart(firstVaddr: u32)
    ensures firstVaddr / MIB + (WindowSections(firstVaddr) - 1) % U32_MOD < 4096 <==> 0 < firstVaddr <= LAST_MIB
  {
  }

  /** Above LAST_MIB, and for 0, the second loop would run 2^32 - 1 times, far outside the directory. */
  method InitBootVspace(pd: array<nat>, pt: array<nat>, ptAddr: u32, vector: u32, firstVaddr: u32, firstPaddr: u32)
    requires Tables(pd[..], pt[..], ptAddr, vector).Valid() && pd != pt
    requires 0 < firstVaddr <= LAST_MIB
    modifies pd, pt
    ensures Tables(pd[..], pt[..], ptAddr, vector)
         == BootTables(firstVaddr, firstPaddr, Tables(old(pd[..]), old(pt[..]), ptAddr, vector))
  {
    hide Or;
    ghost var t := Tables(pd[..], pt[..], ptAddr, vector);
    var f := firstVaddr / MIB;
    var i := 0;
    while i < f
      invariant i <= f && pt[..] == t.pt
      invariant forall j :: 0 <= j < 4096 ==>
        pd[j] == if j < i then PdEntry(firstVaddr, firstPaddr, t, j) else t.pd[j]
    {
      pd[i] := Or(Or(i * MIB, 0x400), 2);
      i := i + 1;
    }
    i := 0;
    while i < (U32_MOD - firstVaddr) % U32_MOD / MIB - 1
      invariant i <= WindowSections(firstVaddr) - 1 && pt[..] == t.pt
      invariant forall j :: 0 <= j < 4096 ==>
        pd[j] == if j < f + i then PdEntry(firstVaddr, firstPaddr, t, j) else t.pd[j]
    {
      pd[i + f] := Or(Or((i * MIB + firstPaddr) % U32_MOD, 0x400), 2);
      i := i + 1;
    }
    pd[i + f] := Or(Or(ptAddr, 0x200), 1);
    pt[ARM_VECTOR_TABLE / PAGE % 0x100] := Or(Or(vector, 0x10), 2);
  }

  // ---------- Decoding ----------

  lemma SectionIsSum(q: nat)
    requires q < 0x1000
    ensures Section(q * MIB) == q * MIB + 0x402
  {
    OrBelow10(1, 2);
    TwoFlags(q * 0x100, 0x400, 2);
  }

  lemma PtEntryIsSum(q: nat)
    requires q * 0x400 < U32_MOD
    ensures PtEntry(q * 0x400) == q * 0x400 + 0x201
  {
    OrBelow10(q, 0x200);
    assert Or(0x200, 1) == 0x201 by { OrStep(0x100, 1); OrZero(0x100); }
    OrAssociates(q * 0x400, 0x200, 1);
    OrBelow10(q, 0x201);
  }

  lemma VectorEntryIsSum(q: nat)
    requires q * PAGE < U32_MOD
    ensures VectorEntry(q * PAGE) == q * PAGE + 0x12
  {
    assert Or(0x10, 2) == 0x12 by { OrStep(8, 2); OrStep(4, 1); OrZero(4); }
    TwoFlags(q, 0x10, 2);
  }

  lemma SectionDecodes(q: nat, v: u32, t: Tables)
    requires q < 0x1000 && t.Valid() && t.pd[v / MIB] == Section(q * MIB)
    ensures Walk(t, v) == Some(q * MIB + v % MIB) && KernelOnly(t, v)
  {
    hide Or, Section;
    SectionIsSum(q);
    SectionFields(q);
  }

  lemma SectionFields(q: nat)
    ensures var d := q * MIB + 0x402; d % 4 == 2 && d / 0x4_0000 % 2 == 0 && d / MIB == q
    ensures var d := q * MIB + 0x402; d / 0x400 % 4 == 1 && d / 0x8000 % 2 == 0
  {
    DivMod(4, q * 0x4_0000 + 0x100, 2);
    DivMod(0x4_0000, 4 * q, 0x402);
    DivMod(2, 2 * q, 0);
    DivMod(MIB, q, 0x402);
    DivMod(0x400, q * 0x400 + 1, 2);
    DivMod(4, q * 0x100, 1);
    DivMod(0x8000, q * 0x20, 0x402);
    DivMod(2, q * 0x10, 0);
  }

  /** Sections of the window, with the wrap of uint32_t addition. */
  lemma WindowBase(i: nat, p: nat, o: nat)
    requires o < MIB
    ensures (i * MIB + p * MIB) % U32_MOD == (i + p) % 0x1000 * MIB
    ensures (i * MIB + o + p * MIB) % U32_MOD == (i + p) % 0x1000 * MIB + o
  {
    var q, r := (i + p) / 0x1000, (i + p) % 0x1000;
    DivMod(U32_MOD, q, r * MIB);
    DivMod(U32_MOD, q, r * MIB + o);
  }

  /** The tables give the documented map wherever both start addresses allow it. */
  lemma WalkIsMap(firstVaddr: u32, firstPaddr: u32, t: Tables, v: u32)
    requires t.Valid() && Blank(t) && 0 < firstVaddr <= LAST_MIB
    requires firstVaddr % MIB == 0 && (firstPaddr % MIB == 0 || firstVaddr == LAST_MIB)
    ensures Walk(BootTables(firstVaddr, firstPaddr, t), v) == BootMap(firstVaddr, firstPaddr, t.vector, v)
    ensures KernelOnly(BootTables(firstVaddr, firstPaddr, t), v)
  {
    hide Find, Or, Section, Walk;
    if v >= LAST_MIB {
      LastMib(firstVaddr, firstPaddr, t, v);
    } else if v < firstVaddr {
      SectionDecodes(v / MIB, v, BootTables(firstVaddr, firstPaddr, t));
    } else {
      WindowIsMap(firstVaddr, firstPaddr, t, v);
    }
  }

  lemma WindowIsMap(firstVaddr: u32, firstPaddr: u32, t: Tables, v: u32)
    requires t.Valid() && 0 < firstVaddr <= v < LAST_MIB && firstVaddr % MIB == 0 && firstPaddr % MIB == 0
    ensures Walk(BootTables(firstVaddr, firstPaddr, t), v) == Some((v - firstVaddr + firstPaddr) % U32_MOD)
    ensures KernelOnly(BootTables(firstVaddr, firstPaddr, t), v)
  {
    hide Find, Or, Section, Walk;
    var i, p := v / MIB - firstVaddr / MIB, firstPaddr / MIB;
    WindowBase(i, p, v % MIB);
    assert i * MIB + v % MIB + p * MIB == v - firstVaddr + firstPaddr;
    SectionDecodes((i + p) % 0x1000, v, BootTables(firstVaddr, firstPaddr, t));
  }

  /** The last MiB goes through the page table, which has the vector page only. */
  lemma LastMib(firstVaddr: u32, firstPaddr: u32, t: Tables, v: u32)
    requires t.Valid() && Blank(t) && 0 < firstVaddr <= LAST_MIB && firstVaddr % MIB == 0 && v >= LAST_MIB
    ensures Walk(BootTables(firstVaddr, firstPaddr, t), v) == BootMap(firstVaddr, firstPaddr, t.vector, v)
    ensures KernelOnly(BootTables(firstVaddr, firstPaddr, t), v)
  {
    hide Or;
    PtEntryIsSum(t.ptAddr / 0x400);
    VectorEntryIsSum(t.vector / PAGE);
    assert BootTables(firstVaddr, firstPaddr, t).pd[4095] == t.ptAddr + 0x201;
    PageIndex(v);
    PageDecodes(t.ptAddr / 0x400, t.vector / PAGE);
  }

  lemma PageIndex(v: u32)
    requires v >= LAST_MIB
    ensures v / MIB == 4095
    ensures v / PAGE % 0x100 == ARM_VECTOR_TABLE / PAGE % 0x100 <==> v / PAGE == ARM_VECTOR_TABLE / PAGE
  {
  }

  lemma PageDecodes(p: nat, q: nat)
    ensures (p * 0x400 + 0x201) % 4 == 1 && (p * 0x400 + 0x201) / 0x400 == p
    ensures var e := q * PAGE + 0x12;
      e / 2 % 2 == 1 && e / PAGE == q && e / 0x10 % 4 == 1 && e / 0x200 % 2 == 0
  {
    DivMod(4, p * 0x100 + 0x80, 1);
    DivMod(0x400, p, 0x201);
    DivMod(2, q * 0x800 + 9, 0);
    DivMod(2, q * 0x400 + 4, 1);
    DivMod(PAGE, q, 0x12);
    DivMod(0x10, q * 0x100 + 1, 2);
    DivMod(4, q * 0x40, 1);
    DivMod(0x200, q * 8, 0x12);
    DivMod(2, q * 4, 0);
  }

  /** Every bit of the tables, for aligned starts. */
  lemma TablesBitForBit(firstVaddr: u32, firstPaddr: u32, t: Tables, j: nat)
    requires t.Valid() && 0 < firstVaddr <= LAST_MIB && j < 4096
    requires firstVaddr % MIB == 0 && firstPaddr % MIB == 0
    ensures var r := BootTables(firstVaddr, firstPaddr, t);
      && r.pt == t.pt[0xf0 := t.vector + 0x12]
      && r.pd[j] ==
           if j * MIB < firstVaddr then j * MIB + 0x402
           else if j < 4095 then (j * MIB - firstVaddr + firstPaddr) % U32_MOD + 0x402
           else t.ptAddr + 0x201
  {
    hide Or, PtEntry, Section, VectorEntry;
    VectorEntryIsSum(t.vector / PAGE);
    PtEntryIsSum(t.ptAddr / 0x400);
    var i, p := j - firstVaddr / MIB, firstPaddr / MIB;
    if i < 0 {
      SectionIsSum(j);
    } else {
      WindowBase(i, p, 0);
      SectionIsSum((i + p) % 0x1000);
    }
  }

  /** The tables lie in zeroed memory before the loader runs. */
  predicate Blank(t: Tables) {
    (forall j :: 0 <= j < |t.pd| ==> t.pd[j] == 0) && (forall j :: 0 <= j < |t.pt| ==> t.pt[j] == 0)
  }

  /** A kernel that does not start on a 1 MiB boundary loses the vector page. */
  lemma UnalignedLosesVectors(firstVaddr: u32, firstPaddr: u32, t: Tables)
    requires t.Valid() && Blank(t) && 0 < firstVaddr <= LAST_MIB && firstVaddr % MIB != 0
    ensures Walk(BootTables(firstVaddr, firstPaddr, t), ARM_VECTOR_TABLE) == None
  {
    hide Or;
    assert WindowSections(firstVaddr) == 4095 - firstVaddr / MIB;
    assert BootTables(firstVaddr, firstPaddr, t).pd[4095] == 0;
  }

  /** A walk through a section can only reach physical addresses with the same offset in the MiB. */
  lemma SectionKeepsOffset(t: Tables, v: u32)
    requires t.Valid() && t.pd[v / MIB] % 4 != 1 && Walk(t, v).Some?
    ensures Walk(t, v).value % MIB == v % MIB
  {
    SameOffset(t.pd[v / MIB] / MIB, v % MIB);
    var b := v % 0x100_0000;
    SameOffset(t.pd[v / MIB] / 0x100_0000 * 16 + b / MIB, b % MIB);
    SameOffset(v / 0x100_0000 * 16 + b / MIB, b % MIB);
  }

  lemma SameOffset(k: nat, o: nat)
    requires o < MIB
    ensures (k * MIB + o) % MIB == o
  {
    DivMod(MIB, k, o);
  }

  lemma SectionIsNoTable(base: u32)
    ensures Section(base) % 4 != 1
  {
    OrDigits(Or(base, 0x400), 2);
    OrDigits(Or(base, 0x400) / 2, 1);
  }

  /** The loops set up the documented map exactly when the window starts on 1 MiB boundaries. */
  lemma BootMapIffAligned(firstVaddr: u32, firstPaddr: u32, t: Tables)
    requires t.Valid() && Blank(t) && 0 < firstVaddr <= LAST_MIB
    ensures (forall v: u32 ::
              Walk(BootTables(firstVaddr, firstPaddr, t), v) == BootMap(firstVaddr, firstPaddr, t.vector, v))
        <==> firstVaddr % 0x10_0000 == 0 && (firstPaddr % 0x10_0000 == 0 || firstVaddr == 0xfff0_0000)
  {
    hide BootTables, Or, Walk;
    var r := BootTables(firstVaddr, firstPaddr, t);
    if firstVaddr % MIB == 0 && (firstPaddr % MIB == 0 || firstVaddr == LAST_MIB) {
      forall v: u32
        ensures Walk(r, v) == BootMap(firstVaddr, firstPaddr, t.vector, v)
      {
        WalkIsMap(firstVaddr, firstPaddr, t, v);
      }
    } else if firstVaddr % MIB != 0 {
      UnalignedLosesVectors(firstVaddr, firstPaddr, t);
      assert Walk(r, ARM_VECTOR_TABLE) != BootMap(firstVaddr, firstPaddr, t.vector, ARM_VECTOR_TABLE);
    } else {
      UnalignedTarget(firstVaddr, firstPaddr, t);
      assert Walk(r, firstVaddr) != BootMap(firstVaddr, firstPaddr, t.vector, firstVaddr);
    }
  }

  lemma UnalignedTarget(firstVaddr: u32, firstPaddr: u32, t: Tables)
    requires t.Valid() && 0 < firstVaddr < LAST_MIB && firstVaddr % MIB == 0 && firstPaddr % MIB != 0
    ensures Walk(BootTables(firstVaddr, firstPaddr, t), firstVaddr) != Some(firstPaddr)
  {
    hide Or, Walk;
    var r := BootTables(firstVaddr, firstPaddr, t);
    assert r.pd[firstVaddr / MIB] == Section(firstPaddr);
    SectionIsNoTable(firstPaddr);
    if Walk(r, firstVaddr).Some? {
      SectionKeepsOffset(r, firstVaddr);
    }
  }

  // ---------- LPAE: four second-level tables in one array ----------

  /** _lpae_boot_pgd, and _lpae_boot_pmd with its address. */
  datatype LpaeTables = LpaeTables(pgd: seq<nat>, pmd: seq<nat>, pmdAddr: u32) {
    predicate Valid() {
      |pgd| == 4 && |pmd| == 2048 && pmdAddr % PAGE == 0 && pmdAddr + 0x4000 <= U32_MOD
    }
  }

  /** Bit 10, the access flag: without it every access faults. */
  predicate Accessible(e: nat) {
    e / 0x400 % 2 == 1
  }

  /** The two-level walk; the second level is read from memory at the address found in the first. */
  function LpaeWalk(t: LpaeTables, v: u32): Option<nat>
    requires t.Valid()
  {
    var d := t.pgd[v / GIB];
    var at := d / PAGE % 0x1000_0000 * PAGE + v / BLOCK % 512 * 8;
    if d % 4 == 3 && t.pmdAddr <= at < t.pmdAddr + 0x4000 then
      var e := t.pmd[(at - t.pmdAddr) / 8];
      if e % 4 == 1 && Accessible(e) then Some(e / BLOCK % 0x8_0000 * BLOCK + v % BLOCK) else None
    else None
  }

  function LpaeMap(firstVaddr: u32, firstPaddr: u32, v: u32): Option<nat> {
    Some(if v < firstVaddr then v else (v - firstVaddr + firstPaddr) % U32_MOD)
  }

  function Block(base: u32): nat {
    Or(Or(base, 0x400), 1)
  }

  function LpaePmdEntry(firstVaddr: u32, firstPaddr: u32, t: LpaeTables, j: nat): nat
    requires t.Valid() && j < 2048
  {
    var f, n := firstVaddr / BLOCK, (U32_MOD - firstVaddr) % U32_MOD / BLOCK;
    if j < f then Block(j * BLOCK)
    else if j < f + n then Block(((j - f) * BLOCK + firstPaddr) % U32_MOD)
    else t.pmd[j]
  }

  function LpaePgdEntry(t: LpaeTables, j: nat): nat {
    Or(Or(t.pmdAddr + j * PAGE, 2), 1)
  }

  function LpaeBootTables(firstVaddr: u32, firstPaddr: u32, t: LpaeTables): (r: LpaeTables)
    requires t.Valid()
    ensures r.Valid()
  {
    t.(pgd := seq(4, j requires 0 <= j < 4 => LpaePgdEntry(t, j)),
       pmd := seq(2048, j requires 0 <= j < 2048 => LpaePmdEntry(firstVaddr, firstPaddr, t, j)))
  }

  method InitHypBootVspace(pgd: array<nat>, pmd: array<nat>, pmdAddr: u32, firstVaddr: u32, firstPaddr: u32)
    requires LpaeTables(pgd[..], pmd[..], pmdAddr).Valid() && pgd != pmd
    modifies pgd, pmd
    ensures LpaeTables(pgd[..], pmd[..], pmdAddr)
         == LpaeBootTables(firstVaddr, firstPaddr, LpaeTables(old(pgd[..]), old(pmd[..]), pmdAddr))
  {
    hide Or;
    ghost var t := LpaeTables(pgd[..], pmd[..], pmdAddr);
    var i, k := 0, 0;
    while i < 4
      invariant i <= 4 && pmd[..] == t.pmd
      invariant forall j :: 0 <= j < i ==> pgd[j] == LpaePgdEntry(t, j)
    {
      pgd[i] := Or(Or(pmdAddr + i * PAGE, 2), 1);
      i := i + 1;
    }
    ghost var directory := pgd[..];
    i := 0;
    while i < firstVaddr / BLOCK
      invariant i <= firstVaddr / BLOCK && pgd[..] == directory
      invariant forall j :: 0 <= j < 2048 ==>
        pmd[j] == if j < i then LpaePmdEntry(firstVaddr, firstPaddr, t, j) else t.pmd[j]
    {
      pmd[i] := Or(Or(i * BLOCK, 0x400), 1);
      i := i + 1;
    }
    while k < (U32_MOD - firstVaddr) % U32_MOD / BLOCK
      invariant k <= (U32_MOD - firstVaddr) % U32_MOD / BLOCK && pgd[..] == directory
      invariant forall j :: 0 <= j < 2048 ==>
        pmd[j] == if j < i + k then LpaePmdEntry(firstVaddr, firstPaddr, t, j) else t.pmd[j]
    {
      pmd[i + k] := Or(Or((k * BLOCK + firstPaddr) % U32_MOD, 0x400), 1);
      k := k + 1;
    }
  }

  lemma BlockIsSum(q: nat)
    requires q < 0x800
    ensures Block(q * BLOCK) == q * BLOCK + 0x401
  {
    OrBelow10(1, 1);
    TwoFlags(q * 0x200, 0x400, 1);
  }

  lemma TableIsSum(q: nat)
    ensures Or(Or(q * PAGE, 2), 1) == q * PAGE + 3
  {
    assert Or(2, 1) == 3 by { OrStep(1, 1); OrZero(1); }
    TwoFlags(q, 2, 1);
  }

  /** The four tables are one: the two-level walk uses entry v >> 21 of the array. */
  lemma FlatIndex(firstVaddr: u32, firstPaddr: u32, t: LpaeTables, v: u32)
    requires t.Valid()
    ensures var r := LpaeBootTables(firstVaddr, firstPaddr, t);
      var e := r.pmd[v / BLOCK];
      LpaeWalk(r, v) == if e % 4 == 1 && Accessible(e) then Some(e / BLOCK % 0x8_0000 * BLOCK + v % BLOCK) else None
  {
    hide Or, LpaePmdEntry;
    var g, p := v / GIB, t.pmdAddr / PAGE;
    TableIsSum(p + g);
    assert LpaeBootTables(firstVaddr, firstPaddr, t).pgd[g] == (p + g) * PAGE + 3;
    FlatAddress(p, v);
  }

  lemma FlatAddress(p: nat, v: u32)
    requires p < 0x10_0000
    ensures var d := (p + v / GIB) * PAGE + 3;
      && d % 4 == 3
      && d / PAGE % 0x1000_0000 * PAGE + v / BLOCK % 512 * 8 == p * PAGE + v / BLOCK * 8
    ensures v / BLOCK < 2048
  {
    var g, d := v / GIB, (p + v / GIB) * PAGE + 3;
    DivMod(4, (p + g) * 0x400, 3);
    DivMod(PAGE, p + g, 3);
    GibAndBlock(v);
  }

  lemma GibAndBlock(v: u32)
    ensures v / BLOCK == v / GIB * 512 + v / BLOCK % 512
  {
    var g, o := v / GIB, v % GIB;
    DivMod(BLOCK, g * 512 + o / BLOCK, o % BLOCK);
    DivMod(512, g, o / BLOCK);
  }

  lemma LpaeWindowBase(i: nat, p: nat, o: nat)
    requires o < BLOCK
    ensures (i * BLOCK + p * BLOCK) % U32_MOD == (i + p) % 0x800 * BLOCK
    ensures (i * BLOCK + o + p * BLOCK) % U32_MOD == (i + p) % 0x800 * BLOCK + o
  {
    var q, r := (i + p) / 0x800, (i + p) % 0x800;
    DivMod(U32_MOD, q, r * BLOCK);
    DivMod(U32_MOD, q, r * BLOCK + o);
  }

  lemma LpaeWalkIsMap(firstVaddr: u32, firstPaddr: u32, t: LpaeTables, v: u32)
    requires t.Valid() && firstVaddr > 0 && firstVaddr % BLOCK == 0 && firstPaddr % BLOCK == 0
    ensures LpaeWalk(LpaeBootTables(firstVaddr, firstPaddr, t), v) == LpaeMap(firstVaddr, firstPaddr, v)
  {
    hide Or, Block, LpaeWalk;
    FlatIndex(firstVaddr, firstPaddr, t, v);
    var j, f := v / BLOCK, firstVaddr / BLOCK;
    var q := if j < f then j else (j - f + firstPaddr / BLOCK) % 0x800;
    assert LpaeBootTables(firstVaddr, firstPaddr, t).pmd[j] == Block(q * BLOCK) by {
      if j >= f {
        LpaeWindowBase(j - f, firstPaddr / BLOCK, v % BLOCK);
      }
    }
    hide LpaeBootTables;
    BlockIsSum(q);
    BlockDecodes(q);
    if j >= f {
      LpaeWindowBase(j - f, firstPaddr / BLOCK, v % BLOCK);
      assert (j - f) * BLOCK + v % BLOCK + firstPaddr / BLOCK * BLOCK == v - firstVaddr + firstPaddr;
    }
  }

  /** Every bit of the LPAE tables, for aligned starts. */
  lemma LpaeTablesBitForBit(firstVaddr: u32, firstPaddr: u32, t: LpaeTables, j: nat)
    requires t.Valid() && 0 < firstVaddr && firstVaddr % BLOCK == 0 && firstPaddr % BLOCK == 0 && j < 2048
    ensures var r := LpaeBootTables(firstVaddr, firstPaddr, t);
      && (j < 4 ==> r.pgd[j] == t.pmdAddr + j * PAGE + 3)
      && r.pmd[j] ==
           if j * BLOCK < firstVaddr then j * BLOCK + 0x401
           else (j * BLOCK - firstVaddr + firstPaddr) % U32_MOD + 0x401
  {
    hide Or, Block;
    TableIsSum(t.pmdAddr / PAGE + j);
    var i, p := j - firstVaddr / BLOCK, firstPaddr / BLOCK;
    if i < 0 {
      BlockIsSum(j);
    } else {
      LpaeWindowBase(i, p, 0);
      BlockIsSum((i + p) % 0x800);
    }
  }

  lemma BlockDecodes(q: nat)
    requires q < 0x8_0000
    ensures var e := q * BLOCK + 0x401; e % 4 == 1 && Accessible(e) && e / BLOCK % 0x8_0000 == q
  {
    DivMod(0x400, q * 0x800 + 1, 1);
    DivMod(2, q * 0x400, 1);
    DivMod(4, q * 0x8_0000 + 0x100, 1);
    DivMod(BLOCK, q, 0x401);
  }

  /** The LPAE tables give the map for all addresses exactly when the window starts on 2 MiB boundaries. */
  lemma LpaeMapIffAligned(firstVaddr: u32, firstPaddr: u32, t: LpaeTables)
    requires t.Valid() && forall j :: 0 <= j < 2048 ==> t.pmd[j] == 0
    ensures (forall v: u32 ::
              LpaeWalk(LpaeBootTables(firstVaddr, firstPaddr, t), v) == LpaeMap(firstVaddr, firstPaddr, v))
        <==> firstVaddr > 0 && firstVaddr % 0x20_0000 == 0 && firstPaddr % 0x20_0000 == 0
  {
    hide Or, LpaeBootTables, LpaeWalk;
    var r := LpaeBootTables(firstVaddr, firstPaddr, t);
    if firstVaddr > 0 && firstVaddr % BLOCK == 0 && firstPaddr % BLOCK == 0 {
      forall v: u32
        ensures LpaeWalk(r, v) == LpaeMap(firstVaddr, firstPaddr, v)
      {
        LpaeWalkIsMap(firstVaddr, firstPaddr, t, v);
      }
    } else if firstVaddr % BLOCK != 0 || firstVaddr == 0 {
      LpaeUnalignedLosesTop(firstVaddr, firstPaddr, t);
      assert LpaeWalk(r, U32_MOD - 1) != LpaeMap(firstVaddr, firstPaddr, U32_MOD - 1);
    } else {
      LpaeUnalignedTarget(firstVaddr, firstPaddr, t);
      assert LpaeWalk(r, firstVaddr) != LpaeMap(firstVaddr, firstPaddr, firstVaddr);
    }
  }

  lemma LpaeUnalignedTarget(firstVaddr: u32, firstPaddr: u32, t: LpaeTables)
    requires t.Valid() && firstVaddr % BLOCK == 0 && firstPaddr % BLOCK != 0
    ensures LpaeWalk(LpaeBootTables(firstVaddr, firstPaddr, t), firstVaddr) != Some(firstPaddr)
  {
    hide Or, LpaeBootTables;
    FlatIndex(firstVaddr, firstPaddr, t, firstVaddr);
  }

  lemma LpaeUnalignedLosesTop(firstVaddr: u32, firstPaddr: u32, t: LpaeTables)
    requires t.Valid() && (forall j :: 0 <= j < 2048 ==> t.pmd[j] == 0) && (firstVaddr % BLOCK != 0 || firstVaddr == 0)
    ensures LpaeWalk(LpaeBootTables(firstVaddr, firstPaddr, t), U32_MOD - 1) == None
  {
    hide Or, LpaeWalk;
    FlatIndex(firstVaddr, firstPaddr, t, U32_MOD - 1);
    assert LpaeBootTables(firstVaddr, firstPaddr, t).pmd[2047] == 0;
  }

  /** Both table formats give the same map below the last MiB. */
  lemma BothFormatsAgree(firstVaddr: u32, firstPaddr: u32, t: Tables, l: LpaeTables, v: u32)
    requires t.Valid() && Blank(t) && l.Valid() && 0 < firstVaddr <= LAST_MIB && v < LAST_MIB
    requires firstVaddr % BLOCK == 0 && firstPaddr % BLOCK == 0
    ensures Walk(BootTables(firstVaddr, firstPaddr, t), v) == LpaeWalk(LpaeBootTables(firstVaddr, firstPaddr, l), v)
  {
    hide Or, LpaeWalk, Walk;
    BlocksAreMibs(firstVaddr);
    BlocksAreMibs(firstPaddr);
    WalkIsMap(firstVaddr, firstPaddr, t, v);
    LpaeWalkIsMap(firstVaddr, firstPaddr, l, v);
  }

  lemma BlocksAreMibs(x: nat)
    requires x % BLOCK == 0
    ensures x % MIB == 0
  {
    DivMod(MIB, 2 * (x / BLOCK), 0);
  }
}
