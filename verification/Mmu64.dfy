/** The boot page tables of 64-bit ARM (src/arch-arm/64/mmu.c) and the table walk that gives them meaning. */
module Mmu64 {
  import opened Bits
  import opened Bytes
  import opened Paging

  const PGD_SPAN: nat := 0x80_0000_0000
  const VA_SPAN: nat := 0x1_0000_0000_0000

  /** The five tables, and the addresses of the three that other tables point to. */
  datatype Tables = Tables(
    pgdDown: seq<nat>, pgdUp: seq<nat>, pudDown: seq<nat>, pudUp: seq<nat>, pmdUp: seq<nat>,
    pudDownAddr: nat, pudUpAddr: nat, pmdUpAddr: nat)
  {
    predicate Valid() {
      && |pgdDown| == |pgdUp| == |pudDown| == |pudUp| == |pmdUp| == 512
      && Place(pudDownAddr) && Place(pudUpAddr) && Place(pmdUpAddr)
      && pudDownAddr != pudUpAddr && pudDownAddr != pmdUpAddr && pudUpAddr != pmdUpAddr
    }

    static predicate Place(a: nat) {
      a % PAGE == 0 && a < VA_SPAN
    }

    /** The table that lies at address a. */
    function At(a: nat): Option<seq<nat>> {
      if a == pudDownAddr then Some(pudDown)
      else if a == pudUpAddr then Some(pudUp)
      else if a == pmdUpAddr then Some(pmdUp)
      else None
    }
  }

  /** Bits 47 to 12 of a descriptor: the address of the next table. */
  function NextTable(d: nat): nat {
    d / PAGE % 0x10_0000_0000 * PAGE
  }

  /** The block that translates an address: 1 GiB from level 1, 2 MiB from level 2. */
  datatype Leaf = Leaf(desc: nat, gib: bool) {
    /** Bits 4 to 2: the index of the memory type in MAIR. */
    function MemoryType(): nat {
      desc / 4 % 8
    }

    /** Bits 9 and 8: 0 is non-shareable, 3 inner shareable. */
    function Shareability(): nat {
      desc / 0x100 % 4
    }

    function Address(v: nat): nat {
      if gib then desc / GIB % 0x4_0000 * GIB + v % GIB else desc / BLOCK % 0x800_0000 * BLOCK + v % BLOCK
    }
  }

  /** The walk of a 48-bit address from level 0 down, with 4 KiB granules; None is a fault. */
  function Find(t: Tables, root: seq<nat>, v: nat): Option<Leaf>
    requires t.Valid() && |root| == 512
  {
    var d := root[v / PGD_SPAN % 512];
    if d % 4 != 3 || t.At(NextTable(d)).None? then None else FindInPud(t, t.At(NextTable(d)).value, v)
  }

  function FindInPud(t: Tables, pud: seq<nat>, v: nat): Option<Leaf>
    requires t.Valid() && |pud| == 512
  {
    var d := pud[v / GIB % 512];
    if d % 4 == 1 then if Accessible(d) then Some(Leaf(d, true)) else None
    else if d % 4 != 3 || t.At(NextTable(d)).None? then None
    else FindInPmd(t.At(NextTable(d)).value, v)
  }

  function FindInPmd(pmd: seq<nat>, v: nat): Option<Leaf>
    requires |pmd| == 512
  {
    var d := pmd[v / BLOCK % 512];
    if d % 4 == 1 && Accessible(d) then Some(Leaf(d, false)) else None
  }

  /** Bit 10, the access flag: without it every access faults. */
  predicate Accessible(d: nat) {
    d / 0x400 % 2 == 1
  }

  function Walk(t: Tables, root: seq<nat>, v: nat): Option<nat>
    requires t.Valid() && |root| == 512
  {
    match Find(t, root, v)
    case None => None
    case Some(leaf) => Some(leaf.Address(v))
  }

  /** At EL1 the top 16 bits choose between TTBR0 (all zero) and TTBR1 (all one). */
  function RootEl1(t: Tables, v: u64): Option<seq<nat>> {
    if v < VA_SPAN then Some(t.pgdDown) else if v >= U64_MOD - VA_SPAN then Some(t.pgdUp) else None
  }

  function WalkEl1(t: Tables, v: u64): Option<nat>
    requires t.Valid()
  {
    if RootEl1(t, v).None? then None else Walk(t, RootEl1(t, v).value, v)
  }

  /** At EL2 there is TTBR0 only. */
  function WalkEl2(t: Tables, v: u64): Option<nat>
    requires t.Valid()
  {
    if v < VA_SPAN then Walk(t, t.pgdDown, v) else None
  }

  predicate HasType(leaf: Leaf, index: nat, share: nat) {
    leaf.MemoryType() == index && leaf.Shareability() == share
  }

  /** Address v is mapped with memory type and shareability. */
  predicate TypeEl1(t: Tables, v: u64, index: nat, share: nat)
    requires t.Valid()
  {
    RootEl1(t, v).Some? && Find(t, RootEl1(t, v).value, v).Some?
    && HasType(Find(t, RootEl1(t, v).value, v).value, index, share)
  }

  predicate TypeEl2(t: Tables, v: u64, index: nat, share: nat)
    requires t.Valid()
  {
    v < VA_SPAN && Find(t, t.pgdDown, v).Some? && HasType(Find(t, t.pgdDown, v).value, index, share)
  }

  // ---------- The entries ----------

  function TableEntry(a: nat): nat {
    Or(Or(a, 2), 1)
  }

  function GibEntry(i: nat): nat {
    Or(Or(Or(i * GIB, 0x400), 0), 1)
  }

  /** A 2 MiB block of normal memory; on multiprocessors it is marked shareable as well. */
  function BlockEntry(a: u64, smp: bool): nat {
    if smp then Or(Or(Or(Or(a, 0x400), 0x300), 0x10), 1) else Or(Or(Or(a, 0x400), 0x10), 1)
  }

  function PgdIndex(v: nat): (r: nat)
    ensures r < 512
  {
    v / PGD_SPAN % 512
  }

  function PudIndex(v: nat): (r: nat)
    ensures r < 512
  {
    v / GIB % 512
  }

  function PmdIndex(v: nat): (r: nat)
    ensures r < 512
  {
    v / BLOCK % 512
  }

  /** Tables after init_boot_vspace. */
  function BootTables(firstVaddr: u64, firstPaddr: u64, smp: bool, t: Tables): (r: Tables)
    requires t.Valid()
    ensures r.Valid()
  {
    t.(pgdDown := t.pgdDown[0 := TableEntry(t.pudDownAddr)],
       pudDown := seq(512, i requires 0 <= i < 512 => GibEntry(i)),
       pgdUp := t.pgdUp[PgdIndex(firstVaddr) := TableEntry(t.pudUpAddr)],
       pudUp := t.pudUp[PudIndex(firstVaddr) := TableEntry(t.pmdUpAddr)],
       pmdUp := seq(512, i requires 0 <= i < 512 => BlockEntry((i * BLOCK + firstPaddr) % U64_MOD, smp)))
  }

  /** Entry i of the last table after init_hyp_boot_vspace. */
  function HypPmdEntry(firstVaddr: u64, firstPaddr: u64, smp: bool, t: Tables, i: nat): nat
    requires t.Valid() && i < 512
  {
    if i < PmdIndex(firstVaddr) then t.pmdUp[i]
    else BlockEntry(((i - PmdIndex(firstVaddr)) * BLOCK + firstPaddr) % U64_MOD, smp)
  }

  /** Tables after init_hyp_boot_vspace. */
  function HypTables(firstVaddr: u64, firstPaddr: u64, smp: bool, t: Tables): (r: Tables)
    requires t.Valid()
    ensures r.Valid()
  {
    t.(pgdDown := t.pgdDown[0 := TableEntry(t.pudDownAddr)][PgdIndex(firstVaddr) := TableEntry(t.pudUpAddr)],
       pudDown := seq(512, i requires 0 <= i < 512 => GibEntry(i)),
       pudUp := t.pudUp[PudIndex(firstVaddr) := TableEntry(t.pmdUpAddr)],
       pmdUp := seq(512, i requires 0 <= i < 512 => HypPmdEntry(firstVaddr, firstPaddr, smp, t, i)))
  }

  /** The global arrays of the page tables. */
  class Arrays {
    const pgdDown: array<nat>
    const pgdUp: array<nat>
    const pudDown: array<nat>
    const pudUp: array<nat>
    const pmdUp: array<nat>
    const pudDownAddr: nat
    const pudUpAddr: nat
    const pmdUpAddr: nat

    /** Zeroed tables at the given addresses. */
    constructor (pudDownAddr: nat, pudUpAddr: nat, pmdUpAddr: nat)
      requires Tables.Place(pudDownAddr) && Tables.Place(pudUpAddr) && Tables.Place(pmdUpAddr)
      requires pudDownAddr != pudUpAddr && pudDownAddr != pmdUpAddr && pudUpAddr != pmdUpAddr
      ensures Separate() && Value().Valid() && Blank(Value())
      ensures fresh(pgdDown) && fresh(pgdUp) && fresh(pudDown) && fresh(pudUp) && fresh(pmdUp)
    {
      pgdDown := new nat[512](_ => 0);
      pgdUp := new nat[512](_ => 0);
      pudDown := new nat[512](_ => 0);
      pudUp := new nat[512](_ => 0);
      pmdUp := new nat[512](_ => 0);
      this.pudDownAddr, this.pudUpAddr, this.pmdUpAddr := pudDownAddr, pudUpAddr, pmdUpAddr;
    }

    ghost predicate Separate() {
      && pgdDown != pgdUp && pgdDown != pudDown && pgdDown != pudUp && pgdDown != pmdUp
      && pgdUp != pudDown && pgdUp != pudUp && pgdUp != pmdUp
      && pudDown != pudUp && pudDown != pmdUp && pudUp != pmdUp
    }

    function Value(): Tables
      reads pgdDown, pgdUp, pudDown, pudUp, pmdUp
    {
      Tables(pgdDown[..], pgdUp[..], pudDown[..], pudUp[..], pmdUp[..], pudDownAddr, pudUpAddr, pmdUpAddr)
    }

    method InitBootVspace(firstVaddr: u64, firstPaddr: u64, smp: bool)
      requires Separate() && Value().Valid()
      modifies pgdDown, pgdUp, pudDown, pudUp, pmdUp
      ensures Value() == BootTables(firstVaddr, firstPaddr, smp, old(Value()))
    {
      hide Or;
      pgdDown[0] := Or(Or(pudDownAddr, 2), 1);
      FillIdentity();
      pgdUp[PgdIndex(firstVaddr)] := Or(Or(pudUpAddr, 2), 1);
      pudUp[PudIndex(firstVaddr)] := Or(Or(pmdUpAddr, 2), 1);
      var i := 0;
      while i < 512
        invariant i <= 512
        invariant forall j :: 0 <= j < i ==> pmdUp[j] == BlockEntry((j * BLOCK + firstPaddr) % U64_MOD, smp)
        modifies pmdUp
      {
        pmdUp[i] := BlockEntry((i * BLOCK + firstPaddr) % U64_MOD, smp);
        i := i + 1;
      }
    }

    /** The loop over _boot_pud_down that both functions have. */
    method FillIdentity()
      requires pudDown.Length == 512
      modifies pudDown
      ensures pudDown[..] == seq(512, i requires 0 <= i < 512 => GibEntry(i))
    {
      hide Or;
      var i := 0;
      while i < 512
        invariant i <= 512
        invariant forall j :: 0 <= j < i ==> pudDown[j] == GibEntry(j)
      {
        pudDown[i] := Or(Or(Or(i * GIB, 0x400), 0), 1);
        i := i + 1;
      }
    }

    method InitHypBootVspace(firstVaddr: u64, firstPaddr: u64, smp: bool)
      requires Separate() && Value().Valid()
      modifies pgdDown, pudDown, pudUp, pmdUp
      ensures Value() == HypTables(firstVaddr, firstPaddr, smp, old(Value()))
    {
      hide Or;
      ghost var t := Value();
      pgdDown[0] := Or(Or(pudDownAddr, 2), 1);
      FillIdentity();
      pgdDown[PgdIndex(firstVaddr)] := Or(Or(pudUpAddr, 2), 1);
      pudUp[PudIndex(firstVaddr)] := Or(Or(pmdUpAddr, 2), 1);
      var pmdIndex := PmdIndex(firstVaddr);
      var i := pmdIndex;
      while i < 512
        invariant pmdIndex <= i <= 512
        invariant forall j :: 0 <= j < 512 ==>
          pmdUp[j] == if j < i then HypPmdEntry(firstVaddr, firstPaddr, smp, t, j) else t.pmdUp[j]
        modifies pmdUp
      {
        pmdUp[i] := BlockEntry(((i - pmdIndex) * BLOCK + firstPaddr) % U64_MOD, smp);
        i := i + 1;
      }
    }
  }

  /** The tables lie in zeroed memory before the loader runs. */
  predicate Blank(t: Tables) {
    && (forall i :: 0 <= i < |t.pgdDown| ==> t.pgdDown[i] == 0) && (forall i :: 0 <= i < |t.pgdUp| ==> t.pgdUp[i] == 0)
    && (forall i :: 0 <= i < |t.pudUp| ==> t.pudUp[i] == 0) && (forall i :: 0 <= i < |t.pmdUp| ==> t.pmdUp[i] == 0)
  }

  // ---------- Decoding ----------

  lemma TableDecodes(a: nat)
    requires Tables.Place(a)
    ensures TableEntry(a) == a + 3 && TableEntry(a) % 4 == 3 && NextTable(TableEntry(a)) == a
  {
    hide Or;
    var q := a / PAGE;
    assert Or(2, 1) == 3 by { OrStep(1, 1); OrZero(1); }
    TwoFlags(q, 2, 1);
    DivMod(4, q * 0x400, 3);
    DivMod(PAGE, q, 3);
  }

  /** A 1 GiB block: address, access flag, memory type 0. */
  lemma GibIsSum(i: nat)
    ensures GibEntry(i) == i * GIB + 0x401
  {
    hide Or;
    var q := i * 0x4_0000;
    assert Or(0x400, 0) == 0x400 && Or(0x400, 1) == 0x401 by { OrZero(0x400); OrBelow10(1, 1); }
    OrAssociates(q * PAGE, 0x400, 0);
    TwoFlags(q, 0x400, 1);
  }

  lemma GibDecodes(i: nat)
    requires i < 512
    ensures var d := GibEntry(i);
      d % 4 == 1 && Accessible(d) && d / GIB % 0x4_0000 == i && d / 4 % 8 == 0 && d / 0x100 % 4 == 0
  {
    hide GibEntry;
    GibIsSum(i);
    DivMod(4, i * 0x1000_0000 + 0x100, 1);
    DivMod(0x400, i * 0x10_0000 + 1, 1);
    DivMod(2, i * 0x8_0000, 1);
    DivMod(0x100, i * 0x40_0000 + 4, 1);
    DivMod(4, i * 0x10_0000 + 1, 0);
    DivMod(8, i * 0x200_0000 + 0x20, 0);
    DivMod(GIB, i, 0x401);
  }

  /** The attributes of a block stay inside its low 12 bits. */
  lemma BlockIsSum(q: nat, smp: bool)
    requires q * PAGE < U64_MOD
    ensures BlockEntry(q * PAGE, smp) == q * PAGE + if smp then 0x711 else 0x411
  {
    hide Or;
    var a := q * PAGE;
    OrAssociates(a, 0x400, 0x300);
    OrBelow10(1, 0x300);
    LowFlags(0x400);
    LowFlags(0x700);
    if smp {
      OrAssociates(a, 0x700, 0x10);
      TwoFlags(q, 0x710, 1);
    } else {
      OrAssociates(a, 0x400, 0x10);
      TwoFlags(q, 0x410, 1);
    }
  }

  lemma LowFlags(f: nat)
    requires f == 0x400 || f == 0x700
    ensures Or(f, 0x10) == f + 0x10 && Or(f + 0x10, 1) == f + 0x11
  {
    hide Or;
    OrBelow8(f / 0x100, 0x10);
    OrBelow8(f / 0x100, 0x11);
    assert Or(0x10, 1) == 0x11 by { OrStep(8, 1); OrZero(8); }
    OrAssociates(f, 0x10, 1);
  }

  lemma BlockDecodes(a: u64, smp: bool)
    requires a % PAGE == 0 && a < VA_SPAN
    ensures BlockEntry(a, smp) % 4 == 1 && BlockEntry(a, smp) / BLOCK % 0x800_0000 == a / BLOCK
  {
    hide BlockEntry;
    var q, f := a / PAGE, if smp then 0x711 else 0x411;
    BlockIsSum(q, smp);
    DivMod(4, q * 0x400 + f / 4, 1);
    DivMod(BLOCK, q / 512, q % 512 * PAGE + f);
    DivMod(BLOCK, q / 512, q % 512 * PAGE);
  }

  lemma BlockAttributes(a: u64, smp: bool)
    requires a % PAGE == 0
    ensures var d := BlockEntry(a, smp);
      Accessible(d) && d / 4 % 8 == 4 && d / 0x100 % 4 == if smp then 3 else 0
  {
    hide BlockEntry;
    var q, f := a / PAGE, if smp then 0x711 else 0x411;
    BlockIsSum(q, smp);
    DivMod(0x400, q * 4 + 1, f - 0x400);
    DivMod(2, q * 2, 1);
    DivMod(0x100, q * 0x10 + f / 0x100, f % 0x100);
    DivMod(4, q * 4 + 1, f / 0x100 - 4);
    DivMod(4, q * 0x400 + f / 4, 1);
    DivMod(8, q * 0x80 + f / 32, 4);
  }

  lemma SameGib(v: nat, w: nat)
    requires v / GIB == w / GIB
    ensures v / PGD_SPAN == w / PGD_SPAN && PgdIndex(v) == PgdIndex(w) && PudIndex(v) == PudIndex(w)
  {
    var g := v / GIB;
    DivMod(PGD_SPAN, g / 512, g % 512 * GIB + v % GIB);
    DivMod(PGD_SPAN, g / 512, g % 512 * GIB + w % GIB);
  }

  /** An address is its GiB, its block in the GiB and its offset in the block. */
  lemma BlockOfGib(v: nat)
    ensures v / BLOCK == v / GIB * 512 + PmdIndex(v) && v % GIB == PmdIndex(v) * BLOCK + v % BLOCK
  {
    var g, o := v / GIB, v % GIB;
    DivMod(BLOCK, g * 512 + o / BLOCK, o % BLOCK);
    DivMod(512, g, o / BLOCK);
  }

  /** The walk through the three tables of the window: normal memory, shareable on multiprocessors. */
  lemma WindowWalk(t: Tables, root: seq<nat>, v: nat, a: u64, smp: bool)
    requires t.Valid() && |root| == 512
    requires root[PgdIndex(v)] == TableEntry(t.pudUpAddr) && t.pudUp[PudIndex(v)] == TableEntry(t.pmdUpAddr)
    requires t.pmdUp[PmdIndex(v)] == BlockEntry(a, smp) && a % PAGE == 0 && a < VA_SPAN
    ensures Walk(t, root, v) == Some(a / BLOCK * BLOCK + v % BLOCK)
    ensures Find(t, root, v).Some? && HasType(Find(t, root, v).value, 4, if smp then 3 else 0)
  {
    hide TableEntry, BlockEntry, NextTable, Accessible;
    TableDecodes(t.pudUpAddr);
    TableDecodes(t.pmdUpAddr);
    BlockDecodes(a, smp);
    BlockAttributes(a, smp);
  }

  /** The walk through the identity map of the low 512 GiB: strongly ordered memory. */
  lemma IdentityWalk(t: Tables, v: nat)
    requires t.Valid() && v < PGD_SPAN && t.pgdDown[0] == TableEntry(t.pudDownAddr)
    requires t.pudDown == seq(512, i requires 0 <= i < 512 => GibEntry(i))
    ensures Walk(t, t.pgdDown, v) == Some(v)
    ensures Find(t, t.pgdDown, v).Some? && HasType(Find(t, t.pgdDown, v).value, 0, 0)
  {
    hide TableEntry, GibEntry, NextTable, Accessible;
    TableDecodes(t.pudDownAddr);
    GibDecodes(v / GIB);
  }

  // ---------- EL2 ----------

  /** v lies between first_vaddr and the end of its GiB. */
  predicate InWindow(firstVaddr: u64, v: u64) {
    firstVaddr <= v && v / 0x4000_0000 == firstVaddr / 0x4000_0000
  }

  /** v lies between the start of the 2 MiB block of first_vaddr and the end of its GiB. */
  predicate InBlocks(firstVaddr: u64, v: u64) {
    firstVaddr / BLOCK <= v / BLOCK && v / GIB == firstVaddr / GIB
  }

  /** The block of the kernel image that v falls in. */
  lemma WindowBlock(firstVaddr: u64, firstPaddr: u64, v: u64)
    requires InBlocks(firstVaddr, v) && firstPaddr % PAGE == 0 && firstPaddr + GIB <= VA_SPAN
    ensures PmdIndex(v) >= PmdIndex(firstVaddr)
    ensures var a := (PmdIndex(v) - PmdIndex(firstVaddr)) * BLOCK + firstPaddr;
      && a % PAGE == 0 && a < VA_SPAN
      && a / BLOCK * BLOCK + v % BLOCK == v - (firstVaddr - firstVaddr % BLOCK) + (firstPaddr - firstPaddr % BLOCK)
  {
    BlockOfGib(v);
    BlockOfGib(firstVaddr);
    var k := PmdIndex(v) - PmdIndex(firstVaddr);
    DivMod(BLOCK, k + firstPaddr / BLOCK, firstPaddr % BLOCK);
    DivMod(PAGE, k * 512 + firstPaddr / PAGE, 0);
  }

  lemma HypWindow(firstVaddr: u64, firstPaddr: u64, smp: bool, t: Tables, v: u64)
    requires t.Valid() && firstVaddr < VA_SPAN && InBlocks(firstVaddr, v)
    requires firstPaddr % PAGE == 0 && firstPaddr + GIB <= VA_SPAN
    ensures WalkEl2(HypTables(firstVaddr, firstPaddr, smp, t), v)
         == Some(v - (firstVaddr - firstVaddr % BLOCK) + (firstPaddr - firstPaddr % BLOCK))
    ensures v < VA_SPAN && TypeEl2(HypTables(firstVaddr, firstPaddr, smp, t), v, 4, if smp then 3 else 0)
  {
    hide Walk, TableEntry, BlockEntry, GibEntry, PgdIndex, PudIndex, PmdIndex;
    SameGib(v, firstVaddr);
    WindowBlock(firstVaddr, firstPaddr, v);
    var a := (PmdIndex(v) - PmdIndex(firstVaddr)) * BLOCK + firstPaddr;
    assert v < VA_SPAN by { BelowSpan(v, firstVaddr); }
    WindowWalk(HypTables(firstVaddr, firstPaddr, smp, t), HypTables(firstVaddr, firstPaddr, smp, t).pgdDown, v, a, smp);
  }

  lemma BelowSpan(v: nat, w: nat)
    requires v / GIB == w / GIB && w < VA_SPAN
    ensures v < VA_SPAN
  {
  }

  lemma HypIdentity(firstVaddr: u64, firstPaddr: u64, smp: bool, t: Tables, v: u64)
    requires t.Valid() && v < PGD_SPAN && PgdIndex(firstVaddr) != 0
    ensures WalkEl2(HypTables(firstVaddr, firstPaddr, smp, t), v) == Some(v)
    ensures TypeEl2(HypTables(firstVaddr, firstPaddr, smp, t), v, 0, 0)
  {
    hide Walk, TableEntry, BlockEntry, GibEntry;
    IdentityWalk(HypTables(firstVaddr, firstPaddr, smp, t), v);
  }

  /** Every other address faults. */
  lemma HypFaults(firstVaddr: u64, firstPaddr: u64, smp: bool, t: Tables, v: u64)
    requires t.Valid() && Blank(t) && firstVaddr < VA_SPAN
    requires (v >= PGD_SPAN || PgdIndex(firstVaddr) == 0) && !InBlocks(firstVaddr, v)
    ensures WalkEl2(HypTables(firstVaddr, firstPaddr, smp, t), v) == None
  {
    hide TableEntry, BlockEntry, GibEntry, NextTable;
    TableDecodes(t.pudUpAddr);
    TableDecodes(t.pmdUpAddr);
    if v < VA_SPAN {
      TopIndices(v);
      TopIndices(firstVaddr);
      BlockOfGib(v);
      BlockOfGib(firstVaddr);
    }
  }

  lemma TopIndices(v: nat)
    requires v < VA_SPAN
    ensures PgdIndex(v) == v / PGD_SPAN && v / GIB == PgdIndex(v) * 512 + PudIndex(v)
  {
    var p, o := v / PGD_SPAN, v % PGD_SPAN;
    DivMod(GIB, p * 512 + o / GIB, o % GIB);
    DivMod(512, p, o / GIB);
  }

  /** With the kernel in the low 512 GiB its table replaces the identity map. */
  lemma LowKernelLosesIdentity(firstVaddr: u64, firstPaddr: u64, smp: bool, t: Tables)
    requires t.Valid() && Blank(t) && PgdIndex(firstVaddr) == 0
    ensures WalkEl2(HypTables(firstVaddr, firstPaddr, smp, t), (PudIndex(firstVaddr) + 1) % 512 * GIB) == None
  {
    hide TableEntry, BlockEntry, GibEntry, NextTable;
    TableDecodes(t.pudUpAddr);
    var i := (PudIndex(firstVaddr) + 1) % 512;
    DivMod(GIB, i, 0);
  }

  /** For v: identity on the low 512 GiB, and the window in the kernel's GiB. */
  predicate HypMeets(firstVaddr: u64, firstPaddr: u64, smp: bool, t: Tables, v: u64)
    requires t.Valid()
  {
    var r := HypTables(firstVaddr, firstPaddr, smp, t);
    && (v < 0x80_0000_0000 ==> WalkEl2(r, v) == Some(v))
    && (InWindow(firstVaddr, v) ==> WalkEl2(r, v) == Some(v - firstVaddr + firstPaddr))
  }

  /** Both maps hold exactly when the kernel lies above the low 512 GiB and its addresses agree modulo 2 MiB. */
  lemma HypMapIff(firstVaddr: u64, firstPaddr: u64, smp: bool, t: Tables)
    requires t.Valid() && Blank(t) && firstVaddr < 0x1_0000_0000_0000
    requires firstPaddr % 0x1000 == 0 && firstPaddr + 0x4000_0000 <= 0x1_0000_0000_0000
    ensures (forall v: u64 :: HypMeets(firstVaddr, firstPaddr, smp, t, v))
        <==> firstVaddr >= 0x80_0000_0000 && firstVaddr % 0x20_0000 == firstPaddr % 0x20_0000
  {
    hide HypTables, WalkEl2;
    TopIndices(firstVaddr);
    if PgdIndex(firstVaddr) == 0 {
      LowKernelLosesIdentity(firstVaddr, firstPaddr, smp, t);
      assert !HypMeets(firstVaddr, firstPaddr, smp, t, (PudIndex(firstVaddr) + 1) % 512 * GIB);
    } else if firstVaddr % BLOCK != firstPaddr % BLOCK {
      HypWindow(firstVaddr, firstPaddr, smp, t, firstVaddr);
      assert !HypMeets(firstVaddr, firstPaddr, smp, t, firstVaddr);
    } else {
      forall v: u64
        ensures HypMeets(firstVaddr, firstPaddr, smp, t, v)
      {
        if v < PGD_SPAN {
          HypIdentity(firstVaddr, firstPaddr, smp, t, v);
        }
        if InWindow(firstVaddr, v) {
          HypWindow(firstVaddr, firstPaddr, smp, t, v);
        }
      }
    }
  }

  /**
   The map of the comment above init_boot_vspace, taken literally: one to one below
   the kernel's first address, virtual to physical from there on.
   */
  function CommentMap(firstVaddr: u64, firstPaddr: u64, v: u64): Option<nat> {
    Some(if v < firstVaddr then v else v - firstVaddr + firstPaddr)
  }

  /** The addresses at which the EL2 tables give that map. */
  predicate HypCommentHolds(firstVaddr: u64, firstPaddr: u64, v: u64) {
    || (v < PGD_SPAN && PgdIndex(firstVaddr) != 0)
    || (InBlocks(firstVaddr, v) &&
          if v >= firstVaddr then firstVaddr % BLOCK == firstPaddr % BLOCK
          else firstVaddr / BLOCK == firstPaddr / BLOCK)
  }

  lemma HypCommentIff(firstVaddr: u64, firstPaddr: u64, smp: bool, t: Tables, v: u64)
    requires t.Valid() && Blank(t) && firstVaddr < VA_SPAN
    requires firstPaddr % PAGE == 0 && firstPaddr + GIB <= VA_SPAN
    ensures WalkEl2(HypTables(firstVaddr, firstPaddr, smp, t), v) == CommentMap(firstVaddr, firstPaddr, v)
       <==> HypCommentHolds(firstVaddr, firstPaddr, v)
  {
    hide HypTables, WalkEl2, Blank;
    if v < PGD_SPAN && PgdIndex(firstVaddr) != 0 {
      HypIdentity(firstVaddr, firstPaddr, smp, t, v);
    } else if InBlocks(firstVaddr, v) {
      HypWindow(firstVaddr, firstPaddr, smp, t, v);
    } else {
      HypFaults(firstVaddr, firstPaddr, smp, t, v);
    }
  }

  /** Taken literally the comment is true of no kernel: some 48-bit address is not mapped at all. */
  lemma HypCommentNeverMet(firstVaddr: u64, firstPaddr: u64, smp: bool, t: Tables) returns (v: u64)
    requires t.Valid() && Blank(t) && firstVaddr < VA_SPAN
    ensures v < VA_SPAN && WalkEl2(HypTables(firstVaddr, firstPaddr, smp, t), v) == None
  {
    v := if firstVaddr / GIB == PGD_SPAN / GIB then PGD_SPAN + GIB else PGD_SPAN;
    HypFaults(firstVaddr, firstPaddr, smp, t, v);
  }

  // ---------- EL1 ----------

  lemma BootWindow(firstVaddr: u64, firstPaddr: u64, smp: bool, t: Tables, v: u64)
    requires t.Valid() && firstVaddr >= U64_MOD - VA_SPAN && v / GIB == firstVaddr / GIB
    requires firstPaddr % PAGE == 0 && firstPaddr + GIB <= VA_SPAN
    ensures WalkEl1(BootTables(firstVaddr, firstPaddr, smp, t), v) == Some(v % GIB + firstPaddr - firstPaddr % BLOCK)
    ensures TypeEl1(BootTables(firstVaddr, firstPaddr, smp, t), v, 4, if smp then 3 else 0)
  {
    hide Walk, TableEntry, BlockEntry, GibEntry, PgdIndex, PudIndex, PmdIndex;
    SameGib(v, firstVaddr);
    BlockOfGib(v);
    assert v >= U64_MOD - VA_SPAN by { AboveHole(v, firstVaddr); }
    var k := PmdIndex(v);
    var a := k * BLOCK + firstPaddr;
    DivMod(BLOCK, k + firstPaddr / BLOCK, firstPaddr % BLOCK);
    DivMod(PAGE, k * 512 + firstPaddr / PAGE, 0);
    WindowWalk(BootTables(firstVaddr, firstPaddr, smp, t), BootTables(firstVaddr, firstPaddr, smp, t).pgdUp, v, a, smp);
  }

  /** Every other address faults. */
  lemma BootFaults(firstVaddr: u64, firstPaddr: u64, smp: bool, t: Tables, v: u64)
    requires t.Valid() && Blank(t) && firstVaddr >= U64_MOD - VA_SPAN
    requires v >= PGD_SPAN && v / GIB != firstVaddr / GIB
    ensures WalkEl1(BootTables(firstVaddr, firstPaddr, smp, t), v) == None
  {
    hide TableEntry, BlockEntry, GibEntry, NextTable;
    TableDecodes(t.pudUpAddr);
    if v < VA_SPAN {
      TopIndices(v);
    } else if v >= U64_MOD - VA_SPAN {
      HighIndices(v, firstVaddr);
    }
  }

  /** In the upper half, too, the indices of the first two levels determine the GiB. */
  lemma HighIndices(v: u64, w: u64)
    requires v >= U64_MOD - VA_SPAN && w >= U64_MOD - VA_SPAN
    ensures PgdIndex(v) == PgdIndex(w) && PudIndex(v) == PudIndex(w) ==> v / GIB == w / GIB
  {
    HighIndex(v);
    HighIndex(w);
  }

  lemma HighIndex(v: u64)
    requires v >= U64_MOD - VA_SPAN
    ensures v / GIB == (U64_MOD - VA_SPAN) / GIB + PgdIndex(v) * 512 + PudIndex(v)
  {
    var o := v - (U64_MOD - VA_SPAN);
    TopIndices(o);
    DivMod(PGD_SPAN, 0x1ff_fe00 + o / PGD_SPAN, o % PGD_SPAN);
    DivMod(GIB, 0x3_fffc_0000 + o / GIB, o % GIB);
    DivMod(512, 0xffff, o / PGD_SPAN);
    DivMod(512, 0x1ff_fe00 + o / GIB / 512, o / GIB % 512);
  }

  lemma AboveHole(v: nat, w: nat)
    requires v / GIB == w / GIB && w >= U64_MOD - VA_SPAN
    ensures v >= U64_MOD - VA_SPAN
  {
  }

  lemma BootIdentity(firstVaddr: u64, firstPaddr: u64, smp: bool, t: Tables, v: u64)
    requires t.Valid() && v < PGD_SPAN
    ensures WalkEl1(BootTables(firstVaddr, firstPaddr, smp, t), v) == Some(v)
    ensures TypeEl1(BootTables(firstVaddr, firstPaddr, smp, t), v, 0, 0)
  {
    hide Walk, TableEntry, BlockEntry, GibEntry;
    IdentityWalk(BootTables(firstVaddr, firstPaddr, smp, t), v);
  }

  /** For v: identity on the low 512 GiB, and the window in the kernel's GiB. */
  predicate BootMeets(firstVaddr: u64, firstPaddr: u64, smp: bool, t: Tables, v: u64)
    requires t.Valid()
  {
    var r := BootTables(firstVaddr, firstPaddr, smp, t);
    && (v < 0x80_0000_0000 ==> WalkEl1(r, v) == Some(v))
    && (InWindow(firstVaddr, v) ==> WalkEl1(r, v) == Some(v - firstVaddr + firstPaddr))
  }

  /** The EL1 window always starts at a GiB, so for both maps the kernel must start within the first 2 MiB of one. */
  lemma BootMapIff(firstVaddr: u64, firstPaddr: u64, smp: bool, t: Tables)
    requires t.Valid() && firstVaddr >= 0xffff_0000_0000_0000
    requires firstPaddr % 0x1000 == 0 && firstPaddr + 0x4000_0000 <= 0x1_0000_0000_0000
    ensures (forall v: u64 :: BootMeets(firstVaddr, firstPaddr, smp, t, v))
        <==> firstVaddr % 0x4000_0000 == firstPaddr % 0x20_0000
  {
    hide BootTables, WalkEl1;
    if firstVaddr % GIB != firstPaddr % BLOCK {
      BootWindow(firstVaddr, firstPaddr, smp, t, firstVaddr);
      assert !BootMeets(firstVaddr, firstPaddr, smp, t, firstVaddr);
    } else {
      forall v: u64
        ensures BootMeets(firstVaddr, firstPaddr, smp, t, v)
      {
        if v < PGD_SPAN {
          BootIdentity(firstVaddr, firstPaddr, smp, t, v);
        }
        if InWindow(firstVaddr, v) {
          BootWindow(firstVaddr, firstPaddr, smp, t, v);
        }
      }
    }
  }

  /** The EL1 tables give the map of the comment on the low 512 GiB, in a suitable window, and nowhere else. */
  lemma BootCommentIff(firstVaddr: u64, firstPaddr: u64, smp: bool, t: Tables, v: u64)
    requires t.Valid() && Blank(t) && firstVaddr >= U64_MOD - VA_SPAN
    requires firstPaddr % PAGE == 0 && firstPaddr + GIB <= VA_SPAN
    ensures WalkEl1(BootTables(firstVaddr, firstPaddr, smp, t), v) == CommentMap(firstVaddr, firstPaddr, v)
       <==> v < PGD_SPAN || (InWindow(firstVaddr, v) && firstVaddr % GIB == firstPaddr % BLOCK)
  {
    hide BootTables, WalkEl1, Blank;
    if v < PGD_SPAN {
      BootIdentity(firstVaddr, firstPaddr, smp, t, v);
    } else if v / GIB == firstVaddr / GIB {
      AboveHole(v, firstVaddr);
      BootWindow(firstVaddr, firstPaddr, smp, t, v);
    } else {
      BootFaults(firstVaddr, firstPaddr, smp, t, v);
    }
  }

  /** Here, too, some address that the architecture translates is not mapped, below every kernel. */
  lemma BootCommentNeverMet(firstVaddr: u64, firstPaddr: u64, smp: bool, t: Tables)
    requires t.Valid() && Blank(t) && firstVaddr >= U64_MOD - VA_SPAN
    ensures PGD_SPAN < firstVaddr && WalkEl1(BootTables(firstVaddr, firstPaddr, smp, t), PGD_SPAN) == None
  {
    BootFaults(firstVaddr, firstPaddr, smp, t, PGD_SPAN);
  }
}
