/** The ELF library: memory bounds, address translation and loading in place (src/binaries/elf/elf.c). */
module Elf {
  import opened Bytes

  const PT_LOAD: nat := 1

  /** A program header, with the fields of both ELF classes widened to 64 bits. */
  datatype Phdr = Phdr(kind: nat, offset: u64, vaddr: u64, paddr: u64, filesz: u64, memsz: u64)

  /** An ELF file lying in memory at address base: its header of ehsize bytes, and phoff bytes further on its table. */
  datatype ElfFile = ElfFile(
    valid: bool, base: nat, ehsize: nat, entry: u64, phoff: u64, phentsize: nat, phdrs: seq<Phdr>)

  /** The length of the program header table. */
  function TableLen(elf: ElfFile): nat {
    elf.phentsize * |elf.phdrs|
  }

  function Addr(h: Phdr, phys: bool): u64 {
    if phys then h.paddr else h.vaddr
  }

  /** The end address as uint64_t arithmetic computes it. */
  function End(h: Phdr, phys: bool): u64 {
    (Addr(h, phys) + h.memsz) % U64_MOD
  }

  // ---------- elf_getMemoryBounds ----------

  function Bounds(hs: seq<Phdr>, phys: bool): (r: (u64, u64)) {
    if hs == [] then (U64_MOD - 1, 0)
    else
      var (lo, hi) := Bounds(hs[..|hs| - 1], phys);
      var h := hs[|hs| - 1];
      if h.memsz == 0 then (lo, hi)
      else (if Addr(h, phys) < lo then Addr(h, phys) else lo, if End(h, phys) > hi then End(h, phys) else hi)
  }

  method GetMemoryBounds(elf: ElfFile, phys: bool) returns (r: Option<(u64, u64)>)
    ensures r == if elf.valid then Some(Bounds(elf.phdrs, phys)) else None
  {
    var memMin: u64, memMax: u64 := U64_MOD - 1, 0;
    if !elf.valid {
      return None;
    }
    for i := 0 to |elf.phdrs|
      invariant (memMin, memMax) == Bounds(elf.phdrs[..i], phys)
    {
      assert elf.phdrs[..i + 1][..i] == elf.phdrs[..i];
      if elf.phdrs[i].memsz == 0 {
        continue;
      }
      var sectMin := if phys then elf.phdrs[i].paddr else elf.phdrs[i].vaddr;
      var sectMax := (sectMin + elf.phdrs[i].memsz) % U64_MOD;
      if sectMax > memMax {
        memMax := sectMax;
      }
      if sectMin < memMin {
        memMin := sectMin;
      }
    }
    assert elf.phdrs[..|elf.phdrs|] == elf.phdrs;
    return Some((memMin, memMax));
  }

  /** No non-empty header reaches the top of the 64-bit address space. */
  predicate NoWrap(hs: seq<Phdr>, phys: bool) {
    forall i :: 0 <= i < |hs| && hs[i].memsz != 0 ==> Addr(hs[i], phys) + hs[i].memsz < U64_MOD
  }

  ghost predicate Encloses(b: (u64, u64), hs: seq<Phdr>, phys: bool) {
    forall i :: 0 <= i < |hs| && hs[i].memsz != 0 ==>
      b.0 <= Addr(hs[i], phys) && Addr(hs[i], phys) + hs[i].memsz <= b.1
  }

  /** Some non-empty header starts at x, or ends there. */
  ghost predicate Starts(x: nat, hs: seq<Phdr>, phys: bool) {
    exists i :: 0 <= i < |hs| && hs[i].memsz != 0 && Addr(hs[i], phys) == x
  }

  ghost predicate Ends(x: nat, hs: seq<Phdr>, phys: bool) {
    exists i :: 0 <= i < |hs| && hs[i].memsz != 0 && Addr(hs[i], phys) + hs[i].memsz == x
  }

  ghost predicate Tight(b: (u64, u64), hs: seq<Phdr>, phys: bool) {
    Starts(b.0, hs, phys) && Ends(b.1, hs, phys)
  }

  predicate AllEmpty(hs: seq<Phdr>) {
    forall i :: 0 <= i < |hs| ==> hs[i].memsz == 0
  }

  lemma {:induction false} BoundsBelow(hs: seq<Phdr>, phys: bool, i: nat)
    requires i < |hs| && hs[i].memsz != 0
    ensures Bounds(hs, phys).0 <= Addr(hs[i], phys) && End(hs[i], phys) <= Bounds(hs, phys).1
  {
    var front := hs[..|hs| - 1];
    if i == |front| {
    } else {
      assert front[i] == hs[i];
      BoundsBelow(front, phys, i);
    }
  }

  /** The bounds enclose every non-empty header exactly when none of them wraps. */
  lemma BoundsEncloseIffNoWrap(hs: seq<Phdr>, phys: bool)
    ensures Encloses(Bounds(hs, phys), hs, phys) <==> NoWrap(hs, phys)
  {
    if NoWrap(hs, phys) {
      forall i | 0 <= i < |hs| && hs[i].memsz != 0
        ensures Bounds(hs, phys).0 <= Addr(hs[i], phys) && Addr(hs[i], phys) + hs[i].memsz <= Bounds(hs, phys).1
      {
        BoundsBelow(hs, phys, i);
      }
    }
  }

  /** What one more header adds. */
  lemma OneMore(front: seq<Phdr>, h: Phdr, phys: bool, b: (u64, u64))
    ensures NoWrap(front + [h], phys) ==> NoWrap(front, phys)
    ensures NoWrap(front + [h], phys) && h.memsz != 0 ==> End(h, phys) == Addr(h, phys) + h.memsz
    ensures AllEmpty(front + [h]) <==> AllEmpty(front) && h.memsz == 0
    ensures Starts(b.0, front, phys) ==> Starts(b.0, front + [h], phys)
    ensures Ends(b.1, front, phys) ==> Ends(b.1, front + [h], phys)
    ensures h.memsz != 0 ==> Starts(Addr(h, phys), front + [h], phys)
    ensures h.memsz != 0 ==> Ends(Addr(h, phys) + h.memsz, front + [h], phys)
  {
    var hs := front + [h];
    assert hs[|front|] == h;
    assert forall i :: 0 <= i < |front| ==> hs[i] == front[i];
  }

  lemma BoundsNext(front: seq<Phdr>, h: Phdr, phys: bool)
    ensures var (lo, hi) := Bounds(front, phys);
      Bounds(front + [h], phys) ==
        if h.memsz == 0 then (lo, hi)
        else (if Addr(h, phys) < lo then Addr(h, phys) else lo, if End(h, phys) > hi then End(h, phys) else hi)
  {
    assert (front + [h])[..|front|] == front;
  }

  /** Both ends are attained, and the empty result means that there is nothing to load. */
  lemma {:induction false} BoundsTight(hs: seq<Phdr>, phys: bool)
    requires NoWrap(hs, phys)
    ensures AllEmpty(hs) <==> Bounds(hs, phys) == (U64_MOD - 1, 0)
    ensures !AllEmpty(hs) ==> Tight(Bounds(hs, phys), hs, phys) && Bounds(hs, phys).0 < Bounds(hs, phys).1
  {
    if hs == [] {
    } else {
      hide Addr, AllEmpty, Bounds, End, Ends, NoWrap, Starts;
      var front, h := hs[..|hs| - 1], hs[|hs| - 1];
      assert hs == front + [h];
      OneMore(front, h, phys, Bounds(front, phys));
      BoundsTight(front, phys);
      BoundsNext(front, h, phys);
    }
  }

  /** x is the least p_paddr of the headers that are not empty. */
  ghost predicate LeastPaddr(hs: seq<Phdr>, x: nat) {
    && (exists h :: h in hs && h.memsz != 0 && h.paddr == x)
    && (forall h :: h in hs && h.memsz != 0 ==> x <= h.paddr)
  }

  /** x is their least p_vaddr. */
  ghost predicate LeastVaddr(hs: seq<Phdr>, x: nat) {
    && (exists h :: h in hs && h.memsz != 0 && h.vaddr == x)
    && (forall h :: h in hs && h.memsz != 0 ==> x <= h.vaddr)
  }

  /** y is the greatest virtual address at which one of them ends. */
  ghost predicate GreatestEnd(hs: seq<Phdr>, y: nat) {
    && (exists h :: h in hs && h.memsz != 0 && h.vaddr + h.memsz == y)
    && (forall h :: h in hs && h.memsz != 0 ==> h.vaddr + h.memsz <= y)
  }

  /** The lower bound is attained even if headers wrap. */
  lemma {:induction false} LowAttained(hs: seq<Phdr>, phys: bool)
    requires !AllEmpty(hs)
    ensures Starts(Bounds(hs, phys).0, hs, phys)
  {
    var front, h := hs[..|hs| - 1], hs[|hs| - 1];
    assert hs == front + [h];
    if AllEmpty(front) {
      BoundsTight(front, phys);
      assert Addr(hs[|front|], phys) == Bounds(hs, phys).0;
    } else {
      LowAttained(front, phys);
      OneMore(front, h, phys, Bounds(front, phys));
      OneMore(front, h, phys, Bounds(hs, phys));
    }
  }

  /** elf_getMemoryBounds finds the lowest address, for every file with something to load. */
  lemma LowIsLeast(hs: seq<Phdr>)
    requires !AllEmpty(hs)
    ensures LeastVaddr(hs, Bounds(hs, false).0) && LeastPaddr(hs, Bounds(hs, true).0)
  {
    hide AllEmpty, Bounds;
    LowAttained(hs, false);
    LowAttained(hs, true);
    forall h | h in hs && h.memsz != 0
      ensures Bounds(hs, false).0 <= h.vaddr && Bounds(hs, true).0 <= h.paddr
    {
      var i :| 0 <= i < |hs| && hs[i] == h;
      BoundsBelow(hs, false, i);
      BoundsBelow(hs, true, i);
    }
  }

  /** And it finds the highest virtual address if no header wraps. */
  lemma HighIsGreatest(hs: seq<Phdr>)
    requires !AllEmpty(hs) && NoWrap(hs, false)
    ensures GreatestEnd(hs, Bounds(hs, false).1)
  {
    hide AllEmpty, Bounds;
    BoundsTight(hs, false);
    BoundsEncloseIffNoWrap(hs, false);
    forall h | h in hs && h.memsz != 0
      ensures h.vaddr + h.memsz <= Bounds(hs, false).1
    {
      var i :| 0 <= i < |hs| && hs[i] == h;
    }
  }

  // ---------- Translation of virtual addresses ----------

  /** elf_vaddrInProgramHeader, with the end address as uint64_t arithmetic computes it. */
  predicate VaddrInHeader(h: Phdr, v: u64) {
    h.vaddr <= v < End(h, false)
  }

  /** elf_vtopProgramHeader. */
  function Vtop(h: Phdr, v: u64): u64 {
    (v - h.vaddr + h.paddr) % U64_MOD
  }
}
