/**
 The AArch64 stage-1 translation table walk, as the processor performs it
 (VMSAv8-64 descriptor formats, section D8.3 of Arm DDI 0487).
 Nothing here refers to the software that builds the tables.
 */
module Vmsa {
  import opened Bits

  datatype Granule = Granule4K | Granule64K

  function Entries(g: Granule): nat { if g.Granule4K? then 512 else 8192 }

  function PageBits(g: Granule): nat { if g.Granule4K? then 12 else 16 }

  function IndexBits(g: Granule): nat { if g.Granule4K? then 9 else 13 }

  /** Bytes in one table, which is also the size of a page. */
  function TableBytes(g: Granule): nat { 8 * Entries(g) }

  /** The lowest virtual address bit that a lookup at this level resolves. */
  function Shift(g: Granule, level: nat): nat
    requires level <= 3
  {
    PageBits(g) + IndexBits(g) * (3 - level)
  }

  function BlockSize(g: Granule, level: nat): (size: nat)
    requires level <= 3
    ensures size > 0
  {
    if g.Granule4K? then
      if level == 0 then 0x80_0000_0000 else if level == 1 then 0x4000_0000
      else if level == 2 then 0x20_0000 else 0x1000
    else
      if level == 0 then 0x80_0000_0000_0000 else if level == 1 then 0x400_0000_0000
      else if level == 2 then 0x2000_0000 else 0x1_0000
  }

  /** Which entry, and of which table, a running entry number stands for. */
  function Quot(g: Granule, x: nat): nat { if g.Granule4K? then x / 512 else x / 8192 }

  function Rem(g: Granule, x: nat): (r: nat)
    ensures r < Entries(g)
  {
    if g.Granule4K? then x % 512 else x % 8192
  }

  function Join(g: Granule, q: nat, r: nat): nat { if g.Granule4K? then q * 512 + r else q * 8192 + r }

  lemma JoinSplit(g: Granule, q: nat, r: nat)
    requires r < Entries(g)
    ensures Quot(g, Join(g, q, r)) == q && Rem(g, Join(g, q, r)) == r
  {
  }

  lemma SplitJoin(g: Granule, x: nat)
    ensures Join(g, Quot(g, x), Rem(g, x)) == x
  {
  }

  /** Byte offset of the t-th table in an array of tables. */
  function TableOffset(g: Granule, t: nat): nat { if g.Granule4K? then t * 0x1000 else t * 0x1_0000 }

  /** The number of the level-sized block that holds `va`: the address bits from `Shift(g, level)` up. */
  function Blk(g: Granule, va: nat, level: nat): nat
    requires level <= 3
    decreases 3 - level
  {
    if level < 3 then Quot(g, Blk(g, va, level + 1))
    else if g.Granule4K? then va / 0x1000
    else va / 0x1_0000
  }

  /** The address at which the n-th block of this level starts. */
  function Scale(g: Granule, n: nat, level: nat): nat
    requires level <= 3
    decreases 3 - level
  {
    if level < 3 then Scale(g, Join(g, n, 0), level + 1)
    else TableOffset(g, n)
  }

  /** How far `va` is into its block. */
  function Offset(g: Granule, va: nat, level: nat): int
    requires level <= 3
  {
    va - Scale(g, Blk(g, va, level), level)
  }

  function Index(g: Granule, va: nat, level: nat): (i: nat)
    requires level <= 3
    ensures i < Entries(g)
  {
    Rem(g, Blk(g, va, level))
  }

  // ---- Physical memory and the walk ----

  datatype Memory = Memory(base: nat, words: seq<U64>)

  predicate Holds(mem: Memory, pa: nat)
  {
    mem.base <= pa && (pa - mem.base) % 8 == 0 && (pa - mem.base) / 8 < |mem.words|
  }

  function Load(mem: Memory, pa: nat): U64
    requires Holds(mem, pa)
  {
    mem.words[(pa - mem.base) / 8]
  }

  /** `BusError` stands for a walk that leaves the memory we know about. */
  datatype Translation = Fault | BusError | Mapped(pa: int, attrs: int)

  /** Bits [47:0] of a descriptor, which hold its address field above the low-order bits. */
  const OUTPUT_LIMIT: nat := 0x1_0000_0000_0000

  predicate BlockAllowed(g: Granule, level: nat) {
    level == 2 || (g.Granule4K? && level == 1)
  }

  function NextTable(g: Granule, w: nat): nat
  {
    TableOffset(g, if g.Granule4K? then w % OUTPUT_LIMIT / 0x1000 else w % OUTPUT_LIMIT / 0x1_0000)
  }

  /**
   The output address and the attributes of a block or page descriptor. The address is bits [47:n], where 2^n is
   the size of the block; the attributes are bits [63:48] and [11:2], in place. The other bits are ignored.
   This is the translation before the Access flag and the permissions are checked.
   */
  function Output(g: Granule, w: nat, level: nat, va: nat): Translation
    requires level <= 3
  {
    Mapped(Scale(g, Blk(g, w % OUTPUT_LIMIT, level), level) + Offset(g, va, level),
           w / OUTPUT_LIMIT * OUTPUT_LIMIT + w % 0x1000 / 4 * 4)
  }

  /** An output address at or above `limit` is an address size fault. */
  function Capped(limit: nat, t: Translation): Translation
  {
    if t.Mapped? && t.pa >= limit then Fault else t
  }

  /**
   Bit 0 of a descriptor marks it valid and bit 1 tells a table or page from a block. A table at or above
   `limit` is an address size fault.
   */
  function Walk(g: Granule, mem: Memory, limit: nat, table: nat, level: nat, va: nat): Translation
    requires level <= 3
    decreases 3 - level
  {
    var pa := table + 8 * Index(g, va, level);
    if table >= limit then Fault
    else if !Holds(mem, pa) then BusError
    else
      var w := Load(mem, pa);
      if w % 4 == 1 then
        if BlockAllowed(g, level) then Capped(limit, Output(g, w, level, va)) else Fault
      else if w % 4 == 3 then
        if level == 3 then Capped(limit, Output(g, w, level, va))
        else Walk(g, mem, limit, NextTable(g, w), level + 1, va)
      else Fault
  }

  /** The level of the first lookup for a `vaBits`-bit address space. */
  function InitialLevel(g: Granule, vaBits: nat): (level: nat)
    requires 25 <= vaBits <= 48
    ensures level <= 3
  {
    4 - (vaBits - PageBits(g) + IndexBits(g) - 1) / IndexBits(g)
  }

  /** The physical address space that the IPS field of TCR_EL1 selects; these descriptors hold 48 bits at most. */
  function PaBits(ips: nat): nat
  {
    if ips == 0 then 32 else if ips == 1 then 36 else if ips == 2 then 40
    else if ips == 3 then 42 else if ips == 4 then 44 else 48
  }

  /** TTBR0_EL1 translates the addresses with bit 55 clear, and TTBR1_EL1 the others. */
  predicate LowHalf(va: nat)
  {
    va < U64_SIZE && va / 0x80_0000_0000_0000 % 2 == 0
  }

  /** Translation of `va` under TTBR0_EL1 == `ttbr` and TCR_EL1 == `tcr`. */
  function Translate(mem: Memory, ttbr: nat, tcr: nat, va: nat): Translation
    requires LowHalf(va)
  {
    var t0sz, tg0, ips := tcr % 0x40, tcr / 0x4000 % 4, tcr / 0x1_0000_0000 % 8;
    if !(16 <= t0sz <= 39) || tg0 > 1 then Fault
    else
      var g := if tg0 == 0 then Granule4K else Granule64K;
      if va >= Pow2(64 - t0sz) then Fault
      else Walk(g, mem, Pow2(PaBits(ips)), ttbr, InitialLevel(g, 64 - t0sz), va)
  }

  // ---- Geometry ----

  lemma BlockSizeIsShift(g: Granule, level: nat)
    requires level <= 3
    ensures BlockSize(g, level) == Pow2(Shift(g, level))
  {
    Pow2Values();
  }

  lemma {:induction false} BlkIsQuotient(g: Granule, va: nat, level: nat)
    requires level <= 3
    ensures Blk(g, va, level) == va / BlockSize(g, level)
    decreases 3 - level
  {
    if level < 3 {
      BlkIsQuotient(g, va, level + 1);
      Nested4K(va);
      Nested64K(va);
    }
  }

  lemma Nested4K(x: nat)
    ensures x / 0x1000 / 512 == x / 0x20_0000
    ensures x / 0x20_0000 / 512 == x / 0x4000_0000
    ensures x / 0x4000_0000 / 512 == x / 0x80_0000_0000
  {
  }

  lemma Nested64K(x: nat)
    ensures x / 0x1_0000 / 8192 == x / 0x2000_0000
    ensures x / 0x2000_0000 / 8192 == x / 0x400_0000_0000
    ensures x / 0x400_0000_0000 / 8192 == x / 0x80_0000_0000_0000
  {
  }

  lemma {:induction false} ScaleIsProduct(g: Granule, n: nat, level: nat)
    requires level <= 3
    ensures Scale(g, n, level) == n * BlockSize(g, level)
    decreases 3 - level
  {
    if level < 3 {
      ScaleIsProduct(g, Join(g, n, 0), level + 1);
    }
  }

  lemma OffsetIsRemainder(g: Granule, va: nat, level: nat)
    requires level <= 3
    ensures Offset(g, va, level) == va % BlockSize(g, level)
  {
    BlkIsQuotient(g, va, level);
    ScaleIsProduct(g, va / BlockSize(g, level), level);
  }

  lemma BlkNext(g: Granule, va: nat, level: nat)
    requires level <= 3
    ensures Blk(g, va + BlockSize(g, level), level) == Blk(g, va, level) + 1
  {
    hide Blk, BlockSize;
    BlkIsQuotient(g, va, level);
    BlkIsQuotient(g, va + BlockSize(g, level), level);
    var b := BlockSize(g, level);
    RemainderIs(va + b, b, va / b + 1, va % b);
  }

  lemma Distribute(x: nat, y: nat, b: nat)
    ensures (x + y) * b == x * b + y * b
  {
  }

  lemma {:induction false} BlkAncestors(g: Granule, va: nat, va': nat, level: nat, level': nat)
    requires level <= level' <= 3
    requires Blk(g, va, level') == Blk(g, va', level')
    ensures Blk(g, va, level) == Blk(g, va', level)
  {
    if level < level' {
      BlkAncestors(g, va, va', level, level' - 1);
    }
  }
}
