/**
 The stage-1 page table builder of demos/kp920/bsp/mmu.c (and demos/hi3093/bsp/mmu.c):
 a bump allocator over an arena of 64-bit words, a software walk, and the loops that
 install blocks and pages region by region.
 */
module Mmu {
  import opened Bits
  import opened Options
  import opened Vmsa
  import opened PageTree
  import opened Paging

  const PTE_TYPE_FAULT: nat := 0
  const PTE_TYPE_TABLE: nat := 3
  const PTE_TYPE_MASK: nat := 3
  const INDEX_MASK_4K: nat := 0x1FF
  const INDEX_MASK_64K: nat := 0x1FFF
  const TABLE_ADDR_MASK_4K: nat := 0x0000_FFFF_FFFF_F000
  const TABLE_ADDR_MASK_64K: nat := 0x0000_FFFF_FFFF_0000
  const MMU_LEVEL_MAX: nat := 4
  const TCR_EL1_RSVD: nat := 0x8000_0000
  const TCR_SHARED_INNER: nat := 0x3000
  const TCR_ORGN_WBWA: nat := 0x400
  const TCR_IRGN_WBWA: nat := 0x100

  // ---- Addresses of entries ----

  function Slot(g: Granule, t: nat, i: nat): nat
  {
    Join(g, t, i)
  }

  function PteAddr(c: Config, t: nat, i: nat): nat
  {
    c.base + TableOffset(c.g, t) + 8 * i
  }

  lemma PteIndex(c: Config, t: nat, i: nat)
    ensures (PteAddr(c, t, i) - c.base) / 8 == Slot(c.g, t, i)
    ensures (PteAddr(c, t, i) - c.base) % 8 == 0
  {
  }

  lemma SlotInjective(g: Granule, t: nat, i: nat, u: nat, j: nat)
    requires i < Entries(g) && j < Entries(g) && Slot(g, t, i) == Slot(g, u, j)
    ensures t == u && i == j
  {
    JoinSplit(g, t, i);
    JoinSplit(g, u, j);
  }

  // ---- The masks of the software walk ----

  lemma PteType(w: nat)
    ensures And(w, PTE_TYPE_MASK) == w % 4
  {
    assert Pow2(2) == 4 by { Pow2Values(); }
    AndLowMask(w, 2);
  }

  function IndexMask(g: Granule): nat
  {
    if g.Granule4K? then INDEX_MASK_4K else INDEX_MASK_64K
  }

  lemma SoftwareIndex(g: Granule, addr: nat, level: nat)
    requires level <= 3
    ensures And(Shr(addr, Shift(g, level)), IndexMask(g)) == Index(g, addr, level)
  {
    BlockSizeIsShift(g, level);
    BlkIsQuotient(g, addr, level);
    ShrIsDiv(addr, Shift(g, level), BlockSize(g, level));
    assert Pow2(IndexBits(g)) == Entries(g) by { Pow2Values(); }
    AndLowMask(Blk(g, addr, level), IndexBits(g));
  }

  function TableAddrMask(g: Granule): nat
  {
    if g.Granule4K? then TABLE_ADDR_MASK_4K else TABLE_ADDR_MASK_64K
  }

  /** Both walks recover the address of a table from the descriptor that points to it. */
  lemma TableWordAddress(c: Config, t: nat)
    requires c.base % TableBytes(c.g) == 0 && c.base + TableOffset(c.g, t) < ADDR_LIMIT
    ensures And(TableWord(c, t), TableAddrMask(c.g)) == c.base + TableOffset(c.g, t)
    ensures NextTable(c.g, TableWord(c, t)) == c.base + TableOffset(c.g, t)
  {
    var p := if c.g.Granule4K? then c.base / 0x1000 + t else c.base / 0x1_0000 + t;
    assert TableWord(c, t) == TableOffset(c.g, p) + 3;
    MaskTable(c.g, p);
    NextTableAddress(c.g, p);
  }

  lemma NextTableAddress(g: Granule, p: nat)
    requires TableOffset(g, p) < ADDR_LIMIT
    ensures NextTable(g, TableOffset(g, p) + 3) == TableOffset(g, p)
  {
  }

  lemma MaskTable(g: Granule, p: nat)
    requires TableOffset(g, p) < ADDR_LIMIT
    ensures And(TableOffset(g, p) + 3, TableAddrMask(g)) == TableOffset(g, p)
  {
    assert Pow2(12) == 0x1000 && Pow2(16) == 0x1_0000 by { Pow2Values(); }
    assert Pow2(36) == 0x10_0000_0000 && Pow2(32) == 0x1_0000_0000 by { Pow2Values(); }
    if g.Granule4K? {
      AndFieldMask(p, 3, 12, 0x1000, 36, 0xF_FFFF_FFFF);
    } else {
      AndFieldMask(p, 3, 16, 0x1_0000, 32, 0xFFFF_FFFF);
    }
  }

  // ---- The processor's walk of stored tables ----

  ghost predicate Stores(c: Config, words: seq<U64>, tabs: Tables)
  {
    forall t, i :: 0 <= t < |tabs| && 0 <= i < |tabs[t]| ==>
      Slot(c.g, t, i) < |words| && words[Slot(c.g, t, i)] == tabs[t][i]
  }

  ghost predicate Placed(c: Config, words: seq<U64>)
  {
    c.base % TableBytes(c.g) == 0 && c.base + 8 * |words| <= ADDR_LIMIT
  }

  ghost predicate Walkable(c: Config, words: seq<U64>, tabs: Tables, own: seq<Owner>)
  {
    WellFormed(c, tabs, own) && Stores(c, words, tabs) && Placed(c, words)
  }

  lemma TableInside(c: Config, words: seq<U64>, tabs: Tables, own: seq<Owner>, t: nat, i: nat)
    requires Walkable(c, words, tabs, own) && t < |tabs| && i < Entries(c.g)
    ensures c.base + TableOffset(c.g, t) < ADDR_LIMIT
    ensures Holds(Memory(c.base, words), PteAddr(c, t, i))
    ensures Load(Memory(c.base, words), PteAddr(c, t, i)) == tabs[t][i]
  {
    PteIndex(c, t, i);
    assert tabs[t][i] == words[Slot(c.g, t, i)];
  }

  /** The tables that the walk for `va` visits from table `t` on lie below `limit`. */
  ghost predicate PathBelow(c: Config, tabs: Tables, own: seq<Owner>, limit: nat, t: nat, level: nat, va: nat)
    requires WellFormed(c, tabs, own) && c.start <= level <= 3 && Resolves(c, own, t, level, va)
    decreases 3 - level
  {
    var w := tabs[t][Index(c.g, va, level)];
    assert EntryOk(c, tabs, own, t, Index(c.g, va, level));
    SplitJoin(c.g, Blk(c.g, va, level));
    && c.base + TableOffset(c.g, t) < limit
    && (level < 3 && w % 4 == 3 ==> PathBelow(c, tabs, own, limit, Child(c, w), level + 1, va))
  }

  function Limited(below: bool, limit: nat, t: Translation): Translation
  {
    if below then Capped(limit, t) else Fault
  }

  lemma {:induction false} WalkIsLookup(c: Config, words: seq<U64>, tabs: Tables, own: seq<Owner>, limit: nat,
                                        t: nat, level: nat, va: nat)
    requires Walkable(c, words, tabs, own)
    requires c.start <= level <= 3 && Resolves(c, own, t, level, va)
    ensures var leaf := LeafFrom(c, tabs, own, t, level, va);
            && (leaf.Some? ==> leaf.value.level <= 3)
            && Walk(c.g, Memory(c.base, words), limit, c.base + TableOffset(c.g, t), level, va)
               == Limited(PathBelow(c, tabs, own, limit, t, level, va), limit, Decode(c.g, leaf, va))
    decreases 3 - level
  {
    if tabs[t][Index(c.g, va, level)] % 4 == 3 && level < 3 {
      hide Walk, LeafFrom, Decode, Output, NextTable, TableWord, Holds, Load;
      var k := ChildResolves(c, tabs, own, t, level, va);
      TableInside(c, words, tabs, own, t, Index(c.g, va, level));
      assert NextTable(c.g, TableWord(c, k)) == c.base + TableOffset(c.g, k) by {
        TableInside(c, words, tabs, own, k, 0);
        TableWordAddress(c, k);
      }
      WalkDescends(c, Memory(c.base, words), limit, t, level, va, k);
      WalkIsLookup(c, words, tabs, own, limit, k, level + 1, va);
    } else {
      TableInside(c, words, tabs, own, t, Index(c.g, va, level));
      WalkStops(c, Memory(c.base, words), tabs, own, limit, t, level, va);
    }
  }

  lemma WalkDescends(c: Config, mem: Memory, limit: nat, t: nat, level: nat, va: nat, k: nat)
    requires level < 3 && TableWord(c, k) < U64_SIZE && TableWord(c, k) % 4 == 3
    requires Holds(mem, PteAddr(c, t, Index(c.g, va, level)))
    requires Load(mem, PteAddr(c, t, Index(c.g, va, level))) == TableWord(c, k)
    requires NextTable(c.g, TableWord(c, k)) == c.base + TableOffset(c.g, k)
    ensures Walk(c.g, mem, limit, c.base + TableOffset(c.g, t), level, va)
            == if c.base + TableOffset(c.g, t) >= limit then Fault
               else Walk(c.g, mem, limit, c.base + TableOffset(c.g, k), level + 1, va)
  {
    hide Walk, NextTable;
    var pa := PteAddr(c, t, Index(c.g, va, level));
    WalkEntry(c.g, mem, limit, c.base + TableOffset(c.g, t), level, va, pa, TableWord(c, k));
  }

  lemma ChildResolves(c: Config, tabs: Tables, own: seq<Owner>, t: nat, level: nat, va: nat) returns (k: nat)
    requires WellFormed(c, tabs, own)
    requires c.start <= level < 3 && Resolves(c, own, t, level, va)
    requires tabs[t][Index(c.g, va, level)] % 4 == 3
    ensures 0 < k < |own| && Child(c, tabs[t][Index(c.g, va, level)]) == k
    ensures tabs[t][Index(c.g, va, level)] == TableWord(c, k) && Resolves(c, own, k, level + 1, va)
    ensures LeafFrom(c, tabs, own, t, level, va) == LeafFrom(c, tabs, own, k, level + 1, va)
  {
    assert EntryOk(c, tabs, own, t, Index(c.g, va, level));
    SplitJoin(c.g, Blk(c.g, va, level));
    k := Child(c, tabs[t][Index(c.g, va, level)]);
  }

  lemma WalkStops(c: Config, mem: Memory, tabs: Tables, own: seq<Owner>, limit: nat, t: nat, level: nat, va: nat)
    requires WellFormed(c, tabs, own)
    requires c.start <= level <= 3 && Resolves(c, own, t, level, va)
    requires tabs[t][Index(c.g, va, level)] % 4 != 3 || level == 3
    requires Holds(mem, PteAddr(c, t, Index(c.g, va, level)))
    requires Load(mem, PteAddr(c, t, Index(c.g, va, level))) == tabs[t][Index(c.g, va, level)]
    ensures var leaf := LeafFrom(c, tabs, own, t, level, va);
            && (leaf.Some? ==> leaf.value.level <= 3)
            && Walk(c.g, mem, limit, c.base + TableOffset(c.g, t), level, va)
               == Limited(c.base + TableOffset(c.g, t) < limit, limit, Decode(c.g, leaf, va))
  {
    hide Walk, Output, Holds, Load, Blk;
    var i := Index(c.g, va, level);
    assert EntryOk(c, tabs, own, t, i);
    WalkEntry(c.g, mem, limit, c.base + TableOffset(c.g, t), level, va, PteAddr(c, t, i), tabs[t][i]);
  }

  lemma WalkEntry(g: Granule, mem: Memory, limit: nat, table: nat, level: nat, va: nat, pa: nat, w: U64)
    requires level <= 3 && pa == table + 8 * Index(g, va, level)
    requires Holds(mem, pa) && Load(mem, pa) == w
    ensures var r := Walk(g, mem, limit, table, level, va);
            && (table >= limit || w % 4 == 0 ==> r == Fault)
            && (table < limit && w % 4 == 1 && BlockAllowed(g, level) ==> r == Capped(limit, Output(g, w, level, va)))
            && (table < limit && w % 4 == 3 && level == 3 ==> r == Capped(limit, Output(g, w, level, va)))
            && (table < limit && w % 4 == 3 && level < 3 ==> r == Walk(g, mem, limit, NextTable(g, w), level + 1, va))
  {
    hide Output, NextTable, Index, Holds, Load;
  }

  // ---- Tables that realise a list of installed blocks ----

  ghost predicate Represents(c: Config, tabs: Tables, own: seq<Owner>, ops: seq<Op>)
  {
    && WellFormed(c, tabs, own)
    && OpsInside(c, ops)
    && forall va :: InRange(c, va) ==> Lookup(c, tabs, own, va) == LeafOf(Painted(c.g, ops, va))
  }

  lemma GrowRepresents(c: Config, tabs: Tables, own: seq<Owner>, t: nat, i: nat, ops: seq<Op>)
    requires CanGrow(c, tabs, own, t, i) && Represents(c, tabs, own, ops)
    ensures Represents(c, Grow(c, tabs, t, i), GrowOwners(c, own, t, i), ops)
  {
    var tabs', own' := Grow(c, tabs, t, i), GrowOwners(c, own, t, i);
    GrowWellFormed(c, tabs, own, t, i);
    forall va | InRange(c, va)
      ensures Lookup(c, tabs', own', va) == LeafOf(Painted(c.g, ops, va))
    {
      GrowLeafFrom(c, tabs, own, t, i, 0, c.start, va);
      assert Lookup(c, tabs, own, va) == LeafOf(Painted(c.g, ops, va));
    }
  }

  lemma PutRepresents(c: Config, tabs: Tables, own: seq<Owner>, ops: seq<Op>, op: Op, w: U64)
    requires Represents(c, tabs, own, ops) && Linked(c, tabs, own)
    requires InRange(c, op.va) && c.start < op.level <= 3 && TableAt(c, tabs, own, op.va, op.level).Some?
    requires w == LeafWord(op.phys, op.attrs, op.level) && w % 4 == if op.level == 3 then 3 else 1
    ensures Represents(c, Put(tabs, TableAt(c, tabs, own, op.va, op.level).value, Index(c.g, op.va, op.level), w),
                       own, ops + [op])
  {
    hide LeafWord, Blk;
    var t, i := TableAt(c, tabs, own, op.va, op.level).value, Index(c.g, op.va, op.level);
    var tabs' := Put(tabs, t, i, w);
    PutLeafWellFormed(c, tabs, own, t, i, w);
    forall va | InRange(c, va)
      ensures Lookup(c, tabs', own, va) == LeafOf(Painted(c.g, ops + [op], va))
    {
      PutLeafLookup(c, tabs, own, op.va, op.level, w, va);
      PaintedSnoc(c.g, ops, op, va);
      assert Lookup(c, tabs, own, va) == LeafOf(Painted(c.g, ops, va));
    }
  }

  /** Before `level` is handled: either the path to `va` is in place, or a coarser block bars it. */
  ghost predicate Progress(c: Config, tabs: Tables, own: seq<Owner>, ops: seq<Op>, va: nat, level: nat)
    requires Represents(c, tabs, own, ops) && InRange(c, va) && c.start <= level <= 3
  {
    if TableAt(c, tabs, own, va, level).Some?
    then Keys(own) == WithPath(c, NeededTables(c, ops), va, level)
    else Blocked(c.g, ops, va, level)
  }

  // ---- The builder ----

  /** The control block `g_mmu_ctrl` and the arena its addresses point into. */
  class PageTables {
    const arena: array<U64>

    var tlbAddr: nat
    var tlbSize: nat
    var tlbFillPtr: nat
    var granule: Granule
    var startLevel: nat
    var vaBits: nat

    /** The tables taken from the arena so far, what they are for, and the blocks installed. */
    ghost var tabs: Tables
    ghost var own: seq<Owner>
    ghost var ops: seq<Op>

    constructor (memory: array<U64>)
      ensures arena == memory
    {
      arena := memory;
      tlbAddr, tlbSize, tlbFillPtr, granule, startLevel, vaBits := 0, 0, 0, Granule4K, 0, 0;
      tabs, own, ops := [], [], [];
    }

    ghost function Cfg(): Config
      reads this
    {
      Config(granule, tlbAddr, startLevel)
    }

    ghost predicate Readable()
      reads this, arena
    {
      && Walkable(Cfg(), arena[..], tabs, own)
      && Linked(Cfg(), tabs, own)
    }

    /** The fill pointer is behind the last table taken, and the arena is not overrun. */
    ghost predicate Allocating()
      reads this
    {
      && tlbSize <= 8 * arena.Length
      && tlbFillPtr == tlbAddr + TableOffset(granule, |tabs|)
      && TableOffset(granule, |tabs|) <= tlbSize
    }

    ghost predicate Valid()
      reads this, arena
    {
      Readable() && Allocating()
    }

    method PteIndexOf(addr: nat, level: nat) returns (idx: nat)
      requires level <= 3
      ensures idx == Index(granule, addr, level)
    {
      SoftwareIndex(granule, addr, level);
      idx := And(Shr(addr, Shift(granule, level)), IndexMask(granule));
    }

    /** mmu_get_pte_type and the address field of the entry at `pte`. */
    method GetPte(pte: nat, ghost t: nat, ghost i: nat) returns (pteType: nat, table: nat)
      requires Readable() && t < |tabs| && i < Entries(granule) && pte == PteAddr(Cfg(), t, i)
      ensures pteType == tabs[t][i] % 4
      ensures table == And(tabs[t][i], TableAddrMask(granule))
    {
      TableInside(Cfg(), arena[..], tabs, own, t, i);
      var w := arena[(pte - tlbAddr) / 8];
      assert w == tabs[t][i];
      PteType(w);
      pteType := And(w, PTE_TYPE_MASK);
      table := And(w, TableAddrMask(granule));
    }

    /** mmu_find_pte: the address of the entry for `addr` at `level`, or None where the walk stops. */
    method FindPte(addr: nat, level: nat) returns (pte: Option<nat>)
      requires Readable() && InRange(Cfg(), addr)
      ensures !(startLevel <= level <= 3) ==> pte == None
      ensures startLevel <= level <= 3 ==>
                var r := TableAt(Cfg(), tabs, own, addr, level);
                pte == if r.None? then None else Some(PteAddr(Cfg(), r.value, Index(granule, addr, level)))
    {
      if level < startLevel {
        return None;
      }
      var p := tlbAddr;
      ghost var c := Cfg();
      ghost var t := 0;
      var i := startLevel;
      while i < MMU_LEVEL_MAX
        invariant startLevel <= i <= MMU_LEVEL_MAX
        invariant i <= level
        invariant i < MMU_LEVEL_MAX ==> TableAt(c, tabs, own, addr, i) == Some(t) && p == PteAddr(c, t, 0)
      {
        var idx := PteIndexOf(addr, i);
        p := p + 8 * idx;
        if i == level {
          return Some(p);
        }
        var pteType, table := GetPte(p, t, idx);
        if pteType != PTE_TYPE_TABLE {
          NoTableBelow(c, tabs, own, addr, i, level);
          return None;
        }
        p := table;
        if i < 3 {
          t := TableBelow(c, arena[..], tabs, own, addr, i, t);
        }
        i := i + 1;
      }
      return None;
    }

    /** mmu_create_table: the fill pointer moves on even when the arena is exhausted. */
    method CreateTable() returns (table: Option<nat>)
      requires Allocating()
      modifies this`tlbFillPtr, arena
      ensures table.Some? <==> TableOffset(granule, |tabs| + 1) <= tlbSize
      ensures tlbFillPtr == tlbAddr + TableOffset(granule, |tabs| + 1)
      ensures table.None? ==> arena[..] == old(arena[..])
      ensures table.Some? ==>
                && table.value == tlbAddr + TableOffset(granule, |tabs|)
                && (forall i :: 0 <= i < Entries(granule) ==>
                      Slot(granule, |tabs|, i) < arena.Length && arena[Slot(granule, |tabs|, i)] == 0)
                && (forall j :: 0 <= j < Slot(granule, |tabs|, 0) ==> arena[j] == old(arena[j]))
    {
      var newTable := tlbFillPtr;
      tlbFillPtr := tlbFillPtr + TableBytes(granule);
      if tlbFillPtr - tlbAddr > tlbSize {
        return None;
      }
      var first := (newTable - tlbAddr) / 8;
      assert first == Slot(granule, |tabs|, 0);
      var k := 0;
      while k < Entries(granule)
        modifies arena
        invariant k <= Entries(granule)
        invariant forall i :: first <= i < first + k ==> arena[i] == 0
        invariant forall j :: 0 <= j < first ==> arena[j] == old(arena[j])
      {
        arena[first + k] := 0;
        k := k + 1;
      }
      return Some(newTable);
    }

    /** The store `*pte = w`, for the entry of table `t` at index `i`. */
    method SetPte(pte: nat, w: U64, ghost t: nat, ghost i: nat)
      requires Readable() && t < |tabs| && i < Entries(granule) && pte == PteAddr(Cfg(), t, i)
      modifies this`tabs, arena
      ensures tabs == Put(old(tabs), t, i, w)
      ensures Stores(Cfg(), arena[..], tabs)
      ensures forall j :: 0 <= j < arena.Length && j != Slot(granule, t, i) ==> arena[j] == old(arena[j])
    {
      TableInside(Cfg(), arena[..], tabs, own, t, i);
      PteIndex(Cfg(), t, i);
      ghost var words := arena[..];
      arena[(pte - tlbAddr) / 8] := w;
      PutStores(Cfg(), words, tabs, own, t, i, w);
      assert arena[..] == words[Slot(granule, t, i) := w];
      tabs := Put(tabs, t, i, w);
    }

    /** mmu_add_map_pte_process for the entry of table `t` at index `i`. */
    method AddMapPteProcess(r: Region, pte: nat, phys: nat, level: nat, ghost t: nat, ghost i: nat) returns (ret: int)
      requires Valid() && t < |tabs| && i < Entries(granule) && pte == PteAddr(Cfg(), t, i)
      requires own[t].level == level <= 3 && (level >= r.maxLevel ==> level > startLevel)
      requires level >= r.maxLevel ==> phys % 0x1000 == 0 && phys < ADDR_LIMIT && AttrsOk(r.attrs)
      modifies this`tlbFillPtr, this`tabs, this`own, arena
      ensures ret == 0 || ret == -1
      ensures ret == -1
              <==> level < r.maxLevel && old(tabs)[t][i] % 4 == 0 && TableOffset(granule, |old(tabs)| + 1) > tlbSize
      ensures ret == 0 ==> Readable()
      ensures ret == 0 && level < r.maxLevel && level < 3 ==>
                && Valid()
                && (if old(tabs)[t][i] % 4 == 0
                    then tabs == Grow(Cfg(), old(tabs), t, i) && own == GrowOwners(Cfg(), old(own), t, i)
                    else tabs == old(tabs) && own == old(own))
      ensures level >= r.maxLevel ==>
                && Valid()
                && LeafWord(phys, r.attrs, level) < U64_SIZE
                && tabs == Put(old(tabs), t, i, LeafWord(phys, r.attrs, level))
                && own == old(own)
    {
      hide LeafWord;
      if level < r.maxLevel {
        var pteType, _ := GetPte(pte, t, i);
        if pteType == PTE_TYPE_FAULT {
          ret := AddTable(pte, level, t, i);
          return;
        }
      } else {
        var w := LeafPte(r, phys, level);
        PutLeafWellFormed(Cfg(), tabs, own, t, i, w);
        SetPte(pte, w, t, i);
      }
      ret := 0;
    }

    method LeafPte(r: Region, phys: nat, level: nat) returns (w: U64)
      requires phys % 0x1000 == 0 && phys < ADDR_LIMIT && AttrsOk(r.attrs)
      ensures w == LeafWord(phys, r.attrs, level) && w % 4 == if level == 3 then 3 else 1
    {
      LeafWordSum(phys, r.attrs, level);
      hide Bitwise;
      w := if level == 3 then Or(Or(phys, r.attrs), 3) else Or(Or(phys, r.attrs), 1);
      LeafType(phys, r.attrs, level);
    }

    /** mmu_create_table followed by mmu_set_pte_table. */
    method AddTable(pte: nat, level: nat, ghost t: nat, ghost i: nat) returns (ret: int)
      requires Valid() && t < |tabs| && i < Entries(granule) && pte == PteAddr(Cfg(), t, i)
      requires own[t].level == level <= 3 && tabs[t][i] % 4 == 0
      modifies this`tlbFillPtr, this`tabs, this`own, arena
      ensures ret == if TableOffset(granule, |old(tabs)| + 1) <= tlbSize then 0 else -1
      ensures ret == 0 ==> Readable()
      ensures ret == 0 && level < 3 ==>
                Valid() && tabs == Grow(Cfg(), old(tabs), t, i) && own == GrowOwners(Cfg(), old(own), t, i)
    {
      hide EntryOk, LinkOk, Or, TableWord;
      ghost var c, words, tabs0 := Cfg(), arena[..], tabs;
      var table := CreateTable();
      if table.None? {
        return -1;
      }
      assert Stores(c, arena[..], tabs) by { StoresBelow(c, words, arena[..], tabs, own); }
      LinkWord(c, |tabs|, arena.Length);
      var w: U64 := Or(PTE_TYPE_TABLE, table.value);
      SetPte(pte, w, t, i);
      if level < 3 {
        GrowWellFormed(c, tabs0, own, t, i);
        GrowLinked(c, tabs0, own, t, i);
        NewTableStores(c, arena[..], tabs, t, i);
        tabs := tabs + [ZeroTable(granule)];
        own := GrowOwners(c, own, t, i);
      } else {
        PutLeafWellFormed(c, tabs0, own, t, i, w);
      }
      ret := 0;
    }

    /** The body of the inner loop of mmu_add_map. */
    method MapLevel(r: Region, virt: nat, phys: nat, level: nat) returns (ret: int)
      requires Valid() && Represents(Cfg(), tabs, own, ops) && InRange(Cfg(), virt)
      requires startLevel <= level <= 3 && startLevel < r.maxLevel && level <= r.maxLevel
      requires r.maxLevel <= 3 ==> phys % 0x1000 == 0 && phys < ADDR_LIMIT && AttrsOk(r.attrs)
      requires Progress(Cfg(), tabs, own, ops, virt, level)
      modifies this`tlbFillPtr, this`tabs, this`own, this`ops, arena
      ensures ret == 0 || ret == -1 || ret == -3
      ensures ret == -3 ==> Blocked(granule, old(ops), virt, level)
      ensures ret == -1 ==> level < r.maxLevel
      ensures ret == -1 && level < 3 ==>
                TableOffset(granule, |WithPath(Cfg(), NeededTables(Cfg(), old(ops)), virt, level + 1)|) > tlbSize
      ensures ret == 0 ==> Readable() && !Blocked(granule, old(ops), virt, level)
      ensures ret == 0 && level < r.maxLevel && level < 3 ==>
                && Valid() && ops == old(ops) && Represents(Cfg(), tabs, own, ops)
                && Progress(Cfg(), tabs, own, ops, virt, level + 1)
      ensures ret == 0 && level == r.maxLevel ==>
                && Valid() && ops == old(ops) + [Op(level, virt, phys, r.attrs)]
                && Represents(Cfg(), tabs, own, ops)
                && Keys(own) == WithPath(Cfg(), NeededTables(Cfg(), old(ops)), virt, level)
    {
      hide WellFormed, Stores, Blk, Painted, LeafWord;
      ghost var c := Cfg();
      var pte := FindPte(virt, level);
      if pte.None? {
        return -3;
      }
      NotBlocked(c, tabs, own, ops, virt, level);
      if level < r.maxLevel {
        ret := PassLevel(r, virt, phys, level, pte.value);
      } else {
        ret := LeafLevel(r, virt, phys, level, pte.value);
      }
    }

    method PassLevel(r: Region, virt: nat, phys: nat, level: nat, pte: nat) returns (ret: int)
      requires Valid() && Represents(Cfg(), tabs, own, ops) && InRange(Cfg(), virt)
      requires startLevel <= level <= 3 && level < r.maxLevel
      requires Progress(Cfg(), tabs, own, ops, virt, level)
      requires TableAt(Cfg(), tabs, own, virt, level).Some?
      requires pte == PteAddr(Cfg(), TableAt(Cfg(), tabs, own, virt, level).value, Index(granule, virt, level))
      modifies this`tlbFillPtr, this`tabs, this`own, arena
      ensures ret == 0 || ret == -1
      ensures ret == -1 && level < 3 ==>
                TableOffset(granule, |WithPath(Cfg(), NeededTables(Cfg(), ops), virt, level + 1)|) > tlbSize
      ensures ret == 0 ==> Readable()
      ensures ret == 0 && level < 3 ==>
                && Valid() && Represents(Cfg(), tabs, own, ops)
                && Progress(Cfg(), tabs, own, ops, virt, level + 1)
    {
      hide WellFormed, Stores, Blk, Painted, LeafWord, LinkOk;
      ghost var c, tabs0, own0 := Cfg(), tabs, own;
      ghost var t, i := TableAt(c, tabs, own, virt, level).value, Index(granule, virt, level);
      EntryInside(c, tabs, own, t);
      TableFits(c, arena[..], tabs, own);
      ret := AddMapPteProcess(r, pte, phys, level, t, i);
      if level < 3 {
        if ret != 0 {
          OutOfTables(c, tabs0, own0, ops, virt, level);
        } else {
          LevelDone(c, tabs0, own0, tabs, own, ops, virt, level);
        }
      }
    }

    method LeafLevel(r: Region, virt: nat, phys: nat, level: nat, pte: nat) returns (ret: int)
      requires Valid() && Represents(Cfg(), tabs, own, ops) && InRange(Cfg(), virt)
      requires startLevel < level <= 3 && level == r.maxLevel
      requires phys % 0x1000 == 0 && phys < ADDR_LIMIT && AttrsOk(r.attrs)
      requires TableAt(Cfg(), tabs, own, virt, level).Some?
      requires pte == PteAddr(Cfg(), TableAt(Cfg(), tabs, own, virt, level).value, Index(granule, virt, level))
      modifies this`tlbFillPtr, this`tabs, this`own, this`ops, arena
      ensures ret == 0 && Valid() && own == old(own)
      ensures ops == old(ops) + [Op(level, virt, phys, r.attrs)] && Represents(Cfg(), tabs, own, ops)
    {
      hide WellFormed, Stores, Blk, Painted, LeafWord, LinkOk;
      ghost var c, tabs0 := Cfg(), tabs;
      ghost var t, i := TableAt(c, tabs, own, virt, level).value, Index(granule, virt, level);
      EntryInside(c, tabs, own, t);
      ret := AddMapPteProcess(r, pte, phys, level, t, i);
      LeafType(phys, r.attrs, level);
      ghost var op := Op(level, virt, phys, r.attrs);
      PutRepresents(c, tabs0, own, ops, op, LeafWord(phys, r.attrs, level));
      ops := ops + [op];
    }

    /** The state between two blocks: the tables hold `ops`, and exactly the tables `ops` needs were taken. */
    ghost predicate Settled()
      reads this, arena
    {
      && Valid() && Cfg().Valid()
      && Represents(Cfg(), tabs, own, ops)
      && Keys(own) == NeededTables(Cfg(), ops)
    }

    /** The inner loop of mmu_add_map, for one block. */
    method MapBlock(r: Region, virt: nat, phys: nat) returns (ret: int, blockSize: nat)
      requires Settled() && InRange(Cfg(), virt) && startLevel < r.maxLevel
      requires r.maxLevel <= 3 ==> phys % 0x1000 == 0 && phys < ADDR_LIMIT && AttrsOk(r.attrs)
      modifies this`tlbFillPtr, this`tabs, this`own, this`ops, arena
      ensures ret == 0 || ret == -1 || ret == -3
      ensures ret == 0 ==>
                && r.maxLevel <= 3 && !Blocked(granule, old(ops), virt, r.maxLevel)
                && Settled() && ops == old(ops) + [Op(r.maxLevel, virt, phys, r.attrs)]
                && blockSize == BlockSize(granule, r.maxLevel)
      ensures ret == -3 && r.maxLevel <= 3 ==> Blocked(granule, old(ops), virt, r.maxLevel)
      ensures ret == -1 && r.maxLevel <= 3 ==>
                TableOffset(granule, |WithPath(Cfg(), NeededTables(Cfg(), old(ops)), virt, r.maxLevel)|) > tlbSize
    {
      hide WellFormed, Walkable, Linked, Blk, Painted, Lookup, LeafOf, BlockSize, Shift, Progress, NeededTables,
           WithPath, Keys, InRange, AttrsOk;
      ghost var c, ops0 := Cfg(), ops;
      StartProgress(c, tabs, own, ops, virt);
      blockSize := 0;
      var level := startLevel;
      while level <= r.maxLevel
        modifies this`tlbFillPtr, this`tabs, this`own, this`ops, arena
        invariant startLevel <= level <= 4 && level <= r.maxLevel + 1
        invariant level <= 3 && level <= r.maxLevel ==>
                    && Valid() && ops == ops0 && Represents(c, tabs, own, ops)
                    && Progress(c, tabs, own, ops, virt, level)
        invariant level == r.maxLevel + 1 ==>
                    && Settled() && ops == ops0 + [Op(r.maxLevel, virt, phys, r.attrs)]
                    && !Blocked(granule, ops0, virt, r.maxLevel)
                    && blockSize == BlockSize(granule, r.maxLevel)
        invariant level == 4 ==> Readable()
        decreases 4 - level
      {
        if level > 3 {
          var pte := FindPte(virt, level);
          return -3, blockSize;
        }
        ret := MapLevel(r, virt, phys, level);
        if ret != 0 {
          if r.maxLevel <= 3 && ret == -1 {
            PathMonotone(c, NeededTables(c, ops0), virt, level + 1, r.maxLevel);
          }
          return ret, blockSize;
        }
        if level != startLevel {
          BlockSizeIsShift(granule, level);
          blockSize := Pow2(Shift(granule, level));
        }
        if level == r.maxLevel {
          NeededSnoc(c, ops0, Op(r.maxLevel, virt, phys, r.attrs));
        }
        level := level + 1;
      }
      ret := 0;
    }

    /** mmu_add_map. On failure `round` is the round that failed. */
    method AddMap(r: Region) returns (ret: int, ghost round: nat)
      requires Settled() && RegionOk(granule, r) && r.virt + r.size <= Space(Cfg())
      modifies this`tlbFillPtr, this`tabs, this`own, this`ops, arena
      ensures ret == 0 || ret == -1 || ret == -2 || ret == -3
      ensures ret == -2 <==> r.maxLevel <= startLevel
      ensures ret == 0 ==>
                && (r.size == 0 || r.maxLevel <= 3)
                && Settled() && ops == old(ops) + RegionOps(granule, r, Rounds(granule, r))
                && (NoConflict(granule, old(ops)) ==> NoConflict(granule, ops))
      ensures ret == -1 || ret == -3 ==> r.size > 0 && (r.maxLevel <= 3 ==> round < Rounds(granule, r))
      ensures ret == -3 && r.maxLevel <= 3 ==>
                OpsInside(Cfg(), old(ops) + RegionOps(granule, r, round))
                && Blocked(granule, old(ops) + RegionOps(granule, r, round), OpAt(granule, r, round).va, r.maxLevel)
      ensures ret == -1 && r.maxLevel <= 3 ==>
                OpsInside(Cfg(), old(ops) + RegionOps(granule, r, round + 1))
                && TableOffset(granule, |NeededTables(Cfg(), old(ops) + RegionOps(granule, r, round + 1))|) > tlbSize
    {
      hide WellFormed, Walkable, Linked, Blk, Painted, Lookup, LeafOf, BlockSize, NeededTables, WithPath, Keys,
           InRange, TableOffset, Space, Advance, RegionOps, Rounds;
      round := 0;
      if r.maxLevel <= startLevel {
        return -2, round;
      }
      ghost var ops0 := ops;
      var virt, phys, mapSize := r.virt, r.phys, 0;
      RegionStart(granule, r, ops);
      while mapSize < r.size
        modifies this`tlbFillPtr, this`tabs, this`own, this`ops, arena
        invariant Settled()
        invariant r.maxLevel <= 3 ==> AtRound(granule, r, ops0, ops, round, virt, phys, mapSize)
        invariant r.maxLevel > 3 ==> mapSize == 0 && virt == r.virt && ops == ops0
        invariant NoConflict(granule, ops0) ==> NoConflict(granule, ops)
        decreases r.size - mapSize
      {
        if r.maxLevel <= 3 {
          RoundFacts(Cfg(), r, ops0, ops, round, virt, phys, mapSize);
        }
        BelowSpace(Cfg(), virt);
        ghost var before := ops;
        var blockSize;
        ret, blockSize := MapBlock(r, virt, phys);
        if r.maxLevel <= 3 {
          NextRound(Cfg(), r, ops0, before, round, virt, phys, mapSize);
        }
        if ret != 0 {
          return;
        }
        NoConflictSnoc(granule, before, OpAt(granule, r, round));
        virt := virt + blockSize;
        phys := phys + blockSize;
        mapSize := mapSize + blockSize;
        round := round + 1;
      }
      AllRounds(granule, r, ops0, ops, round, virt, phys, mapSize);
      ret := 0;
    }

    /** mmu_get_tcr: the size of the address space the regions need, and the register value that announces it. */
    method GetTcr(rs: seq<Region>) returns (tcr: nat)
      requires RegionsOk(granule, rs)
      modifies this`vaBits
      ensures vaBits == VaBits(MaxAddr(rs))
      ensures forall i :: 0 <= i < |rs| ==> rs[i].virt + rs[i].size <= Pow2(vaBits)
      ensures Announces(granule, tcr, vaBits)
      ensures tcr / 0x100 % 4 == 1 && tcr / 0x400 % 4 == 1 && tcr / 0x1000 % 4 == 3 && tcr / 0x8000_0000 % 2 == 1
    {
      hide Pow2;
      var maxAddr := 0;
      var i := 0;
      while i < |rs|
        invariant i <= |rs|
        invariant maxAddr == MaxAddr(rs[..i])
      {
        assert rs[..i + 1][..i] == rs[..i];
        if maxAddr < rs[i].virt + rs[i].size {
          maxAddr := rs[i].virt + rs[i].size;
        }
        i := i + 1;
      }
      assert rs[..|rs|] == rs;
      var ips;
      if maxAddr > 0x1000_0000_0000 {
        ips, vaBits := 5, 48;
      } else if maxAddr > 0x400_0000_0000 {
        ips, vaBits := 4, 44;
      } else if maxAddr > 0x100_0000_0000 {
        ips, vaBits := 3, 42;
      } else if maxAddr > 0x10_0000_0000 {
        ips, vaBits := 2, 40;
      } else if maxAddr > 0x1_0000_0000 {
        ips, vaBits := 1, 36;
      } else {
        ips, vaBits := 0, 32;
      }
      MaxAddrBounds(granule, rs);
      tcr := TcrValue(ips, vaBits, granule);
      assert Announces(granule, tcr, vaBits);
    }

    /**
     mmu_setup_pgtables. It succeeds exactly when the region list is feasible, and then the processor translates
     every address as the region list asks, as far as the announced physical address space reaches, whatever the
     arena held before. That is the mapping asked for exactly when all of it is within reach.
     */
    method SetupPgTables(rs: seq<Region>, addr: nat, len: nat, g: Granule) returns (ret: int, tcr: nat)
      requires RegionsOk(g, rs)
      requires addr % TableBytes(g) == 0 && addr + 8 * arena.Length <= ADDR_LIMIT && len <= 8 * arena.Length
      modifies this, arena
      ensures ret == 0 <==> Installable(rs, addr, len, g)
      ensures ret == 0 ==> forall va :: LowHalf(va) ==>
                             Translate(Memory(addr, arena[..]), addr, tcr, va)
                             == Effective(ArenaConfig(g, addr, rs), rs, va)
      ensures ret == 0 ==>
                ((forall va :: LowHalf(va) ==> Translate(Memory(addr, arena[..]), addr, tcr, va) == Intended(g, rs, va))
                 <==> Reachable(ArenaConfig(g, addr, rs), rs))
    {
      hide WellFormed, Walkable, Linked, Represents, Keys, NeededTables, Feasible, Translate, Intended, RegionOk,
           MaxAddr, VaBits, StartLevel, AllOps, Installed, Effective, Reachable, LowHalf, Announces;
      tlbAddr, tlbSize, tlbFillPtr, granule, startLevel := addr, len, addr, g, 0;
      tabs, own, ops := [], [], [];
      tcr := GetTcr(rs);
      startLevel := StartLevel(g, vaBits);
      if g.Granule64K? && vaBits > 36 {
        return 3, tcr;
      }
      ghost var c := Cfg();
      FitsSpace(c, rs);
      var root := CreateTable();
      if root.None? {
        NoRoom(c, rs, len);
        return 1, tcr;
      }
      tabs, own := [ZeroTable(g)], [Owner(startLevel, 0, 0)];
      RootSettled(c, arena[..], tabs, own);
      ret := AddRegions(rs);
      if ret == 0 {
        AllInstalled(c, arena[..], tabs, own, ops, rs);
        AllTranslations(c, arena[..], tabs, own, rs, tcr);
      }
    }

    /** The region loop of mmu_setup_pgtables. */
    method AddRegions(rs: seq<Region>) returns (ret: int)
      requires Settled() && ops == [] && RegionsOk(granule, rs)
      requires forall i :: 0 <= i < |rs| ==> rs[i].virt + rs[i].size <= Space(Cfg())
      modifies this`tlbFillPtr, this`tabs, this`own, this`ops, arena
      ensures ret == 0 <==> Feasible(Cfg(), rs, tlbSize)
      ensures ret == 0 ==> Settled() && ops == AllOps(granule, rs)
    {
      hide WellFormed, Walkable, Linked, Represents, Keys, NeededTables, Feasible, WithPath, Blk, Rounds, RegionOps,
           Space, RegionOk, Painted, Advance;
      ghost var c := Cfg();
      var i := 0;
      while i < |rs|
        modifies this`tlbFillPtr, this`tabs, this`own, this`ops, arena
        invariant i <= |rs|
        invariant Settled() && DepthsOk(c, rs[..i]) && OpsOk(ops) && NoConflict(granule, ops)
        invariant RegionsOk(granule, rs[..i]) && ops == AllOps(granule, rs[..i])
      {
        RegionNext(c, rs, i);
        if rs[i].phys != INVALID_ADDR {
          ghost var round;
          ret, round := AddMap(rs[i]);
          if ret != 0 {
            RegionFails(c, rs, i, round, tlbSize, ret);
            return;
          }
          AllOpsOk(granule, rs[..i + 1]);
        }
        i := i + 1;
      }
      assert rs[..|rs|] == rs;
      InstalledFeasible(c, rs, own, tabs, tlbSize);
      ret := 0;
    }
  }

  function StartLevel(g: Granule, vaBits: nat): nat
  {
    if g.Granule4K? then (if vaBits < 39 then 1 else 0)
    else if vaBits <= 36 then 2 else 1
  }

  /** What translation the region list asks for, over the whole address range. */
  function Intended(g: Granule, rs: seq<Region>, va: nat): Translation
  {
    if va < Pow2(VaBits(MaxAddr(rs))) then Expected(g, rs, va) else Fault
  }

  /** What the processor sees: the mapping asked for, as far as the announced physical address space reaches. */
  ghost function Effective(c: Config, rs: seq<Region>, va: nat): Translation
    requires c.Valid() && RegionsOk(c.g, rs) && OpsOk(AllOps(c.g, rs)) && OpsInside(c, AllOps(c.g, rs))
  {
    var limit := Pow2(VaBits(MaxAddr(rs)));
    if va < limit && InReach(c, rs, limit, va) then Expected(c.g, rs, va) else Fault
  }

  /** Every address asked for, and every table that leads to one, lies in the announced physical address space. */
  ghost predicate Reachable(c: Config, rs: seq<Region>)
    requires c.Valid() && RegionsOk(c.g, rs) && OpsOk(AllOps(c.g, rs)) && OpsInside(c, AllOps(c.g, rs))
  {
    var limit := Pow2(VaBits(MaxAddr(rs)));
    forall va: nat :: va < limit ==> InReach(c, rs, limit, va)
  }

  /** The fields of TCR_EL1: the address space of `vaBits` bits on both sides of the translation, and the granule. */
  ghost predicate Announces(g: Granule, tcr: nat, vaBits: nat)
  {
    && tcr % 0x40 == 64 - vaBits
    && tcr / 0x4000 % 4 == (if g.Granule4K? then 0 else 1)
    && PaBits(tcr / 0x1_0000_0000 % 8) == vaBits
  }

  ghost predicate Installed(c: Config, words: seq<U64>, tabs: Tables, own: seq<Owner>, rs: seq<Region>)
  {
    && RegionsOk(c.g, rs) && Walkable(c, words, tabs, own) && Linked(c, tabs, own)
    && OpsOk(AllOps(c.g, rs)) && Represents(c, tabs, own, AllOps(c.g, rs))
    && Keys(own) == NeededTables(c, AllOps(c.g, rs))
    && c.start == StartLevel(c.g, VaBits(MaxAddr(rs))) && (c.g.Granule64K? ==> VaBits(MaxAddr(rs)) <= 36)
  }

  function ArenaConfig(g: Granule, addr: nat, rs: seq<Region>): Config
  {
    Config(g, addr, StartLevel(g, VaBits(MaxAddr(rs))))
  }

  ghost predicate Installable(rs: seq<Region>, addr: nat, len: nat, g: Granule)
    requires RegionsOk(g, rs)
  {
    var vaBits := VaBits(MaxAddr(rs));
    && (g.Granule64K? ==> vaBits <= 36)
    && Feasible(ArenaConfig(g, addr, rs), rs, len)
  }

  // ---- From regions to the whole list ----

  lemma FitsSpace(c: Config, rs: seq<Region>)
    requires RegionsOk(c.g, rs)
    requires c.start == StartLevel(c.g, VaBits(MaxAddr(rs))) && (c.g.Granule64K? ==> VaBits(MaxAddr(rs)) <= 36)
    ensures c.Valid()
    ensures forall i :: 0 <= i < |rs| ==> rs[i].virt + rs[i].size <= Space(c)
  {
    MaxAddrBounds(c.g, rs);
    Pow2Values();
  }

  lemma NoRoom(c: Config, rs: seq<Region>, len: nat)
    requires c.Valid() && RegionsOk(c.g, rs) && TableOffset(c.g, 1) > len
    ensures !Feasible(c, rs, len)
  {
    if OpsInside(c, AllOps(c.g, rs)) {
      NeededMonotone(c, AllOps(c.g, rs), 0);
    }
  }

  lemma RootSettled(c: Config, words: seq<U64>, tabs: Tables, own: seq<Owner>)
    requires c.Valid() && tabs == [ZeroTable(c.g)] && own == [Owner(c.start, 0, 0)]
    requires forall i :: 0 <= i < Entries(c.g) ==> Slot(c.g, 0, i) < |words| && words[Slot(c.g, 0, i)] == 0
    requires Placed(c, words)
    ensures Walkable(c, words, tabs, own) && Linked(c, tabs, own)
    ensures Represents(c, tabs, own, []) && Keys(own) == NeededTables(c, [])
  {
    assert Key(own[0]) == (c.start, 0);
    assert Keys(own) == [(c.start, 0)];
  }

  lemma {:induction false} RegionOpsPrefix(g: Granule, r: Region, k: nat, n: nat)
    requires RegionOk(g, r) && k <= n <= Rounds(g, r)
    ensures RegionOps(g, r, k) <= RegionOps(g, r, n)
  {
    if k < n {
      RegionOpsPrefix(g, r, k, n - 1);
    }
  }

  lemma {:induction false} AllOpsPrefix(g: Granule, rs: seq<Region>, i: nat)
    requires RegionsOk(g, rs) && i <= |rs|
    ensures RegionsOk(g, rs[..i])
    ensures AllOps(g, rs[..i]) <= AllOps(g, rs)
  {
    if i < |rs| {
      var init := rs[..|rs| - 1];
      AllOpsPrefix(g, init, i);
      assert init[..i] == rs[..i];
    } else {
      assert rs[..i] == rs;
    }
  }

  lemma RegionNext(c: Config, rs: seq<Region>, i: nat)
    requires RegionsOk(c.g, rs) && i < |rs| && DepthsOk(c, rs[..i])
    ensures RegionsOk(c.g, rs[..i]) && RegionsOk(c.g, rs[..i + 1])
    ensures AllOps(c.g, rs[..i + 1])
            == AllOps(c.g, rs[..i])
               + if rs[i].phys == INVALID_ADDR then [] else RegionOps(c.g, rs[i], Rounds(c.g, rs[i]))
    ensures rs[i].phys == INVALID_ADDR || (c.start < rs[i].maxLevel && (rs[i].size == 0 || rs[i].maxLevel <= 3))
            ==> DepthsOk(c, rs[..i + 1])
  {
    assert rs[..i + 1][..i] == rs[..i];
  }

  /** A block that is refused makes the whole list infeasible. */
  lemma RegionFails(c: Config, rs: seq<Region>, i: nat, k: nat, len: nat, ret: int)
    requires c.Valid() && RegionsOk(c.g, rs) && i < |rs| && rs[i].phys != INVALID_ADDR
    requires RegionsOk(c.g, rs[..i])
    requires ret == -1 || ret == -2 || ret == -3
    requires ret == -2 ==> rs[i].maxLevel <= c.start
    requires ret != -2 ==> rs[i].size > 0 && (rs[i].maxLevel <= 3 ==> k < Rounds(c.g, rs[i]))
    requires ret == -3 && rs[i].maxLevel <= 3 ==>
               var ops := AllOps(c.g, rs[..i]) + RegionOps(c.g, rs[i], k);
               OpsInside(c, ops) && Blocked(c.g, ops, OpAt(c.g, rs[i], k).va, rs[i].maxLevel)
    requires ret == -1 && rs[i].maxLevel <= 3 ==>
               var ops := AllOps(c.g, rs[..i]) + RegionOps(c.g, rs[i], k + 1);
               OpsInside(c, ops) && TableOffset(c.g, |NeededTables(c, ops)|) > len
    ensures !Feasible(c, rs, len)
  {
    hide Rounds, Painted, Advance, WithPath, RegionOk;
    if DepthsOk(c, rs) && OpsInside(c, AllOps(c.g, rs)) {
      if ret == -3 {
        ConflictSpreads(c, rs, i, k);
      } else if ret == -1 {
        NeedSpreads(c, rs, i, k + 1);
      }
    }
  }

  lemma ConflictSpreads(c: Config, rs: seq<Region>, i: nat, k: nat)
    requires i < |rs| && RegionsOk(c.g, rs) && OpsOk(AllOps(c.g, rs)) && RegionsOk(c.g, rs[..i])
    requires rs[i].phys != INVALID_ADDR && rs[i].maxLevel <= 3 && k < Rounds(c.g, rs[i])
    requires var ops := AllOps(c.g, rs[..i]) + RegionOps(c.g, rs[i], k);
             OpsInside(c, ops) && Blocked(c.g, ops, OpAt(c.g, rs[i], k).va, rs[i].maxLevel)
    ensures !NoConflict(c.g, AllOps(c.g, rs))
  {
    hide Rounds, Painted, OpAt, RegionOk, NoConflict, Blocked, AllOps, RegionOps;
    var ops := AllOps(c.g, rs[..i]) + RegionOps(c.g, rs[i], k);
    OpsBefore(c.g, rs, i, k + 1);
    RegionOpsSnoc(c.g, rs[i], k);
    assert ops + [OpAt(c.g, rs[i], k)] == AllOps(c.g, rs[..i]) + RegionOps(c.g, rs[i], k + 1);
    PrefixConflict(c.g, AllOps(c.g, rs), ops, OpAt(c.g, rs[i], k));
  }

  lemma RegionOpsSnoc(g: Granule, r: Region, k: nat)
    requires RegionOk(g, r) && k < Rounds(g, r)
    ensures RegionOps(g, r, k + 1) == RegionOps(g, r, k) + [OpAt(g, r, k)]
    ensures OpAt(g, r, k).level == r.maxLevel
  {
  }

  lemma PrefixConflict(g: Granule, all: seq<Op>, ops: seq<Op>, op: Op)
    requires OpsOk(all) && OpsOk(ops) && ops + [op] <= all && op.level <= 3 && Blocked(g, ops, op.va, op.level)
    ensures !NoConflict(g, all)
  {
    hide Painted;
    var part := ops + [op];
    assert part == all[..|part|];
    assert part[..|part| - 1] == ops;
    assert !NoConflict(g, part);
    if NoConflict(g, all) {
      NoConflictPrefix(g, all, |part|);
    }
  }

  lemma NeedSpreads(c: Config, rs: seq<Region>, i: nat, k: nat)
    requires i < |rs| && c.Valid() && RegionsOk(c.g, rs) && OpsInside(c, AllOps(c.g, rs)) && RegionsOk(c.g, rs[..i])
    requires rs[i].phys != INVALID_ADDR && k <= Rounds(c.g, rs[i])
    ensures OpsInside(c, AllOps(c.g, rs[..i]) + RegionOps(c.g, rs[i], k))
    ensures |NeededTables(c, AllOps(c.g, rs[..i]) + RegionOps(c.g, rs[i], k))| <= |NeededTables(c, AllOps(c.g, rs))|
  {
    hide Rounds, Advance, RegionOk, RegionOps, WithPath;
    var all := AllOps(c.g, rs);
    var part := AllOps(c.g, rs[..i]) + RegionOps(c.g, rs[i], k);
    OpsBefore(c.g, rs, i, k);
    assert part == all[..|part|];
    NeededMonotone(c, all, |part|);
  }

  lemma OpsBefore(g: Granule, rs: seq<Region>, i: nat, k: nat)
    requires RegionsOk(g, rs) && i < |rs| && rs[i].phys != INVALID_ADDR && k <= Rounds(g, rs[i])
    ensures RegionsOk(g, rs[..i])
    ensures AllOps(g, rs[..i]) + RegionOps(g, rs[i], k) <= AllOps(g, rs)
  {
    AllOpsPrefix(g, rs, i + 1);
    assert rs[..i + 1][..i] == rs[..i];
    RegionOpsPrefix(g, rs[i], k, Rounds(g, rs[i]));
  }

  lemma InstalledFeasible(c: Config, rs: seq<Region>, own: seq<Owner>, tabs: Tables, len: nat)
    requires c.Valid() && RegionsOk(c.g, rs) && DepthsOk(c, rs)
    requires Represents(c, tabs, own, AllOps(c.g, rs)) && Linked(c, tabs, own)
    requires Keys(own) == NeededTables(c, AllOps(c.g, rs)) && NoConflict(c.g, AllOps(c.g, rs))
    requires TableOffset(c.g, |tabs|) <= len
    ensures Feasible(c, rs, len)
  {
  }

  lemma AllInstalled(c: Config, words: seq<U64>, tabs: Tables, own: seq<Owner>, ops: seq<Op>, rs: seq<Region>)
    requires RegionsOk(c.g, rs) && ops == AllOps(c.g, rs) && Walkable(c, words, tabs, own) && Linked(c, tabs, own)
    requires Represents(c, tabs, own, ops) && Keys(own) == NeededTables(c, ops)
    requires c.start == StartLevel(c.g, VaBits(MaxAddr(rs))) && (c.g.Granule64K? ==> VaBits(MaxAddr(rs)) <= 36)
    ensures Installed(c, words, tabs, own, rs)
  {
  }

  lemma TranslateIsEffective(c: Config, words: seq<U64>, tabs: Tables, own: seq<Owner>, rs: seq<Region>, tcr: nat,
                             va: nat)
    requires Installed(c, words, tabs, own, rs) && Announces(c.g, tcr, VaBits(MaxAddr(rs))) && LowHalf(va)
    ensures Translate(Memory(c.base, words), c.base, tcr, va) == Effective(c, rs, va)
  {
    hide Walk, Expected, Pow2;
    var vaBits := VaBits(MaxAddr(rs));
    TranslateIs(c.g, Memory(c.base, words), c.base, tcr, vaBits, va);
    if va < Pow2(vaBits) {
      VaBitsFit(c, MaxAddr(rs));
      WalkIsExpected(c, words, tabs, own, rs, Pow2(vaBits), va);
    }
  }

  /** The whole result: what the processor sees, and when that is what the list asks for. */
  lemma AllTranslations(c: Config, words: seq<U64>, tabs: Tables, own: seq<Owner>, rs: seq<Region>, tcr: nat)
    requires Installed(c, words, tabs, own, rs) && Announces(c.g, tcr, VaBits(MaxAddr(rs)))
    ensures forall va :: LowHalf(va) ==> Translate(Memory(c.base, words), c.base, tcr, va) == Effective(c, rs, va)
    ensures (forall va :: LowHalf(va) ==> Translate(Memory(c.base, words), c.base, tcr, va) == Intended(c.g, rs, va))
            <==> Reachable(c, rs)
  {
    hide Translate, LowHalf;
    forall va | LowHalf(va) ensures Translate(Memory(c.base, words), c.base, tcr, va) == Effective(c, rs, va) {
      TranslateIsEffective(c, words, tabs, own, rs, tcr, va);
    }
    forall va: nat | va < Pow2(VaBits(MaxAddr(rs))) ensures LowHalf(va) {
      BelowIsLow(MaxAddr(rs), va);
    }
    forall va: nat | va < Pow2(VaBits(MaxAddr(rs)))
      ensures Effective(c, rs, va) == Intended(c.g, rs, va) <==> InReach(c, rs, Pow2(VaBits(MaxAddr(rs))), va)
    {
      MappedWherePainted(c.g, rs, va);
    }
  }

  lemma MappedWherePainted(g: Granule, rs: seq<Region>, va: nat)
    requires RegionsOk(g, rs)
    ensures OpsOk(AllOps(g, rs))
    ensures Painted(g, AllOps(g, rs), va).Some? <==> Expected(g, rs, va).Mapped?
    ensures Expected(g, rs, va) != BusError
  {
    hide Painted, Expected, LeafWord, Blk, Scale;
    PaintedIsExpected(g, rs, va);
  }

  lemma BelowIsLow(maxAddr: nat, va: nat)
    requires va < Pow2(VaBits(maxAddr))
    ensures LowHalf(va)
  {
    Pow2Values();
  }

  lemma VaBitsFit(c: Config, maxAddr: nat)
    requires c.start == StartLevel(c.g, VaBits(maxAddr)) && (c.g.Granule64K? ==> VaBits(maxAddr) <= 36)
    ensures Pow2(VaBits(maxAddr)) <= Space(c)
    ensures InitialLevel(c.g, VaBits(maxAddr)) == c.start
  {
    Pow2Values();
  }

  lemma TranslateIs(g: Granule, mem: Memory, ttbr: nat, tcr: nat, vaBits: nat, va: nat)
    requires 25 <= vaBits <= 48 && Announces(g, tcr, vaBits) && LowHalf(va)
    ensures Translate(mem, ttbr, tcr, va)
            == if va < Pow2(vaBits) then Walk(g, mem, Pow2(vaBits), ttbr, InitialLevel(g, vaBits), va) else Fault
  {
    hide Walk, Pow2, InitialLevel, PaBits;
  }

  lemma WalkIsExpected(c: Config, words: seq<U64>, tabs: Tables, own: seq<Owner>, rs: seq<Region>, limit: nat, va: nat)
    requires Installed(c, words, tabs, own, rs) && va < Space(c)
    ensures Walk(c.g, Memory(c.base, words), limit, c.base, c.start, va)
            == if InReach(c, rs, limit, va) then Expected(c.g, rs, va) else Fault
  {
    hide Walk, Expected, Output, LeafWord, LeafFrom, Blk, EntryOk, PathBelow, TablesBelow, Keys, NeededTables, AllOps,
         RegionOk;
    BelowSpace(c, va);
    WalkIsLookup(c, words, tabs, own, limit, 0, c.start, va);
    PaintedIsExpected(c.g, rs, va);
    assert Lookup(c, tabs, own, va) == LeafOf(Painted(c.g, AllOps(c.g, rs), va));
    if Lookup(c, tabs, own, va).Some? {
      PathBelowIs(c, tabs, own, limit, 0, c.start, va);
      WholePath(c, Keys(own), va, Lookup(c, tabs, own, va).value.level, limit);
    }
  }

  /** The tables of path levels from `from` on, among those taken, lie below `limit`. */
  ghost predicate RestBelow(c: Config, keys: seq<TableKey>, va: nat, from: nat, level: nat, limit: nat)
    requires c.Valid() && level <= 3
  {
    forall u :: 0 <= u < |keys| && OnPath(c, keys[u], va, level) && from <= keys[u].0
      ==> c.base + TableOffset(c.g, u) < limit
  }

  lemma WholePath(c: Config, keys: seq<TableKey>, va: nat, level: nat, limit: nat)
    requires c.Valid() && level <= 3
    ensures RestBelow(c, keys, va, c.start, level, limit) <==> TablesBelow(c, keys, va, level, limit)
  {
  }

  /** The tables the walk visits are those whose keys are on the path. */
  lemma {:induction false} PathBelowIs(c: Config, tabs: Tables, own: seq<Owner>, limit: nat, t: nat, level: nat,
                                       va: nat)
    requires WellFormed(c, tabs, own) && Linked(c, tabs, own)
    requires c.start <= level <= 3 && Resolves(c, own, t, level, va)
    requires LeafFrom(c, tabs, own, t, level, va).Some?
    ensures level <= LeafFrom(c, tabs, own, t, level, va).value.level <= 3
    ensures PathBelow(c, tabs, own, limit, t, level, va)
            <==> RestBelow(c, Keys(own), va, level, LeafFrom(c, tabs, own, t, level, va).value.level, limit)
    decreases 3 - level
  {
    hide Blk, TableOffset, RestBelow;
    var hi := LeafFrom(c, tabs, own, t, level, va).value.level;
    assert EntryOk(c, tabs, own, t, Index(c.g, va, level));
    if level < 3 && tabs[t][Index(c.g, va, level)] % 4 == 3 {
      var k := ChildResolves(c, tabs, own, t, level, va);
      PathBelowIs(c, tabs, own, limit, k, level + 1, va);
    } else {
      assert hi == level;
    }
    RestSplit(c, tabs, own, limit, t, level, va, hi);
  }

  /** Of the tables taken, only `t` is the one on the path at its level. */
  lemma RestSplit(c: Config, tabs: Tables, own: seq<Owner>, limit: nat, t: nat, level: nat, va: nat, hi: nat)
    requires WellFormed(c, tabs, own) && Linked(c, tabs, own)
    requires c.start <= level <= hi <= 3 && Resolves(c, own, t, level, va)
    ensures RestBelow(c, Keys(own), va, level, hi, limit)
            <==> c.base + TableOffset(c.g, t) < limit && RestBelow(c, Keys(own), va, level + 1, hi, limit)
    ensures RestBelow(c, Keys(own), va, hi + 1, hi, limit)
  {
    hide Blk, TableOffset, EntryOk;
    var keys := Keys(own);
    assert keys[t] == (level, Quot(c.g, Blk(c.g, va, level)));
    assert OnPath(c, keys[t], va, hi);
    forall u | 0 <= u < |keys| && OnPath(c, keys[u], va, hi) && keys[u].0 == level ensures u == t {
      assert Key(own[u]) == Key(own[t]);
    }
  }

  function MaxAddr(rs: seq<Region>): nat
  {
    if rs == [] then 0
    else
      var top, m := rs[|rs| - 1].virt + rs[|rs| - 1].size, MaxAddr(rs[..|rs| - 1]);
      if m < top then top else m
  }

  /** The smallest supported address space that reaches `maxAddr`, and 48 bits at most. */
  function VaBits(maxAddr: nat): nat
  {
    if maxAddr <= 0x1_0000_0000 then 32
    else if maxAddr <= 0x10_0000_0000 then 36
    else if maxAddr <= 0x100_0000_0000 then 40
    else if maxAddr <= 0x400_0000_0000 then 42
    else if maxAddr <= 0x1000_0000_0000 then 44
    else 48
  }

  /** It is the smallest of the supported sizes that reaches. */
  lemma VaBitsLeast(maxAddr: nat, bits: nat)
    requires bits in {32, 36, 40, 42, 44, 48} && maxAddr <= Pow2(bits)
    ensures VaBits(maxAddr) <= bits
    ensures maxAddr <= Pow2(48) ==> maxAddr <= Pow2(VaBits(maxAddr))
  {
    hide Pow2;
    Pow2Values();
  }

  lemma {:induction false} MaxAddrBounds(g: Granule, rs: seq<Region>)
    requires RegionsOk(g, rs)
    ensures MaxAddr(rs) <= ADDR_LIMIT
    ensures MaxAddr(rs) <= Pow2(VaBits(MaxAddr(rs)))
    ensures forall i :: 0 <= i < |rs| ==> rs[i].virt + rs[i].size <= MaxAddr(rs)
  {
    if rs != [] {
      MaxAddrBounds(g, rs[..|rs| - 1]);
    }
    Pow2Values();
  }

  /** The fields or-ed into TCR_EL1 do not overlap: T0SZ, IRGN0, ORGN0, SH0, TG0, the reserved bit and IPS read back. */
  method TcrValue(ips: nat, vaBits: nat, g: Granule) returns (tcr: nat)
    requires ips < 8 && 32 <= vaBits <= 48
    ensures tcr % 0x40 == 64 - vaBits
    ensures tcr / 0x4000 % 4 == if g.Granule4K? then 0 else 1
    ensures tcr / 0x1_0000_0000 % 8 == ips
    ensures tcr / 0x100 % 4 == 1 && tcr / 0x400 % 4 == 1 && tcr / 0x1000 % 4 == 3 && tcr / 0x8000_0000 % 2 == 1
    ensures tcr == ips * 0x1_0000_0000 + 0x8000_0000 + (if g.Granule4K? then 0 else 0x4000) + 0x3500 + (64 - vaBits)
  {
    hide Or, Pow2;
    var tg0, t0sz := if g.Granule4K? then 0 else 1, 64 - vaBits;
    assert Pow2(8) == 0x100 && Pow2(10) == 0x400 && Pow2(12) == 0x1000 && Pow2(14) == 0x4000 by { Pow2Values(); }
    assert Pow2(31) == 0x8000_0000 && Pow2(32) == 0x1_0000_0000 by { Pow2Values(); }
    OrAdd(ips, TCR_EL1_RSVD, 32, 0x1_0000_0000);
    OrAdd(tg0, TCR_SHARED_INNER, 14, 0x4000);
    OrAdd(4 * tg0 + 3, TCR_ORGN_WBWA, 12, 0x1000);
    OrAdd(16 * tg0 + 13, TCR_IRGN_WBWA, 10, 0x400);
    OrAdd(2 * ips + 1, tg0 * 0x4000 + 0x3500, 31, 0x8000_0000);
    OrAdd((2 * ips + 1) * 0x80_0000 + tg0 * 0x40 + 0x35, t0sz, 8, 0x100);
    tcr := Or(TCR_EL1_RSVD, ips * 0x1_0000_0000);
    tcr := Or(tcr, Or(Or(Or(tg0 * 0x4000, TCR_SHARED_INNER), TCR_ORGN_WBWA), TCR_IRGN_WBWA));
    tcr := Or(tcr, t0sz);
    TcrFields(ips, tg0, t0sz);
    TcrMemoryFields(ips, tg0, t0sz);
  }

  lemma TcrFields(ips: nat, tg0: nat, t0sz: nat)
    requires tg0 < 2 && t0sz < 0x40
    ensures var tcr := ips * 0x1_0000_0000 + 0x8000_0000 + tg0 * 0x4000 + 0x3500 + t0sz;
            tcr % 0x40 == t0sz && tcr / 0x4000 % 4 == tg0 && tcr / 0x1_0000_0000 == ips
  {
  }

  lemma TcrMemoryFields(ips: nat, tg0: nat, t0sz: nat)
    requires tg0 < 2 && t0sz < 0x40
    ensures var tcr := ips * 0x1_0000_0000 + 0x8000_0000 + tg0 * 0x4000 + 0x3500 + t0sz;
            tcr / 0x100 % 4 == 1 && tcr / 0x400 % 4 == 1 && tcr / 0x1000 % 4 == 3 && tcr / 0x8000_0000 % 2 == 1
  {
    var tcr := ips * 0x1_0000_0000 + 0x8000_0000 + tg0 * 0x4000 + 0x3500 + t0sz;
    FieldIs(tcr, 0x100, ips * 0x40_0000 + 0x20_0000 + tg0 * 0x10 + 0xD, 4, 1, t0sz);
    FieldIs(tcr, 0x400, ips * 0x10_0000 + 0x8_0000 + tg0 * 4 + 3, 4, 1, 0x100 + t0sz);
    FieldIs(tcr, 0x1000, ips * 0x4_0000 + 0x2_0000 + tg0, 4, 3, 0x500 + t0sz);
    FieldIs(tcr, 0x8000_0000, ips, 2, 1, tg0 * 0x4000 + 0x3500 + t0sz);
  }

  /** Reads the field at `place` with `size` values out of a word given by its parts. */
  lemma FieldIs(x: nat, place: nat, above: nat, size: nat, field: nat, below: nat)
    requires below < place && field < size && x == (above * size + field) * place + below
    ensures x / place % size == field
  {
    RemainderIs(x, place, above * size + field, below);
    RemainderIs(above * size + field, size, above, field);
  }

  /** What lies below `Space` can be resolved by the root table. */
  function Space(c: Config): nat
  {
    if c.g.Granule64K? then 0x400_0000_0000
    else if c.start == 0 then ADDR_LIMIT
    else if c.start == 1 then 0x80_0000_0000
    else 0x4000_0000
  }

  lemma BelowSpace(c: Config, va: nat)
    requires c.Valid() && va < Space(c)
    ensures InRange(c, va)
  {
    BlkIsQuotient(c.g, va, c.start);
  }

  // ---- The rounds of mmu_add_map ----

  ghost predicate AtRound(g: Granule, r: Region, ops0: seq<Op>, ops: seq<Op>, k: nat, virt: nat, phys: nat,
                          mapSize: nat)
    requires RegionOk(g, r) && r.maxLevel <= 3
  {
    && k <= Rounds(g, r)
    && virt == Advance(g, r.maxLevel, r.virt, k)
    && phys == Advance(g, r.maxLevel, r.phys, k)
    && mapSize == Advance(g, r.maxLevel, 0, k)
    && ops == ops0 + RegionOps(g, r, k)
  }

  lemma RegionStart(g: Granule, r: Region, ops: seq<Op>)
    requires RegionOk(g, r)
    ensures r.maxLevel <= 3 ==> AtRound(g, r, ops, ops, 0, r.virt, r.phys, 0)
  {
    if r.maxLevel <= 3 {
      assert ops + RegionOps(g, r, 0) == ops;
    }
  }

  /** The loop condition holds exactly before the last round is done. */
  lemma MoreRounds(g: Granule, r: Region, k: nat)
    requires RegionOk(g, r) && r.maxLevel <= 3 && k <= Rounds(g, r)
    ensures Advance(g, r.maxLevel, 0, k) < r.size <==> k < Rounds(g, r)
  {
    var b, n := BlockSize(g, r.maxLevel), Rounds(g, r);
    AdvanceIs(g, r.maxLevel, 0, k);
    if k < n {
      MulGap(k, n, b);
      RoundsTimesBlock(r.size, b);
    } else {
      RoundsCover(r.size, b);
    }
  }

  lemma RoundsCover(size: nat, b: nat)
    requires b > 0
    ensures size <= (size + b - 1) / b * b
  {
    var x := size + b - 1;
    assert x == x / b * b + x % b;
  }

  lemma RoundFacts(c: Config, r: Region, ops0: seq<Op>, ops: seq<Op>, k: nat, virt: nat, phys: nat, mapSize: nat)
    requires RegionOk(c.g, r) && r.maxLevel <= 3 && r.virt + r.size <= Space(c)
    requires AtRound(c.g, r, ops0, ops, k, virt, phys, mapSize) && mapSize < r.size
    ensures k < Rounds(c.g, r)
    ensures virt < Space(c) && phys % 0x1000 == 0 && phys < ADDR_LIMIT
  {
    MoreRounds(c.g, r, k);
    RoundInside(c.g, r, k);
  }

  lemma NextRound(c: Config, r: Region, ops0: seq<Op>, ops: seq<Op>, k: nat, virt: nat, phys: nat, mapSize: nat)
    requires c.Valid() && RegionOk(c.g, r) && c.start < r.maxLevel <= 3 && OpsInside(c, ops)
    requires AtRound(c.g, r, ops0, ops, k, virt, phys, mapSize) && k < Rounds(c.g, r)
    ensures OpAt(c.g, r, k) == Op(r.maxLevel, virt, phys, r.attrs)
    ensures ops0 + RegionOps(c.g, r, k + 1) == ops + [OpAt(c.g, r, k)]
    ensures OpsInside(c, ops + [OpAt(c.g, r, k)])
    ensures NeededTables(c, ops + [OpAt(c.g, r, k)]) == WithPath(c, NeededTables(c, ops), virt, r.maxLevel)
    ensures var b := BlockSize(c.g, r.maxLevel);
            AtRound(c.g, r, ops0, ops + [OpAt(c.g, r, k)], k + 1, virt + b, phys + b, mapSize + b)
  {
    NeededSnoc(c, ops, OpAt(c.g, r, k));
    assert ops0 + RegionOps(c.g, r, k + 1) == ops + [OpAt(c.g, r, k)];
  }

  lemma NoConflictSnoc(g: Granule, ops: seq<Op>, op: Op)
    requires OpsOk(ops) && op.level <= 3 && !Blocked(g, ops, op.va, op.level)
    ensures OpsOk(ops + [op])
    ensures NoConflict(g, ops) ==> NoConflict(g, ops + [op])
  {
    assert (ops + [op])[..|ops|] == ops;
  }

  lemma AllRounds(g: Granule, r: Region, ops0: seq<Op>, ops: seq<Op>, k: nat, virt: nat, phys: nat, mapSize: nat)
    requires RegionOk(g, r) && mapSize >= r.size
    requires if r.maxLevel <= 3 then AtRound(g, r, ops0, ops, k, virt, phys, mapSize) else mapSize == 0 && ops == ops0
    ensures r.size == 0 || r.maxLevel <= 3
    ensures ops == ops0 + RegionOps(g, r, Rounds(g, r))
  {
    if r.maxLevel <= 3 {
      MoreRounds(g, r, k);
    }
  }

  lemma StartProgress(c: Config, tabs: Tables, own: seq<Owner>, ops: seq<Op>, va: nat)
    requires Represents(c, tabs, own, ops) && Keys(own) == NeededTables(c, ops) && InRange(c, va)
    ensures c.Valid() && Progress(c, tabs, own, ops, va, c.start)
  {
  }

  lemma EntryInside(c: Config, tabs: Tables, own: seq<Owner>, t: nat)
    requires WellFormed(c, tabs, own) && t < |own|
    ensures t < |tabs| == |own| && |tabs[t]| == Entries(c.g)
  {
  }

  lemma TableFits(c: Config, words: seq<U64>, tabs: Tables, own: seq<Owner>)
    requires Walkable(c, words, tabs, own)
    ensures c.base % 4 == 0 && TableWord(c, |tabs|) < U64_SIZE
  {
    var t := |tabs| - 1;
    TableInside(c, words, tabs, own, t, Entries(c.g) - 1);
    var q := TableQuarter(c, |tabs|);
  }

  lemma PutStores(c: Config, words: seq<U64>, tabs: Tables, own: seq<Owner>, t: nat, i: nat, w: U64)
    requires Shaped(c, tabs, own) && Stores(c, words, tabs) && t < |tabs| && i < Entries(c.g)
    ensures Slot(c.g, t, i) < |words|
    ensures Stores(c, words[Slot(c.g, t, i) := w], Put(tabs, t, i, w))
  {
    assert tabs[t][i] == words[Slot(c.g, t, i)];
    var tabs' := Put(tabs, t, i, w);
    forall u, j | 0 <= u < |tabs'| && 0 <= j < |tabs'[u]|
      ensures Slot(c.g, u, j) < |words| && words[Slot(c.g, t, i) := w][Slot(c.g, u, j)] == tabs'[u][j]
    {
      assert tabs[u][j] == words[Slot(c.g, u, j)];
      if Slot(c.g, u, j) == Slot(c.g, t, i) {
        SlotInjective(c.g, u, j, t, i);
      }
    }
  }

  lemma StoresBelow(c: Config, words: seq<U64>, words': seq<U64>, tabs: Tables, own: seq<Owner>)
    requires Shaped(c, tabs, own) && Stores(c, words, tabs) && |words'| == |words|
    requires Slot(c.g, |tabs|, 0) <= |words|
    requires forall j :: 0 <= j < Slot(c.g, |tabs|, 0) ==> words'[j] == words[j]
    ensures Stores(c, words', tabs)
  {
    forall u, j | 0 <= u < |tabs| && 0 <= j < |tabs[u]|
      ensures Slot(c.g, u, j) < |words'| && words'[Slot(c.g, u, j)] == tabs[u][j]
    {
      assert Slot(c.g, u, j) < Slot(c.g, |tabs|, 0);
    }
  }

  lemma NewTableStores(c: Config, words: seq<U64>, tabs: Tables, t: nat, i: nat)
    requires Stores(c, words, tabs)
    requires forall j :: 0 <= j < Entries(c.g) ==> Slot(c.g, |tabs|, j) < |words| && words[Slot(c.g, |tabs|, j)] == 0
    ensures Stores(c, words, tabs + [ZeroTable(c.g)])
  {
    var tabs' := tabs + [ZeroTable(c.g)];
    forall u, j | 0 <= u < |tabs'| && 0 <= j < |tabs'[u]|
      ensures Slot(c.g, u, j) < |words| && words[Slot(c.g, u, j)] == tabs'[u][j]
    {
      if u < |tabs| {
        assert tabs[u][j] == words[Slot(c.g, u, j)];
      }
    }
  }

  lemma LinkWord(c: Config, n: nat, words: nat)
    requires c.base % TableBytes(c.g) == 0 && c.base + 8 * words <= ADDR_LIMIT && TableOffset(c.g, n + 1) <= 8 * words
    ensures Or(PTE_TYPE_TABLE, c.base + TableOffset(c.g, n)) == TableWord(c, n) < U64_SIZE
    ensures c.base % 4 == 0 && TableWord(c, n) % 4 == 3
  {
    hide Or;
    var q := TableQuarter(c, n);
    LinkBits(q);
    assert Pow2(2) == 4 by { Pow2Values(); }
    OrAdd(q, 3, 2, 4);
  }

  lemma TableQuarter(c: Config, n: nat) returns (q: nat)
    requires c.base % TableBytes(c.g) == 0
    ensures c.base + TableOffset(c.g, n) == q * 4 && c.base % 4 == 0
  {
    if c.g.Granule4K? {
      var b := c.base / 0x1000;
      assert c.base == b * 0x1000;
      q := 0x400 * (b + n);
    } else {
      var b := c.base / 0x1_0000;
      assert c.base == b * 0x1_0000;
      q := 0x4000 * (b + n);
    }
  }

  lemma LinkBits(q: nat)
    ensures (q * 4 + 3) % 4 == 3
  {
  }

  lemma LeafType(phys: nat, attrs: nat, level: nat)
    requires phys % 0x1000 == 0 && phys < ADDR_LIMIT && AttrsOk(attrs)
    ensures LeafWord(phys, attrs, level) % 4 == if level == 3 then 3 else 1
  {
    hide LeafWord, AttrsOk;
    LeafWordSum(phys, attrs, level);
    assert attrs % 4 == 0 by { AttrsDivisible(attrs); }
    SumDivisible(phys, attrs);
    RemainderIs(LeafWord(phys, attrs, level), 4, (phys + attrs) / 4, if level == 3 then 3 else 1);
  }

  lemma AttrsDivisible(attrs: nat)
    requires AttrsOk(attrs)
    ensures attrs % 4 == 0
  {
  }

  lemma TableBelow(c: Config, words: seq<U64>, tabs: Tables, own: seq<Owner>, va: nat, i: nat, t: nat) returns (k: nat)
    requires Walkable(c, words, tabs, own) && InRange(c, va) && c.start <= i < 3
    requires TableAt(c, tabs, own, va, i) == Some(t) && tabs[t][Index(c.g, va, i)] % 4 == 3
    ensures TableAt(c, tabs, own, va, i + 1) == Some(k)
    ensures And(tabs[t][Index(c.g, va, i)], TableAddrMask(c.g)) == c.base + TableOffset(c.g, k)
  {
    k := ChildResolves(c, tabs, own, t, i, va);
    TableInside(c, words, tabs, own, k, 0);
    TableWordAddress(c, k);
  }

  lemma {:induction false} NoTableBelow(c: Config, tabs: Tables, own: seq<Owner>, va: nat, i: nat, level: nat)
    requires WellFormed(c, tabs, own) && InRange(c, va) && c.start <= i <= 3
    requires TableAt(c, tabs, own, va, i).Some?
    requires tabs[TableAt(c, tabs, own, va, i).value][Index(c.g, va, i)] % 4 != 3
    ensures i < level <= 3 ==> TableAt(c, tabs, own, va, level) == None
  {
    if i + 1 < level <= 3 {
      NoTableBelow(c, tabs, own, va, i, level - 1);
    }
  }

  lemma NotBlocked(c: Config, tabs: Tables, own: seq<Owner>, ops: seq<Op>, va: nat, level: nat)
    requires Represents(c, tabs, own, ops) && InRange(c, va) && c.start <= level <= 3
    requires TableAt(c, tabs, own, va, level).Some?
    ensures !Blocked(c.g, ops, va, level)
  {
    hide LeafWord;
    LookupVia(c, tabs, own, va, level);
    LeafDeep(c, tabs, own, TableAt(c, tabs, own, va, level).value, level, va);
    assert Lookup(c, tabs, own, va) == LeafOf(Painted(c.g, ops, va));
  }

  lemma {:induction false} LeafDeep(c: Config, tabs: Tables, own: seq<Owner>, t: nat, level: nat, va: nat)
    requires WellFormed(c, tabs, own) && c.start <= level <= 3 && Resolves(c, own, t, level, va)
    ensures var leaf := LeafFrom(c, tabs, own, t, level, va); leaf.Some? ==> level <= leaf.value.level
    decreases 3 - level
  {
    if level < 3 && tabs[t][Index(c.g, va, level)] % 4 == 3 {
      var k := ChildResolves(c, tabs, own, t, level, va);
      LeafDeep(c, tabs, own, k, level + 1, va);
    }
  }

  /** A table that is missing on the way to `va` is one more than the arena holds. */
  lemma OutOfTables(c: Config, tabs: Tables, own: seq<Owner>, ops: seq<Op>, va: nat, level: nat)
    requires Represents(c, tabs, own, ops) && Linked(c, tabs, own) && InRange(c, va) && c.start <= level < 3
    requires TableAt(c, tabs, own, va, level).Some? && Progress(c, tabs, own, ops, va, level)
    requires tabs[TableAt(c, tabs, own, va, level).value][Index(c.g, va, level)] % 4 == 0
    requires c.base % 4 == 0 && TableWord(c, |tabs|) < U64_SIZE
    ensures |WithPath(c, NeededTables(c, ops), va, level + 1)| == |tabs| + 1
  {
    var t, i := TableAt(c, tabs, own, va, level).value, Index(c.g, va, level);
    var key := (level + 1, Blk(c.g, va, level));
    SplitJoin(c.g, Blk(c.g, va, level));
    NewKey(c, tabs, own, t, i);
    PathStep(c, NeededTables(c, ops), va, level);
  }

  lemma NewKey(c: Config, tabs: Tables, own: seq<Owner>, t: nat, i: nat)
    requires CanGrow(c, tabs, own, t, i)
    ensures (own[t].level + 1, Join(c.g, own[t].prefix, i)) !in Keys(own)
  {
    forall u | 0 <= u < |own| ensures Key(own[u]) != (own[t].level + 1, Join(c.g, own[t].prefix, i)) {
      GrowKeyFresh(c, tabs, own, t, i, u);
    }
  }

  lemma LevelDone(c: Config, tabs: Tables, own: seq<Owner>, tabs': Tables, own': seq<Owner>, ops: seq<Op>, va: nat,
                  level: nat)
    requires Represents(c, tabs, own, ops) && Linked(c, tabs, own) && InRange(c, va) && c.start <= level < 3
    requires TableAt(c, tabs, own, va, level).Some? && Progress(c, tabs, own, ops, va, level)
    requires var t, i := TableAt(c, tabs, own, va, level).value, Index(c.g, va, level);
             if tabs[t][i] % 4 == 0
             then CanGrow(c, tabs, own, t, i) && tabs' == Grow(c, tabs, t, i) && own' == GrowOwners(c, own, t, i)
             else tabs' == tabs && own' == own
    ensures Represents(c, tabs', own', ops) && Progress(c, tabs', own', ops, va, level + 1)
  {
    hide LeafWord, Painted, Blk;
    if tabs[TableAt(c, tabs, own, va, level).value][Index(c.g, va, level)] % 4 == 0 {
      LevelGrown(c, tabs, own, ops, va, level);
    } else if TableAt(c, tabs, own, va, level + 1).Some? {
      var k := TableAt(c, tabs, own, va, level + 1).value;
      PathStep(c, NeededTables(c, ops), va, level);
      assert Key(own[k]) == (level + 1, Blk(c.g, va, level));
      assert Keys(own)[k] in Keys(own);
    } else {
      BlockedBy(c, tabs, own, va, level);
      assert Lookup(c, tabs, own, va) == LeafOf(Painted(c.g, ops, va));
    }
  }

  lemma PathStep(c: Config, keys: seq<TableKey>, va: nat, level: nat)
    requires c.Valid() && c.start <= level < 3
    ensures WithPath(c, keys, va, level + 1) == Include(WithPath(c, keys, va, level), (level + 1, Blk(c.g, va, level)))
    ensures Quot(c.g, Blk(c.g, va, level + 1)) == Blk(c.g, va, level)
  {
  }

  lemma LevelGrown(c: Config, tabs: Tables, own: seq<Owner>, ops: seq<Op>, va: nat, level: nat)
    requires c.Valid() && Represents(c, tabs, own, ops) && Linked(c, tabs, own) && InRange(c, va)
             && c.start <= level < 3
    requires TableAt(c, tabs, own, va, level).Some? && Progress(c, tabs, own, ops, va, level)
    requires CanGrow(c, tabs, own, TableAt(c, tabs, own, va, level).value, Index(c.g, va, level))
    ensures var t, i := TableAt(c, tabs, own, va, level).value, Index(c.g, va, level);
            var tabs', own' := Grow(c, tabs, t, i), GrowOwners(c, own, t, i);
            Represents(c, tabs', own', ops) && Progress(c, tabs', own', ops, va, level + 1)
  {
    hide LeafWord, Painted, LeafFrom, WellFormed, Linked, Grow, Blk;
    var t, i := TableAt(c, tabs, own, va, level).value, Index(c.g, va, level);
    GrowRepresents(c, tabs, own, t, i, ops);
    GrowReaches(c, tabs, own, va, level);
    KeysGrow(c, own, t, i);
    PathStep(c, NeededTables(c, ops), va, level);
    SplitJoin(c.g, Blk(c.g, va, level));
    NewKey(c, tabs, own, t, i);
  }
}
