/** The region table of demos/kp920/bsp/mmu.c, and what installing it maps. */
module Kunpeng {
  import opened Bits
  import opened Vmsa
  import opened PageTree
  import opened Paging
  import opened PagingTheorems
  import opened Mmu
  import opened MmuReach
  import opened MmuPool

  const MMU_DEVICE_RWX: U64 := 0x400
  const MMU_CACHE_SHARE_RWX: U64 := 0x710

  function Device(addr: U64, size: U64): Region { Region(addr, addr, size, 2, MMU_DEVICE_RWX) }

  function KunpengMemory(): seq<Region>
  {
    [Device(0x2027_8000_0000, 0x3_0000), Device(0x2027_8010_0000, 0xA0_0000), Device(0x2027_80B0_0000, 0x20_0000),
     Region(0x2027_8300_0000, 0x2027_8300_0000, 0x7D00_0000, 2, MMU_CACHE_SHARE_RWX)]
  }

  function KunpengDevices(): seq<Region>
  {
    [Device(0xAA00_0000, 0x100_0000), Device(0xAE00_0000, 0x100_0000), Device(0xA810_0000, 0x10_0000),
     Device(0x2000_A810_0000, 0x10_0000), Device(0x9408_0000, 0x4000), Device(0xD000_0000, 0x1000_0000)]
  }

  /** The free reserved slots behind the fixed regions. */
  function KunpengFree(n: nat): seq<Region>
  {
    seq(n, _ => Region(INVALID_ADDR, INVALID_ADDR, 0, 2, MMU_DEVICE_RWX))
  }

  /** g_mem_map_info as mmu_setup_pgtables first receives it, with the two optional regions as configured. */
  function KunpengTable(gdbStub: bool, spi: bool): seq<Region>
  {
    KunpengMemory() + (if gdbStub then [Device(0x2027_8003_0000, 0x1_0000)] else [])
    + KunpengDevices() + (if spi then [Device(0x2_0107_0000, 0x20_0000)] else []) + KunpengFree(8)
  }

  // ---- Which blocks its regions have ----

  lemma KunpengBlocks(r: Region, va: nat)
    requires r.virt == r.phys != INVALID_ADDR && r.maxLevel == 2
    ensures Covers(Granule4K, r, va)
            <==> r.virt / 0x20_0000 <= va / 0x20_0000 < r.virt / 0x20_0000 + (r.size + 0x1F_FFFF) / 0x20_0000
  {
    BlkIsQuotient(Granule4K, va, 2);
    BlkIsQuotient(Granule4K, r.virt, 2);
  }

  lemma KunpengRegion(r: Region)
    requires r.virt == r.phys && r.phys % 0x1000 == 0 && r.maxLevel == 2 && r.size % 0x1000 == 0
    requires r.virt + r.size <= 0x2028_0000_0000 && r.attrs in {MMU_DEVICE_RWX, MMU_CACHE_SHARE_RWX}
    ensures RegionOk(Granule4K, r)
  {
  }

  lemma KunpengSound(gdbStub: bool, spi: bool)
    ensures var rs := KunpengTable(gdbStub, spi);
            RegionsOk(Granule4K, rs) && Identity(rs) && VaBits(MaxAddr(rs)) == 48
  {
    hide RegionOk, MaxAddr;
    var rs := KunpengTable(gdbStub, spi);
    forall i | 0 <= i < |rs| ensures RegionOk(Granule4K, rs[i]) && rs[i].virt == rs[i].phys {
      KunpengRegion(rs[i]);
    }
    MaxAddrBounds(Granule4K, rs);
    assert rs[3].virt + rs[3].size <= MaxAddr(rs);
  }

  /** The last region of a list to cover an address is the one that maps it. */
  lemma {:induction false} LastCovering(g: Granule, rs: seq<Region>, k: nat, va: nat)
    requires k < |rs| && Covers(g, rs[k], va) && forall j :: k < j < |rs| ==> !Covers(g, rs[j], va)
    ensures Expected(g, rs, va) == RegionMap(g, rs[k], va)
  {
    hide Covers, RegionMap;
    if k < |rs| - 1 {
      LastCovering(g, rs[..|rs| - 1], k, va);
    }
  }

  /**
   The last megabyte of the DMA region is not among its blocks but in that of the region behind it, whose own last
   megabyte is in no block and faults. This holds for the whole table, with or without its optional regions.
   */
  lemma KunpengTails(gdbStub: bool, spi: bool)
    ensures var rs := KunpengTable(gdbStub, spi);
            && rs[1].virt <= 0x2027_80A0_0000 < rs[1].virt + rs[1].size && !Covers(Granule4K, rs[1], 0x2027_80A0_0000)
            && Expected(Granule4K, rs, 0x2027_80A0_0000) == Mapped(0x2027_80A0_0000, rs[2].attrs)
            && rs[2].virt <= 0x2027_80C0_0000 < rs[2].virt + rs[2].size
            && Expected(Granule4K, rs, 0x2027_80C0_0000) == Fault
  {
    hide RegionMap, Covers;
    var rs := KunpengTable(gdbStub, spi);
    forall i | 0 <= i < |rs|
      ensures Covers(Granule4K, rs[i], 0x2027_80A0_0000) <==> i == 2
      ensures !Covers(Granule4K, rs[i], 0x2027_80C0_0000)
    {
      KunpengCovers(gdbStub, spi, i);
    }
    LastCovering(Granule4K, rs, 2, 0x2027_80A0_0000);
    RegionMapIsOffset(Granule4K, rs[2], 0x2027_80A0_0000);
    ExpectedFault(Granule4K, rs, 0x2027_80C0_0000);
  }

  lemma KunpengCovers(gdbStub: bool, spi: bool, i: nat)
    requires i < |KunpengTable(gdbStub, spi)|
    ensures Covers(Granule4K, KunpengTable(gdbStub, spi)[i], 0x2027_80A0_0000) <==> i == 2
    ensures !Covers(Granule4K, KunpengTable(gdbStub, spi)[i], 0x2027_80C0_0000)
  {
    hide Covers;
    var r := KunpengTable(gdbStub, spi)[i];
    if r.phys == INVALID_ADDR {
      FreeCoversNothing(r, 0x2027_80A0_0000);
      FreeCoversNothing(r, 0x2027_80C0_0000);
    } else {
      KunpengBlocks(r, 0x2027_80A0_0000);
      KunpengBlocks(r, 0x2027_80C0_0000);
    }
  }

  lemma FreeCoversNothing(r: Region, va: nat)
    requires r.phys == INVALID_ADDR
    ensures !Covers(Granule4K, r, va)
  {
  }

  /** Wherever its tables are, what the table asks for is what the processor sees. */
  lemma KunpengReachable(gdbStub: bool, spi: bool, c: Config, len: nat)
    requires var rs := KunpengTable(gdbStub, spi);
             && c == ArenaConfig(Granule4K, c.base, rs) && c.base + len <= ADDR_LIMIT
             && RegionsOk(Granule4K, rs) && Installable(rs, c.base, len, Granule4K)
    ensures var rs := KunpengTable(gdbStub, spi); Sound(c, rs) && Reachable(c, rs)
  {
    hide KunpengTable, RegionOk, MaxAddr, AllOps, NeededTables, Reachable, NoConflict;
    KunpengSound(gdbStub, spi);
    WideReachable(c, KunpengTable(gdbStub, spi));
  }

  // ---- After requests and releases ----

  /** A request the architecture allows: 4 KB aligned, and all its blocks below 2^48. */
  predicate KunpengCall(call: Call)
  {
    call.RequestCall? ==>
      && call.addr % 0x1000 == 0 && call.addr + call.length <= ADDR_LIMIT
      && call.addr + (call.length + 0x1F_FFFF) / 0x20_0000 * 0x20_0000 <= ADDR_LIMIT
  }

  lemma KunpengAskable(gdbStub: bool, spi: bool, call: Call)
    requires KunpengCall(call)
    ensures Askable(Granule4K, KunpengTable(gdbStub, spi), call)
  {
    var rs := KunpengTable(gdbStub, spi);
    if call.RequestCall? {
      forall i | 0 <= i < |rs| ensures RegionOk(Granule4K, Used(rs[i], call.addr, call.length)) {
        KunpengSlot(gdbStub, spi, i);
        SlotAskable(rs[i], call);
      }
    }
  }

  lemma KunpengSlot(gdbStub: bool, spi: bool, i: nat)
    requires i < |KunpengTable(gdbStub, spi)|
    ensures var r := KunpengTable(gdbStub, spi)[i]; r.maxLevel == 2 && r.attrs in {MMU_DEVICE_RWX, MMU_CACHE_SHARE_RWX}
  {
  }

  lemma SlotAskable(r: Region, call: Call)
    requires KunpengCall(call) && call.RequestCall?
    requires r.maxLevel == 2 && r.attrs in {MMU_DEVICE_RWX, MMU_CACHE_SHARE_RWX}
    ensures RegionOk(Granule4K, Used(r, call.addr, call.length))
  {
  }

  /** The boot table and its pool, with all reserved slots free. */
  function KunpengPool(gdbStub: bool, spi: bool): (p: Pool)
    ensures p.Shaped() && p.Sid() >= 10
  {
    Pool(KunpengTable(gdbStub, spi), RESERVED_NUM)
  }

  /** After every run of allowed requests and of releases, a rebuild that succeeds has all its mapping within reach. */
  lemma KunpengRunReachable(gdbStub: bool, spi: bool, calls: seq<Call>, c: Config, len: nat)
    requires (forall k :: 0 <= k < |calls| ==> KunpengCall(calls[k])) && c.base + len <= ADDR_LIMIT
    requires c == ArenaConfig(Granule4K, c.base, Run(KunpengPool(gdbStub, spi), calls).slots)
    ensures var rs := Run(KunpengPool(gdbStub, spi), calls).slots;
            && RegionsOk(Granule4K, rs) && Identity(rs) && VaBits(MaxAddr(rs)) == 48
            && (Installable(rs, c.base, len, Granule4K) ==> Sound(c, rs) && Reachable(c, rs))
  {
    hide KunpengTable, RegionOk, MaxAddr, AllOps, NeededTables, Reachable, NoConflict, Run, Askable, KunpengCall;
    var p := KunpengPool(gdbStub, spi);
    var rs := Run(p, calls).slots;
    KunpengSound(gdbStub, spi);
    forall k | 0 <= k < |calls| ensures Askable(Granule4K, p.slots, calls[k]) {
      KunpengAskable(gdbStub, spi, calls[k]);
    }
    RunRegionsOk(Granule4K, p, calls);
    RunIdentity(p, calls);
    KunpengRunWide(gdbStub, spi, calls);
    if Installable(rs, c.base, len, Granule4K) {
      WideReachable(c, rs);
    }
  }

  lemma KunpengRunWide(gdbStub: bool, spi: bool, calls: seq<Call>)
    requires RegionsOk(Granule4K, Run(KunpengPool(gdbStub, spi), calls).slots)
    ensures VaBits(MaxAddr(Run(KunpengPool(gdbStub, spi), calls).slots)) == 48
  {
    hide RegionOk, MaxAddr, Run;
    var p := KunpengPool(gdbStub, spi);
    var rs := Run(p, calls).slots;
    RunShape(p, calls);
    assert rs[..p.Sid()][3] == p.slots[..p.Sid()][3];
    assert rs[3] == p.slots[3] == KunpengMemory()[3];
    MaxAddrBounds(Granule4K, rs);
  }
}
