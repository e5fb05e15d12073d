/**
 When the processor reaches all that mmu_setup_pgtables installed. mmu_get_tcr announces a physical address
 space as large as the virtual one, whatever the physical addresses of the regions are.
 */
module MmuReach {
  import opened Bits
  import opened Options
  import opened Vmsa
  import opened PageTree
  import opened Paging
  import opened PagingTheorems
  import opened Mmu
  import opened MmuPool

  function Limit(rs: seq<Region>): nat
  {
    Pow2(VaBits(MaxAddr(rs)))
  }

  ghost predicate Sound(c: Config, rs: seq<Region>)
  {
    c.Valid() && RegionsOk(c.g, rs) && OpsOk(AllOps(c.g, rs)) && OpsInside(c, AllOps(c.g, rs))
  }

  /** No output address asked for is at or above the announced size. */
  ghost predicate OutputsBelow(g: Granule, rs: seq<Region>)
  {
    forall va: nat :: va < Limit(rs) ==> Capped(Limit(rs), Expected(g, rs, va)) == Expected(g, rs, va)
  }

  /** All tables needed lie below the announced size. */
  ghost predicate ArenaBelow(c: Config, rs: seq<Region>)
    requires Sound(c, rs)
  {
    c.base + TableOffset(c.g, |NeededTables(c, AllOps(c.g, rs))|) <= Limit(rs)
  }

  /** With the tables below the announced size it is the output addresses that decide. */
  lemma ReachableByOutputs(c: Config, rs: seq<Region>)
    requires Sound(c, rs) && ArenaBelow(c, rs)
    ensures Reachable(c, rs) <==> OutputsBelow(c.g, rs)
  {
    hide Expected, Painted, NeededTables, Pow2, VaBits, MaxAddr, AllOps, RegionOk;
    forall va: nat | va < Limit(rs)
      ensures InReach(c, rs, Limit(rs), va) <==> Capped(Limit(rs), Expected(c.g, rs, va)) == Expected(c.g, rs, va)
    {
      MappedWherePainted(c.g, rs, va);
    }
  }

  // ---- Identity maps ----

  ghost predicate Identity(rs: seq<Region>)
  {
    forall i :: 0 <= i < |rs| ==> rs[i].virt == rs[i].phys
  }

  /** Where virtual and physical addresses agree in every region, a mapped address is mapped to itself. */
  lemma {:induction false} IdentityOutput(g: Granule, rs: seq<Region>, va: nat)
    requires Identity(rs)
    ensures Expected(g, rs, va).Mapped? ==> Expected(g, rs, va).pa == va
  {
    hide Covers, RegionMap;
    if rs != [] {
      var init, r := rs[..|rs| - 1], rs[|rs| - 1];
      IdentityOutput(g, init, va);
      if Covers(g, r, va) {
        LevelOfCovers(g, r, va);
        RegionMapIsOffset(g, r, va);
      }
    }
  }

  lemma LevelOfCovers(g: Granule, r: Region, va: nat)
    requires Covers(g, r, va)
    ensures r.maxLevel <= 3
  {
  }

  /** The tables that lead to `va`, if it is mapped, lie below the announced size. */
  ghost predicate TablesReach(c: Config, rs: seq<Region>, va: nat)
    requires Sound(c, rs)
  {
    var op := Painted(c.g, AllOps(c.g, rs), va);
    op.Some? ==> TablesBelow(c, NeededTables(c, AllOps(c.g, rs)), va, op.value.level, Limit(rs))
  }

  /**
   An identity map is within reach exactly as far as its tables are, and so always is with the tables below the
   announced size.
   */
  lemma IdentityReachable(c: Config, rs: seq<Region>)
    requires Sound(c, rs) && Identity(rs)
    ensures Reachable(c, rs) <==> forall va: nat :: va < Limit(rs) ==> TablesReach(c, rs, va)
    ensures ArenaBelow(c, rs) ==> Reachable(c, rs)
  {
    hide Expected, Painted, NeededTables, Pow2, VaBits, MaxAddr, AllOps, RegionOk, TablesBelow;
    forall va: nat | va < Limit(rs)
      ensures Capped(Limit(rs), Expected(c.g, rs, va)) == Expected(c.g, rs, va)
      ensures InReach(c, rs, Limit(rs), va) <==> TablesReach(c, rs, va)
    {
      IdentityOutput(c.g, rs, va);
    }
    assert OutputsBelow(c.g, rs);
    if ArenaBelow(c, rs) {
      ReachableByOutputs(c, rs);
    }
  }

  /** A list that needs 48 bits is always within reach: no address in a descriptor is larger. */
  lemma WideReachable(c: Config, rs: seq<Region>)
    requires Sound(c, rs) && VaBits(MaxAddr(rs)) == 48
    requires c.base + TableOffset(c.g, |NeededTables(c, AllOps(c.g, rs))|) <= ADDR_LIMIT
    ensures Reachable(c, rs)
  {
    hide Expected, Painted, NeededTables, Pow2, VaBits, MaxAddr, AllOps, RegionOk;
    assert Limit(rs) == ADDR_LIMIT by { Pow2Values(); }
    forall va: nat | va < Limit(rs) ensures Capped(Limit(rs), Expected(c.g, rs, va)) == Expected(c.g, rs, va) {
      OutputBounded(c.g, rs, va);
    }
    ReachableByOutputs(c, rs);
  }

  lemma {:induction false} OutputBounded(g: Granule, rs: seq<Region>, va: nat)
    requires RegionsOk(g, rs)
    ensures Expected(g, rs, va).Mapped? ==> Expected(g, rs, va).pa < ADDR_LIMIT
  {
    hide Covers, RegionMap, RegionOk;
    if rs != [] {
      var init, r := rs[..|rs| - 1], rs[|rs| - 1];
      OutputBounded(g, init, va);
      if Covers(g, r, va) {
        RegionOutputBounded(g, r, va);
      }
    }
  }

  lemma RegionOutputBounded(g: Granule, r: Region, va: nat)
    requires RegionOk(g, r) && Covers(g, r, va)
    ensures RegionMap(g, r, va).Mapped? && RegionMap(g, r, va).pa < ADDR_LIMIT
  {
    hide Blk, Scale, BlockSize, Rounds, Offset;
    var b := BlockSize(g, r.maxLevel);
    OutputInBlocks(g, r, va);
    assert r.phys / b * b <= r.phys;
    Distribute(r.phys / b, Rounds(g, r), b);
  }

  /** An output address lies in the blocks that start with the block of `phys`. */
  lemma OutputInBlocks(g: Granule, r: Region, va: nat)
    requires Covers(g, r, va)
    ensures RegionMap(g, r, va).Mapped?
    ensures RegionMap(g, r, va).pa < (r.phys / BlockSize(g, r.maxLevel) + Rounds(g, r)) * BlockSize(g, r.maxLevel)
  {
    hide Blk, Scale, BlockSize, Rounds, Offset;
    var b, n := BlockSize(g, r.maxLevel), Rounds(g, r);
    var k := Blk(g, va, r.maxLevel) - Blk(g, r.virt, r.maxLevel);
    BlkIsQuotient(g, r.phys, r.maxLevel);
    OffsetIsRemainder(g, va, r.maxLevel);
    ScaleIsProduct(g, r.phys / b + k, r.maxLevel);
    MulGap(r.phys / b + k, r.phys / b + n, b);
  }

  // ---- A list that asks for more than is announced ----

  /** The Access flag, 0x400, is set. */
  function FarRegion(): Region { Region(0, 0x100_0000_0000, 0x20_0000, 2, 0x400) }

  lemma FarRegionOk()
    ensures RegionsOk(Granule4K, [FarRegion()]) && Rounds(Granule4K, FarRegion()) == 1
  {
  }

  lemma FarMapping()
    ensures Expected(Granule4K, [FarRegion()], 0) == Mapped(0x100_0000_0000, 0x400)
  {
    hide RegionMap, Rounds;
    var r := FarRegion();
    FarRegionOk();
    BlkIsQuotient(Granule4K, 0, 2);
    RegionMapIsOffset(Granule4K, r, 0);
  }

  lemma FarSpace()
    ensures MaxAddr([FarRegion()]) == 0x20_0000
  {
    assert [FarRegion()][..0] == [];
  }

  lemma FarTables(c: Config)
    requires c == ArenaConfig(Granule4K, c.base, [FarRegion()])
    ensures RegionsOk(Granule4K, [FarRegion()]) && Sound(c, [FarRegion()]) && Feasible(c, [FarRegion()], 0x2000)
  {
    hide RegionOk, AllOps, MaxAddr, NoConflict, NeededTables, Expected;
    FarRegionOk();
    FarMapping();
    FarSpace();
    FarOps();
    OneOpFits(c, OpAt(Granule4K, FarRegion(), 0));
  }

  lemma FarOps()
    ensures RegionOk(Granule4K, FarRegion()) && RegionsOk(Granule4K, [FarRegion()])
    ensures AllOps(Granule4K, [FarRegion()]) == [OpAt(Granule4K, FarRegion(), 0)]
    ensures OpAt(Granule4K, FarRegion(), 0).level == 2
  {
    FarRegionOk();
    var r := FarRegion();
    assert [r][..0] == [] && RegionOps(Granule4K, r, 0) == [];
  }

  /** A single level-2 block needs the root and one more table. */
  lemma OneOpFits(c: Config, op: Op)
    requires c.g == Granule4K && c.start == 1 && op.level == 2
    ensures OpsOk([op]) && OpsInside(c, [op]) && NoConflict(c.g, [op]) && |NeededTables(c, [op])| == 2
  {
    hide Blk;
    assert [op][..0] == [];
    assert NoConflict(c.g, []) && !Blocked(c.g, [], op.va, op.level);
    assert WithPath(c, [(1, 0)], op.va, 1) == [(1, 0)];
  }

  /** One block of low virtual memory at a high physical address: it can be installed, and every access to it faults. */
  lemma FarRegionOutOfReach(c: Config)
    requires c == ArenaConfig(Granule4K, c.base, [FarRegion()])
    ensures RegionsOk(Granule4K, [FarRegion()]) && VaBits(MaxAddr([FarRegion()])) == 32
    ensures Installable([FarRegion()], c.base, 0x2000, Granule4K)
    ensures Intended(Granule4K, [FarRegion()], 0) == Mapped(0x100_0000_0000, 0x400)
    ensures Sound(c, [FarRegion()]) && !Reachable(c, [FarRegion()]) && Effective(c, [FarRegion()], 0) == Fault
  {
    hide Expected, Painted, NeededTables, AllOps, RegionOk, OpsInside, OpsOk, Feasible;
    FarRegionOk();
    FarMapping();
    FarSpace();
    FarTables(c);
    assert Pow2(32) == 0x1_0000_0000 by { Pow2Values(); }
    MappedWherePainted(Granule4K, [FarRegion()], 0);
    assert !InReach(c, [FarRegion()], Limit([FarRegion()]), 0);
  }

  // ---- Disjoint regions ----

  /** The blocks a region asks for end at or below `limit`, if it has any. */
  ghost predicate RegionBelow(g: Granule, r: Region, limit: nat)
  {
    r.phys == INVALID_ADDR || r.maxLevel > 3 || Rounds(g, r) == 0 ||
    (r.phys / BlockSize(g, r.maxLevel) + Rounds(g, r)) * BlockSize(g, r.maxLevel) <= limit
  }

  /**
   With disjoint regions and the tables below the announced size, all is within reach exactly when every region is.
   */
  lemma DisjointReachable(c: Config, rs: seq<Region>)
    requires Sound(c, rs) && ArenaBelow(c, rs) && Disjoint(c.g, rs) && DepthsOk(c, rs)
    requires c.start == StartLevel(c.g, VaBits(MaxAddr(rs)))
    ensures Reachable(c, rs) <==> forall i :: 0 <= i < |rs| ==> RegionBelow(c.g, rs[i], Limit(rs))
  {
    hide Expected, Covers, RegionMap, Blk, Rounds, BlockSize, Pow2, VaBits, MaxAddr, AllOps, RegionOk, NeededTables,
         Apart;
    ReachableByOutputs(c, rs);
    if forall i :: 0 <= i < |rs| ==> RegionBelow(c.g, rs[i], Limit(rs)) {
      forall va: nat | va < Limit(rs) ensures Capped(Limit(rs), Expected(c.g, rs, va)) == Expected(c.g, rs, va) {
        BelowIsCapped(c, rs, va);
      }
    }
    if OutputsBelow(c.g, rs) {
      forall i | 0 <= i < |rs| ensures RegionBelow(c.g, rs[i], Limit(rs)) {
        CappedIsBelow(c, rs, i);
      }
    }
  }

  lemma BelowIsCapped(c: Config, rs: seq<Region>, va: nat)
    requires Disjoint(c.g, rs) && forall i :: 0 <= i < |rs| ==> RegionBelow(c.g, rs[i], Limit(rs))
    ensures Capped(Limit(rs), Expected(c.g, rs, va)) == Expected(c.g, rs, va)
  {
    hide Expected, RegionMap, Blk, BlockSize, Pow2, VaBits, MaxAddr, Apart;
    ExpectedFault(c.g, rs, va);
    if Expected(c.g, rs, va) != Fault {
      var i :| 0 <= i < |rs| && Covers(c.g, rs[i], va);
      DisjointExpected(c.g, rs, i, va);
      OutputInBlocks(c.g, rs[i], va);
      assert RegionBelow(c.g, rs[i], Limit(rs));
    }
  }

  lemma CappedIsBelow(c: Config, rs: seq<Region>, i: nat)
    requires Sound(c, rs) && Disjoint(c.g, rs) && DepthsOk(c, rs) && OutputsBelow(c.g, rs) && i < |rs|
    requires c.start == StartLevel(c.g, VaBits(MaxAddr(rs)))
    ensures RegionBelow(c.g, rs[i], Limit(rs))
  {
    hide Expected, RegionMap, Covers, Limit, VaBits, MaxAddr, Disjoint, DepthsOk, Sound, StartLevel, Rounds, BlockSize;
    var r := rs[i];
    if r.phys != INVALID_ADDR && r.maxLevel <= 3 && Rounds(c.g, r) > 0 {
      var va, x, m := LastBlock(c, rs, i);
      DisjointExpected(c.g, rs, i, va);
      assert Capped(Limit(rs), Expected(c.g, rs, va)) == Expected(c.g, rs, va);
      EndsBelow(x, m, BlockSize(c.g, r.maxLevel));
    }
  }

  /** An address in the last block of a region is mapped to the start of block `x`, and `m` blocks are announced. */
  lemma LastBlock(c: Config, rs: seq<Region>, i: nat) returns (va: nat, x: nat, m: nat)
    requires Sound(c, rs) && DepthsOk(c, rs) && i < |rs| && rs[i].phys != INVALID_ADDR && rs[i].maxLevel <= 3
    requires Rounds(c.g, rs[i]) > 0 && c.start == StartLevel(c.g, VaBits(MaxAddr(rs)))
    ensures var b := BlockSize(c.g, rs[i].maxLevel);
            && x + 1 == rs[i].phys / b + Rounds(c.g, rs[i]) && m * b == Limit(rs)
            && va < Limit(rs) && Covers(c.g, rs[i], va) && RegionMap(c.g, rs[i], va) == Mapped(x * b, rs[i].attrs)
  {
    hide Covers, RegionMap, Limit, Sound, DepthsOk, StartLevel, Rounds, BlockSize, VaBits, MaxAddr;
    var r, b: nat := rs[i], BlockSize(c.g, rs[i].maxLevel);
    var q;
    q, m := LastBlockStart(c, rs, i);
    va := q * b;
    LastBlockOutput(c.g, r, q);
    var p := r.phys / b;
    assert p >= 0 by { QuotientMonotone(0, r.phys, b); }
    x := p + Rounds(c.g, r) - 1;
  }

  /** The last block of a region starts below the announced size, which is a whole number of blocks. */
  lemma LastBlockStart(c: Config, rs: seq<Region>, i: nat) returns (q: nat, m: nat)
    requires Sound(c, rs) && DepthsOk(c, rs) && i < |rs| && rs[i].phys != INVALID_ADDR && rs[i].maxLevel <= 3
    requires Rounds(c.g, rs[i]) > 0 && c.start == StartLevel(c.g, VaBits(MaxAddr(rs)))
    ensures var b := BlockSize(c.g, rs[i].maxLevel);
            && q == rs[i].virt / b + Rounds(c.g, rs[i]) - 1
            && m * b == Limit(rs) && q * b < Limit(rs) && Covers(c.g, rs[i], q * b)
  {
    hide BlockSize, Blk, Pow2, VaBits, MaxAddr, RegionOk, OpsOk, OpsInside, Covers;
    var r := rs[i];
    var b := BlockSize(c.g, r.maxLevel);
    q := r.virt / b + Rounds(c.g, r) - 1;
    m := WholeBlocks(c, rs, i);
    MaxAddrBounds(c.g, rs);
    LastRoundStart(r.virt, r.size, Rounds(c.g, r), m, b);
    LastRoundCovers(c.g, r, q);
  }

  lemma LastRoundCovers(g: Granule, r: Region, q: nat)
    requires r.phys != INVALID_ADDR && r.maxLevel <= 3 && Rounds(g, r) > 0
    requires q == r.virt / BlockSize(g, r.maxLevel) + Rounds(g, r) - 1
    ensures Covers(g, r, q * BlockSize(g, r.maxLevel))
  {
    hide BlockSize, Blk, Rounds;
    var b := BlockSize(g, r.maxLevel);
    BlkIsQuotient(g, r.virt, r.maxLevel);
    BlkIsQuotient(g, q * b, r.maxLevel);
    RemainderIs(q * b, b, q, 0);
  }

  lemma WholeBlocks(c: Config, rs: seq<Region>, i: nat) returns (m: nat)
    requires c.Valid() && DepthsOk(c, rs) && i < |rs| && rs[i].phys != INVALID_ADDR && rs[i].maxLevel <= 3
    ensures m * BlockSize(c.g, rs[i].maxLevel) == Limit(rs)
  {
    hide MaxAddr, VaBits, Pow2, Limit;
    var k := Gigabytes(rs);
    var g, level := c.g, rs[i].maxLevel;
    assert c.start < level;
    m := k * if g.Granule64K? then 0x4000 else if level == 1 then 1 else if level == 2 then 0x200 else 0x4_0000;
  }

  lemma Gigabytes(rs: seq<Region>) returns (k: nat)
    ensures Limit(rs) == k * 0x4000_0000
  {
    hide MaxAddr;
    Pow2Values();
    var bits := VaBits(MaxAddr(rs));
    k := if bits == 32 then 4 else if bits == 36 then 0x40 else if bits == 40 then 0x400
    else if bits == 42 then 0x1000 else if bits == 44 then 0x4000 else 0x4_0000;
  }

  lemma LastRoundStart(virt: nat, size: nat, n: nat, m: nat, b: nat)
    requires b > 0 && n > 0 && n == (size + b - 1) / b && virt + size <= m * b
    ensures (virt / b + n - 1) * b < m * b
  {
    var v, last := virt / b, n - 1;
    assert n * b <= size + b - 1;
    Distribute(v, last, b);
    MulStep(last, b);
    assert v * b <= virt;
  }

  lemma LastBlockOutput(g: Granule, r: Region, q: nat)
    requires r.maxLevel <= 3 && q == r.virt / BlockSize(g, r.maxLevel) + Rounds(g, r) - 1
    requires Covers(g, r, q * BlockSize(g, r.maxLevel))
    ensures var b := BlockSize(g, r.maxLevel);
            RegionMap(g, r, q * b) == Mapped((r.phys / b + Rounds(g, r) - 1) * b, r.attrs)
  {
    hide Blk, Scale, BlockSize, Rounds, Offset;
    var b := BlockSize(g, r.maxLevel);
    BlkIsQuotient(g, r.virt, r.maxLevel);
    BlkIsQuotient(g, r.phys, r.maxLevel);
    BlkIsQuotient(g, q * b, r.maxLevel);
    RemainderIs(q * b, b, q, 0);
    OffsetIsRemainder(g, q * b, r.maxLevel);
    ScaleIsProduct(g, r.phys / b + (Rounds(g, r) - 1), r.maxLevel);
  }

  lemma EndsBelow(x: nat, m: nat, b: nat)
    requires x * b < m * b
    ensures (x + 1) * b <= m * b
  {
    if m <= x {
      MulAtMost(m, x, b);
    } else {
      MulAtMost(x + 1, m, b);
    }
  }

  lemma MulAtMost(x: nat, y: nat, b: nat)
    requires x <= y
    ensures x * b <= y * b
  {
    if x < y {
      MulGap(x, y, b);
    }
  }

  // ---- Tables changed at run time ----

  lemma StepIdentity(p: Pool, call: Call)
    requires p.Shaped() && Identity(p.slots)
    ensures Identity(Step(p, call).slots)
  {
  }

  /** Requests and releases keep an identity map one. */
  lemma {:induction false} RunIdentity(p: Pool, calls: seq<Call>)
    requires p.Shaped() && Identity(p.slots)
    ensures Identity(Run(p, calls).slots)
    decreases |calls|
  {
    hide Identity;
    if calls != [] {
      StepShape(p, calls[0]);
      StepIdentity(p, calls[0]);
      RunIdentity(Step(p, calls[0]), calls[1..]);
    }
  }

  /** Neither touches the fixed regions. */
  lemma {:induction false} RunShape(p: Pool, calls: seq<Call>)
    requires p.Shaped()
    ensures |Run(p, calls).slots| == |p.slots| && Run(p, calls).slots[..p.Sid()] == p.slots[..p.Sid()]
    decreases |calls|
  {
    if calls != [] {
      StepShape(p, calls[0]);
      RunShape(Step(p, calls[0]), calls[1..]);
    }
  }

  /** The region a request asks for is one that the architecture allows, in whatever slot it ends up. */
  ghost predicate Askable(g: Granule, slots: seq<Region>, call: Call)
  {
    call.RequestCall? ==> forall i :: 0 <= i < |slots| ==> RegionOk(g, Used(slots[i], call.addr, call.length))
  }

  lemma FreedOk(g: Granule, r: Region)
    requires RegionOk(g, r)
    ensures RegionOk(g, Freed(r))
  {
    if r.maxLevel <= 3 {
      RemainderIs(BlockSize(g, r.maxLevel) - 1, BlockSize(g, r.maxLevel), 0, BlockSize(g, r.maxLevel) - 1);
    }
  }

  lemma StepRegionsOk(g: Granule, p: Pool, call: Call)
    requires p.Shaped() && RegionsOk(g, p.slots) && Askable(g, p.slots, call)
    ensures RegionsOk(g, Step(p, call).slots)
  {
    hide RegionOk, Find;
    forall i | 0 <= i < |p.slots| ensures RegionOk(g, Freed(p.slots[i])) {
      FreedOk(g, p.slots[i]);
    }
  }

  /** All that a slot keeps is its level and its attributes, so what can be asked stays the same. */
  lemma StepAskable(g: Granule, p: Pool, call: Call, later: Call)
    requires p.Shaped() && Askable(g, p.slots, later)
    ensures Askable(g, Step(p, call).slots, later)
  {
    hide RegionOk, Step;
    StepShape(p, call);
    var slots := Step(p, call).slots;
    if later.RequestCall? {
      forall i | 0 <= i < |slots| ensures RegionOk(g, Used(slots[i], later.addr, later.length)) {
        assert Used(slots[i], later.addr, later.length) == Used(p.slots[i], later.addr, later.length);
      }
    }
  }

  lemma {:induction false} RunRegionsOk(g: Granule, p: Pool, calls: seq<Call>)
    requires p.Shaped() && RegionsOk(g, p.slots) && forall k :: 0 <= k < |calls| ==> Askable(g, p.slots, calls[k])
    ensures RegionsOk(g, Run(p, calls).slots)
    decreases |calls|
  {
    hide RegionsOk, Askable, Step;
    if calls != [] {
      StepShape(p, calls[0]);
      StepRegionsOk(g, p, calls[0]);
      var q, rest := Step(p, calls[0]), calls[1..];
      forall k | 0 <= k < |rest| ensures Askable(g, q.slots, rest[k]) {
        StepAskable(g, p, calls[0], calls[k + 1]);
      }
      RunRegionsOk(g, q, rest);
    }
  }

  /**
   A rebuild after any run from an identity map: it asks for an identity map again, and what it installs with its
   tables below the announced size is all within reach.
   */
  lemma RunReachable(p: Pool, calls: seq<Call>, c: Config)
    requires p.Shaped() && Identity(p.slots) && Sound(c, Run(p, calls).slots) && ArenaBelow(c, Run(p, calls).slots)
    ensures Reachable(c, Run(p, calls).slots)
  {
    hide Sound, ArenaBelow, Reachable, Identity, Run;
    RunIdentity(p, calls);
    IdentityReachable(c, Run(p, calls).slots);
  }
}
