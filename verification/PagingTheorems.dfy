/**
 What the mapping of a region list means for its regions: when a region is mapped at a fixed
 offset, when all of it is mapped, and what disjoint regions guarantee.
 */
module PagingTheorems {
  import opened Bits
  import opened Options
  import opened Vmsa
  import opened PageTree
  import opened Paging
  import opened Mmu

  // ---- Where a region is mapped to ----

  /**
   A covered address goes to `phys + (va - virt)` exactly when the two addresses lie equally far into their blocks.
   */
  lemma RegionMapIsOffset(g: Granule, r: Region, va: nat)
    requires Covers(g, r, va)
    ensures RegionMap(g, r, va) == Mapped(r.phys + (va - r.virt), r.attrs)
            <==> r.virt % BlockSize(g, r.maxLevel) == r.phys % BlockSize(g, r.maxLevel)
  {
    hide Blk, Scale, BlockSize, Rounds, Offset;
    var b := BlockSize(g, r.maxLevel);
    var k := Blk(g, va, r.maxLevel) - Blk(g, r.virt, r.maxLevel);
    BlkIsQuotient(g, va, r.maxLevel);
    BlkIsQuotient(g, r.virt, r.maxLevel);
    BlkIsQuotient(g, r.phys, r.maxLevel);
    OffsetIsRemainder(g, va, r.maxLevel);
    ScaleIsProduct(g, r.phys / b + k, r.maxLevel);
    OffsetArithmetic(va, r.virt, r.phys, k, b);
  }

  lemma OffsetArithmetic(va: nat, virt: nat, phys: nat, k: nat, b: nat)
    requires b > 0 && va / b == virt / b + k
    ensures (phys / b + k) * b + va % b - (phys + (va - virt)) == virt % b - phys % b
  {
    Distribute(phys / b, k, b);
    Distribute(virt / b, k, b);
    assert va == va / b * b + va % b;
    assert virt == virt / b * b + virt % b;
    assert phys == phys / b * b + phys % b;
  }

  // ---- How much of a region is mapped ----

  /**
   The rounds of mmu_add_map start at `virt` but install whole blocks, so the end of a region that does not start on
   a block boundary may be left out. All of it is mapped exactly when the rounds reach its end.
   */
  lemma WholeRegionCovered(g: Granule, r: Region)
    requires r.phys != INVALID_ADDR && r.maxLevel <= 3
    ensures (forall va: nat :: r.virt <= va < r.virt + r.size ==> Covers(g, r, va))
            <==> r.size == 0 || r.virt % BlockSize(g, r.maxLevel) + r.size <= Rounds(g, r) * BlockSize(g, r.maxLevel)
  {
    var b, n := BlockSize(g, r.maxLevel), Rounds(g, r);
    hide Blk, BlockSize, Rounds;
    BlkIsQuotient(g, r.virt, r.maxLevel);
    if r.size > 0 {
      var last := r.virt + r.size - 1;
      BlkIsQuotient(g, last, r.maxLevel);
      LastBlock(r.virt, r.size, n, b);
      if Covers(g, r, last) {
        forall va: nat | r.virt <= va < r.virt + r.size ensures Covers(g, r, va) {
          BlkIsQuotient(g, va, r.maxLevel);
          QuotientMonotone(r.virt, va, b);
          QuotientMonotone(va, last, b);
        }
      }
    }
  }

  lemma QuotientMonotone(x: nat, y: nat, b: nat)
    requires b > 0 && x <= y
    ensures x / b <= y / b
  {
    if y / b < x / b {
      MulGap(y / b, x / b, b);
    }
  }

  /** The last byte of a region is in one of its `n` blocks exactly when the blocks reach past it. */
  lemma LastBlock(virt: nat, size: nat, n: nat, b: nat)
    requires b > 0 && size > 0
    ensures virt / b <= (virt + size - 1) / b
    ensures (virt + size - 1) / b < virt / b + n <==> virt % b + size <= n * b
  {
    var last := virt + size - 1;
    QuotientMonotone(virt, last, b);
    var q, p := last / b, virt / b + n;
    Distribute(virt / b, n, b);
    assert last == q * b + last % b;
    if q < p {
      MulGap(q, p, b);
    } else if p < q {
      MulGap(p, q, b);
    }
  }

  /**
   Without counting rounds: a region that starts on a block boundary gets exactly the blocks that begin inside it, so
   all of it and no more than the rest of its last block.
   */
  lemma AlignedRegionCovers(g: Granule, r: Region, va: nat)
    requires r.phys != INVALID_ADDR && r.maxLevel <= 3 && r.virt % BlockSize(g, r.maxLevel) == 0
    ensures Covers(g, r, va)
            <==> r.virt <= va && va / BlockSize(g, r.maxLevel) * BlockSize(g, r.maxLevel) < r.virt + r.size
  {
    hide Blk, BlockSize;
    var b, n := BlockSize(g, r.maxLevel), Rounds(g, r);
    BlkIsQuotient(g, r.virt, r.maxLevel);
    BlkIsQuotient(g, va, r.maxLevel);
    BlocksInside(r.virt / b, r.size, n, va, b);
    assert r.virt == r.virt / b * b;
  }

  lemma BlocksInside(v: nat, size: nat, n: nat, va: nat, b: nat)
    requires b > 0 && n == (size + b - 1) / b
    ensures v <= va / b < v + n <==> v * b <= va && va / b * b < v * b + size
  {
    var q, x := va / b, size + b - 1;
    assert va == q * b + va % b && x == n * b + x % b;
    if q < v {
      MulGap(q, v, b);
    } else if q < v + n {
      MulGap(q, v + n, b);
      Distribute(v, n, b);
      AtMost(v, q, b);
    } else {
      AtMost(v + n, q, b);
      Distribute(v, n, b);
    }
  }

  lemma AtMost(x: nat, y: nat, b: nat)
    requires x <= y
    ensures x * b <= y * b
  {
    if x < y {
      MulGap(x, y, b);
    }
  }

  // ---- Disjoint regions ----

  ghost predicate Apart(g: Granule, r: Region, s: Region)
  {
    forall va, va' :: Covers(g, r, va) && Covers(g, s, va') ==>
      var level := if r.maxLevel < s.maxLevel then r.maxLevel else s.maxLevel;
      Blk(g, va, level) != Blk(g, va', level)
  }

  /** No two regions touch the same block of the coarser of their two levels. */
  ghost predicate Disjoint(g: Granule, rs: seq<Region>)
  {
    forall i, j :: 0 <= i < j < |rs| ==> Apart(g, rs[i], rs[j])
  }

  /** The block in place at an address was installed for a region that covers the block's own address. */
  lemma {:induction false} PaintedSource(g: Granule, rs: seq<Region>, va: nat) returns (i: nat)
    requires RegionsOk(g, rs) && OpsOk(AllOps(g, rs)) && Painted(g, AllOps(g, rs), va).Some?
    ensures i < |rs|
    ensures var op := Painted(g, AllOps(g, rs), va).value;
            && op.level == rs[i].maxLevel && Covers(g, rs[i], op.va)
            && Blk(g, va, op.level) == Blk(g, op.va, op.level)
  {
    hide Blk, Rounds, RegionOk, RegionOps, Painted, Advance;
    NothingPainted(g, va);
    var init, r := rs[..|rs| - 1], rs[|rs| - 1];
    AllOpsOk(g, init);
    var ops := AllOps(g, init);
    if r.phys == INVALID_ADDR || r.maxLevel > 3 {
      EmptyRegion(g, r);
      assert AllOps(g, rs) == ops;
      i := PaintedSource(g, init, va);
    } else {
      PaintedRegion(g, ops, r, Rounds(g, r), va);
      var k := Blk(g, va, r.maxLevel) - Blk(g, r.virt, r.maxLevel);
      if 0 <= k < Rounds(g, r) {
        AdvanceBlk(g, r.maxLevel, r.virt, k);
        i := |rs| - 1;
      } else {
        i := PaintedSource(g, init, va);
      }
    }
  }

  lemma NothingPainted(g: Granule, va: nat)
    ensures Painted(g, [], va) == None
  {
  }

  lemma EmptyRegion(g: Granule, r: Region)
    requires RegionOk(g, r)
    ensures r.maxLevel > 3 ==> RegionOps(g, r, Rounds(g, r)) == []
  {
  }

  /** Blocks of disjoint regions never get in each other's way. */
  lemma {:induction false} DisjointNoConflict(g: Granule, rs: seq<Region>)
    requires RegionsOk(g, rs) && Disjoint(g, rs)
    ensures OpsOk(AllOps(g, rs)) && NoConflict(g, AllOps(g, rs))
  {
    AllOpsOk(g, rs);
    if rs != [] {
      var init, r := rs[..|rs| - 1], rs[|rs| - 1];
      DisjointNoConflict(g, init);
      if r.phys == INVALID_ADDR || r.maxLevel > 3 {
        EmptyRegion(g, r);
        assert AllOps(g, rs) == AllOps(g, init);
      } else {
        RegionNoConflict(g, rs, Rounds(g, r));
      }
    }
  }

  lemma {:induction false} RegionNoConflict(g: Granule, rs: seq<Region>, n: nat)
    requires rs != [] && RegionsOk(g, rs) && Disjoint(g, rs)
    requires var r := rs[|rs| - 1]; r.phys != INVALID_ADDR && r.maxLevel <= 3 && n <= Rounds(g, r)
    requires OpsOk(AllOps(g, rs[..|rs| - 1])) && NoConflict(g, AllOps(g, rs[..|rs| - 1]))
    ensures var ops := AllOps(g, rs[..|rs| - 1]) + RegionOps(g, rs[|rs| - 1], n);
            OpsOk(ops) && NoConflict(g, ops)
  {
    hide Blk, Rounds, RegionOk, Painted, Advance, Covers, Blocked;
    var init, r := rs[..|rs| - 1], rs[|rs| - 1];
    var ops := AllOps(g, init);
    RegionOpsOk(g, r, n);
    if n == 0 {
      assert ops + RegionOps(g, r, 0) == ops;
    } else {
      RegionNoConflict(g, rs, n - 1);
      var before, op := ops + RegionOps(g, r, n - 1), OpAt(g, r, n - 1);
      RoundNotBlocked(g, rs, n - 1);
      NoConflictSnoc(g, before, op);
      assert ops + RegionOps(g, r, n) == before + [op];
    }
  }

  lemma RoundNotBlocked(g: Granule, rs: seq<Region>, k: nat)
    requires rs != [] && RegionsOk(g, rs) && Disjoint(g, rs)
    requires var r := rs[|rs| - 1]; r.phys != INVALID_ADDR && r.maxLevel <= 3 && k < Rounds(g, r)
    ensures var ops := AllOps(g, rs[..|rs| - 1]) + RegionOps(g, rs[|rs| - 1], k);
            OpsOk(ops) && !Blocked(g, ops, OpAt(g, rs[|rs| - 1], k).va, rs[|rs| - 1].maxLevel)
  {
    hide Blk, Rounds, RegionOk;
    var init, r := rs[..|rs| - 1], rs[|rs| - 1];
    var ops, va := AllOps(g, init), OpAt(g, r, k).va;
    AllOpsOk(g, init);
    PaintedRegion(g, ops, r, k, va);
    AdvanceBlk(g, r.maxLevel, r.virt, k);
    assert Painted(g, ops + RegionOps(g, r, k), va) == Painted(g, ops, va);
    if Painted(g, ops, va).Some? {
      var i := PaintedSource(g, init, va);
      assert Covers(g, r, va);
      assert init[i] == rs[i] && Apart(g, rs[i], r);
    }
  }

  /** On disjoint regions a list fails only because a level is out of range or the arena is too small. */
  lemma DisjointFeasible(c: Config, rs: seq<Region>, size: nat)
    requires c.Valid() && RegionsOk(c.g, rs) && Disjoint(c.g, rs)
    ensures Feasible(c, rs, size) <==>
              && DepthsOk(c, rs) && OpsInside(c, AllOps(c.g, rs))
              && TableOffset(c.g, |NeededTables(c, AllOps(c.g, rs))|) <= size
  {
    DisjointNoConflict(c.g, rs);
  }

  /** On disjoint regions every covered address is mapped by the one region that covers it. */
  lemma {:induction false} DisjointExpected(g: Granule, rs: seq<Region>, i: nat, va: nat)
    requires Disjoint(g, rs) && i < |rs| && Covers(g, rs[i], va)
    ensures Expected(g, rs, va) == RegionMap(g, rs[i], va)
  {
    hide Blk, Rounds, RegionMap;
    var n := |rs| - 1;
    if i < n {
      assert Apart(g, rs[i], rs[n]);
      DisjointExpected(g, rs[..n], i, va);
    }
  }

  /** An address is left unmapped exactly when no region covers it. */
  lemma {:induction false} ExpectedFault(g: Granule, rs: seq<Region>, va: nat)
    ensures Expected(g, rs, va) == Fault <==> forall i :: 0 <= i < |rs| ==> !Covers(g, rs[i], va)
  {
    hide Covers, RegionMap;
    if rs != [] {
      ExpectedFault(g, rs[..|rs| - 1], va);
      MappedNotFault(g, rs[|rs| - 1], va);
      assert forall i :: 0 <= i < |rs| - 1 ==> rs[..|rs| - 1][i] == rs[i];
    }
  }

  lemma MappedNotFault(g: Granule, r: Region, va: nat)
    ensures Covers(g, r, va) ==> RegionMap(g, r, va) != Fault
  {
  }

  // ---- The tree of tables ----

  /** No table is shared: two entries that point to the same table are the same entry. */
  lemma TablesNotShared(c: Config, tabs: Tables, own: seq<Owner>, t: nat, i: nat, u: nat, j: nat)
    requires WellFormed(c, tabs, own) && Linked(c, tabs, own)
    requires t < |tabs| && i < Entries(c.g) && u < |tabs| && j < Entries(c.g)
    requires own[t].level < 3 && own[u].level < 3 && tabs[t][i] % 4 == 3 && tabs[t][i] == tabs[u][j]
    ensures t == u && i == j
  {
    assert EntryOk(c, tabs, own, t, i) && EntryOk(c, tabs, own, u, j);
    JoinSplit(c.g, own[t].prefix, i);
    JoinSplit(c.g, own[u].prefix, j);
    assert Key(own[t]) == Key(own[u]);
  }

  /** Addresses in different blocks of a level are resolved by different entries. */
  lemma DistinctBlocksDistinctEntries(c: Config, tabs: Tables, own: seq<Owner>, va: nat, va': nat, level: nat)
    requires WellFormed(c, tabs, own) && InRange(c, va) && InRange(c, va') && c.start <= level <= 3
    requires TableAt(c, tabs, own, va, level).Some? && TableAt(c, tabs, own, va', level).Some?
    requires PteAddr(c, TableAt(c, tabs, own, va, level).value, Index(c.g, va, level))
             == PteAddr(c, TableAt(c, tabs, own, va', level).value, Index(c.g, va', level))
    ensures Blk(c.g, va, level) == Blk(c.g, va', level)
  {
    hide Blk;
    var t, u := TableAt(c, tabs, own, va, level).value, TableAt(c, tabs, own, va', level).value;
    PteIndex(c, t, Index(c.g, va, level));
    PteIndex(c, u, Index(c.g, va', level));
    SlotInjective(c.g, t, Index(c.g, va, level), u, Index(c.g, va', level));
    SplitJoin(c.g, Blk(c.g, va, level));
    SplitJoin(c.g, Blk(c.g, va', level));
  }
}
