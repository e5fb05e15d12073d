/**
 What a list of memory regions asks for: the translation every address should get, the
 blocks to install one after another, and when a list can be installed at all.
 */
module Paging {
  import opened Bits
  import opened Options
  import opened Vmsa
  import opened PageTree

  datatype Region = Region(virt: U64, phys: U64, size: U64, maxLevel: U64, attrs: U64)

  const INVALID_ADDR: U64 := 0

  const ADDR_LIMIT: nat := OUTPUT_LIMIT

  /** Attribute bits lie in the lower and upper attribute fields of a descriptor. */
  predicate AttrsOk(attrs: nat)
  {
    attrs < U64_SIZE && attrs % 4 == 0 && attrs % ADDR_LIMIT < 0x1000
  }

  /** The number of blocks a region is given: its size over the block size, rounded up. */
  function Rounds(g: Granule, r: Region): nat
  {
    if r.maxLevel > 3 then 0 else (r.size + BlockSize(g, r.maxLevel) - 1) / BlockSize(g, r.maxLevel)
  }

  /** The addresses fit the architecture, and the physical address is at least 4 KB aligned. */
  predicate RegionOk(g: Granule, r: Region)
  {
    && r.virt + r.size <= ADDR_LIMIT
    && r.phys % 0x1000 == 0
    && AttrsOk(r.attrs)
    && (r.maxLevel <= 3 ==> r.phys + Rounds(g, r) * BlockSize(g, r.maxLevel) <= ADDR_LIMIT)
  }

  // ---- The mapping asked for ----

  predicate Covers(g: Granule, r: Region, va: nat)
  {
    && r.phys != INVALID_ADDR
    && r.maxLevel <= 3
    && Blk(g, r.virt, r.maxLevel) <= Blk(g, va, r.maxLevel) < Blk(g, r.virt, r.maxLevel) + Rounds(g, r)
  }

  function RegionMap(g: Granule, r: Region, va: nat): Translation
    requires Covers(g, r, va)
  {
    var k := Blk(g, va, r.maxLevel) - Blk(g, r.virt, r.maxLevel);
    Mapped(Scale(g, Blk(g, r.phys, r.maxLevel) + k, r.maxLevel) + Offset(g, va, r.maxLevel), r.attrs)
  }

  /** The last region of the list that covers an address decides its translation. */
  function Expected(g: Granule, rs: seq<Region>, va: nat): Translation
  {
    if rs == [] then Fault
    else if Covers(g, rs[|rs| - 1], va) then RegionMap(g, rs[|rs| - 1], va)
    else Expected(g, rs[..|rs| - 1], va)
  }

  // ---- The blocks to install ----

  /** One block or page: where it goes, and what it maps to. */
  datatype Op = Op(level: nat, va: nat, phys: nat, attrs: nat)

  function LeafWord(phys: nat, attrs: nat, level: nat): nat
  {
    Or(Or(phys, attrs), if level == 3 then 3 else 1)
  }

  lemma LeafWordSum(phys: nat, attrs: nat, level: nat)
    requires phys % 0x1000 == 0 && phys < ADDR_LIMIT && AttrsOk(attrs)
    ensures LeafWord(phys, attrs, level) == phys + attrs + (if level == 3 then 3 else 1) < U64_SIZE
  {
    OrAttrs(phys, attrs);
    var q, t := (phys + attrs) / 4, if level == 3 then 3 else 1;
    assert q * 4 == phys + attrs by { SumDivisible(phys, attrs); }
    OrAdd(q, t, 2, 4);
    assert phys + attrs + 3 < U64_SIZE by { SumBound(phys, attrs); }
  }

  lemma SumDivisible(phys: nat, attrs: nat)
    requires phys % 0x1000 == 0 && attrs % 4 == 0
    ensures (phys + attrs) / 4 * 4 == phys + attrs
  {
    var p, a := phys / 0x1000, attrs / 4;
    RemainderIs(phys + attrs, 4, 0x400 * p + a, 0);
  }

  lemma SumBound(phys: nat, attrs: nat)
    requires phys % 0x1000 == 0 && phys < ADDR_LIMIT && AttrsOk(attrs)
    ensures phys + attrs + 3 < U64_SIZE
  {
    var hi := attrs / ADDR_LIMIT;
    assert hi < 0x1_0000;
  }

  lemma OrAttrs(phys: nat, attrs: nat)
    requires phys % 0x1000 == 0 && phys < ADDR_LIMIT && AttrsOk(attrs)
    ensures Or(phys, attrs) == phys + attrs
  {
    OrParts(phys / 0x1000, attrs / ADDR_LIMIT, attrs % ADDR_LIMIT);
  }

  lemma OrParts(p: nat, hi: nat, lo: nat)
    requires p < 0x10_0000_0000 && lo < 0x1000
    ensures Or(p * 0x1000, hi * ADDR_LIMIT + lo) == p * 0x1000 + hi * ADDR_LIMIT + lo
  {
    hide Bitwise;
    assert Pow2(48) == ADDR_LIMIT && Pow2(12) == 0x1000 by { Pow2Values(); }
    BitwiseSplitAt(OrOp, 0, p * 0x1000, hi, lo, 48, ADDR_LIMIT);
    assert Bitwise(OrOp, 0, hi) == hi by { BitwiseZero(OrOp, hi); }
    OrAdd(p, lo, 12, 0x1000);
  }

  /** An address after `k` rounds, each of which moves it on by one block. */
  function Advance(g: Granule, level: nat, addr: nat, k: nat): nat
    requires level <= 3
  {
    if k == 0 then addr else Advance(g, level, addr, k - 1) + BlockSize(g, level)
  }

  lemma {:induction false} AdvanceIs(g: Granule, level: nat, addr: nat, k: nat)
    requires level <= 3
    ensures Advance(g, level, addr, k) == addr + k * BlockSize(g, level)
  {
    if k != 0 {
      AdvanceIs(g, level, addr, k - 1);
      MulStep(k - 1, BlockSize(g, level));
    }
  }

  lemma {:induction false} AdvanceBlk(g: Granule, level: nat, addr: nat, k: nat)
    requires level <= 3
    ensures Blk(g, Advance(g, level, addr, k), level) == Blk(g, addr, level) + k
  {
    hide Blk, BlockSize;
    if k != 0 {
      AdvanceBlk(g, level, addr, k - 1);
      BlkNext(g, Advance(g, level, addr, k - 1), level);
    }
  }

  lemma {:induction false} AdvanceAligned(g: Granule, level: nat, addr: nat, k: nat)
    requires level <= 3 && addr % 0x1000 == 0
    ensures Advance(g, level, addr, k) % 0x1000 == 0
  {
    if k != 0 {
      AdvanceAligned(g, level, addr, k - 1);
    }
  }

  function OpAt(g: Granule, r: Region, k: nat): (op: Op)
    requires RegionOk(g, r) && k < Rounds(g, r)
  {
    Op(r.maxLevel, Advance(g, r.maxLevel, r.virt, k), Advance(g, r.maxLevel, r.phys, k), r.attrs)
  }

  lemma RoundInside(g: Granule, r: Region, k: nat)
    requires RegionOk(g, r) && k < Rounds(g, r)
    ensures var op := OpAt(g, r, k);
            op.phys < ADDR_LIMIT && op.phys % 0x1000 == 0 && op.va < r.virt + r.size
  {
    var b := BlockSize(g, r.maxLevel);
    MulGap(k, Rounds(g, r), b);
    AdvanceIs(g, r.maxLevel, r.virt, k);
    AdvanceIs(g, r.maxLevel, r.phys, k);
    AdvanceAligned(g, r.maxLevel, r.phys, k);
    RoundsTimesBlock(r.size, b);
  }

  lemma RoundsTimesBlock(size: nat, b: nat)
    requires b > 0
    ensures (size + b - 1) / b * b <= size + b - 1
  {
  }

  function RegionOps(g: Granule, r: Region, n: nat): (ops: seq<Op>)
    requires RegionOk(g, r) && n <= Rounds(g, r)
  {
    if n == 0 then [] else RegionOps(g, r, n - 1) + [OpAt(g, r, n - 1)]
  }

  predicate RegionsOk(g: Granule, rs: seq<Region>)
  {
    forall i :: 0 <= i < |rs| ==> RegionOk(g, rs[i])
  }

  function AllOps(g: Granule, rs: seq<Region>): (ops: seq<Op>)
    requires RegionsOk(g, rs)
  {
    if rs == [] then []
    else
      var r := rs[|rs| - 1];
      AllOps(g, rs[..|rs| - 1]) + if r.phys == INVALID_ADDR then [] else RegionOps(g, r, Rounds(g, r))
  }

  /** The last installed block that holds an address is its leaf. */
  function Painted(g: Granule, ops: seq<Op>, va: nat): (r: Option<Op>)
    requires OpsOk(ops)
    ensures r.Some? ==> r.value.level <= 3
  {
    if ops == [] then None
    else
      var op := ops[|ops| - 1];
      if Blk(g, va, op.level) == Blk(g, op.va, op.level) then Some(op)
      else Painted(g, ops[..|ops| - 1], va)
  }

  lemma PaintedSnoc(g: Granule, ops: seq<Op>, op: Op, va: nat)
    requires OpsOk(ops) && op.level <= 3
    ensures OpsOk(ops + [op])
    ensures Painted(g, ops + [op], va)
            == if Blk(g, va, op.level) == Blk(g, op.va, op.level) then Some(op) else Painted(g, ops, va)
  {
    assert (ops + [op])[..|ops|] == ops;
  }

  predicate OpsOk(ops: seq<Op>)
  {
    forall i :: 0 <= i < |ops| ==> ops[i].level <= 3
  }

  lemma {:induction false} RegionOpsOk(g: Granule, r: Region, n: nat)
    requires RegionOk(g, r) && n <= Rounds(g, r)
    ensures OpsOk(RegionOps(g, r, n)) && |RegionOps(g, r, n)| == n
  {
    if n != 0 {
      RegionOpsOk(g, r, n - 1);
    }
  }

  lemma {:induction false} AllOpsOk(g: Granule, rs: seq<Region>)
    requires RegionsOk(g, rs)
    ensures OpsOk(AllOps(g, rs))
  {
    if rs != [] {
      AllOpsOk(g, rs[..|rs| - 1]);
      RegionOpsOk(g, rs[|rs| - 1], Rounds(g, rs[|rs| - 1]));
    }
  }

  // ---- Installed blocks give the mapping asked for ----

  function LeafOf(op: Option<Op>): Option<Leaf>
  {
    match op
    case None => None
    case Some(op) => Some(Leaf(op.level, LeafWord(op.phys, op.attrs, op.level)))
  }

  function Decode(g: Granule, leaf: Option<Leaf>, va: nat): Translation
    requires leaf.Some? ==> leaf.value.level <= 3
  {
    match leaf
    case None => Fault
    case Some(l) => Output(g, l.word, l.level, va)
  }

  /** The processor reads back the physical block and the attributes that were or-ed into a leaf. */
  lemma LeafWordOutput(g: Granule, phys: nat, attrs: nat, level: nat, va: nat)
    requires phys % 0x1000 == 0 && phys < ADDR_LIMIT && AttrsOk(attrs)
    requires level <= 3
    ensures Output(g, LeafWord(phys, attrs, level), level, va)
            == Mapped(Scale(g, Blk(g, phys, level), level) + Offset(g, va, level), attrs)
  {
    hide LeafWord, Blk, Scale;
    LeafWordSum(phys, attrs, level);
    var t := if level == 3 then 3 else 1;
    var w, lo := LeafWord(phys, attrs, level), attrs % ADDR_LIMIT;
    WordParts(phys, attrs, t);
    BlkIgnoresLowBits(g, phys, lo + t, level);
  }

  lemma WordParts(phys: nat, attrs: nat, t: nat)
    requires phys % 0x1000 == 0 && phys < ADDR_LIMIT && AttrsOk(attrs) && t < 4
    ensures var w := phys + attrs + t;
            && w % ADDR_LIMIT == phys + (attrs % ADDR_LIMIT + t)
            && attrs % ADDR_LIMIT + t < 0x1000
            && w / ADDR_LIMIT * ADDR_LIMIT + w % 0x1000 / 4 * 4 == attrs
  {
    var p, hi, lo := phys / 0x1000, attrs / ADDR_LIMIT, attrs % ADDR_LIMIT / 4;
    AttrParts(attrs);
    WordFields(p, hi, lo, t);
  }

  lemma AttrParts(attrs: nat)
    requires AttrsOk(attrs)
    ensures attrs == attrs / ADDR_LIMIT * ADDR_LIMIT + attrs % ADDR_LIMIT / 4 * 4
    ensures attrs % ADDR_LIMIT / 4 < 0x400 && attrs % ADDR_LIMIT == attrs % ADDR_LIMIT / 4 * 4
  {
  }

  lemma WordFields(p: nat, hi: nat, lo: nat, t: nat)
    requires p < 0x10_0000_0000 && lo < 0x400 && t < 4
    ensures var w := p * 0x1000 + (hi * ADDR_LIMIT + lo * 4) + t;
            && w % ADDR_LIMIT == p * 0x1000 + (lo * 4 + t)
            && w / ADDR_LIMIT == hi
            && w % 0x1000 / 4 == lo
  {
    var w := p * 0x1000 + (hi * ADDR_LIMIT + lo * 4) + t;
    RemainderIs(w, ADDR_LIMIT, hi, p * 0x1000 + lo * 4 + t);
    RemainderIs(w, 0x1000, p + hi * 0x10_0000_0000, lo * 4 + t);
  }

  lemma {:induction false} BlkIgnoresLowBits(g: Granule, x: nat, low: nat, level: nat)
    requires x % 0x1000 == 0 && low < 0x1000 && level <= 3
    ensures Blk(g, x + low, level) == Blk(g, x, level)
    decreases 3 - level
  {
    if level < 3 {
      BlkIgnoresLowBits(g, x, low, level + 1);
    } else {
      PageIgnoresLowBits(x / 0x1000, low);
    }
  }

  lemma PageIgnoresLowBits(p: nat, low: nat)
    requires low < 0x1000
    ensures (p * 0x1000 + low) / 0x1000 == p && (p * 0x1000 + low) / 0x1_0000 == (p * 0x1000) / 0x1_0000
  {
    RemainderIs(p * 0x1000 + low, 0x1_0000, p / 16, p % 16 * 0x1000 + low);
    RemainderIs(p * 0x1000, 0x1_0000, p / 16, p % 16 * 0x1000);
  }

  lemma {:induction false} PaintedRegion(g: Granule, ops: seq<Op>, r: Region, n: nat, va: nat)
    requires OpsOk(ops) && RegionOk(g, r) && n <= Rounds(g, r) && r.maxLevel <= 3
    ensures OpsOk(ops + RegionOps(g, r, n))
    ensures Painted(g, ops + RegionOps(g, r, n), va) == PaintedBy(g, ops, r, n, va)
  {
    RegionOpsOk(g, r, n);
    if n == 0 {
      assert ops + RegionOps(g, r, n) == ops;
    } else {
      PaintedRegion(g, ops, r, n - 1, va);
      var op := OpAt(g, r, n - 1);
      var before, all := ops + RegionOps(g, r, n - 1), ops + RegionOps(g, r, n);
      assert all == before + [op];
      PaintedSnoc(g, before, op, va);
      assert Blk(g, op.va, op.level) == Blk(g, r.virt, r.maxLevel) + (n - 1) by {
        AdvanceBlk(g, r.maxLevel, r.virt, n - 1);
      }
    }
  }

  function PaintedBy(g: Granule, ops: seq<Op>, r: Region, n: nat, va: nat): Option<Op>
    requires OpsOk(ops) && RegionOk(g, r) && n <= Rounds(g, r) && r.maxLevel <= 3
  {
    var k := Blk(g, va, r.maxLevel) - Blk(g, r.virt, r.maxLevel);
    if 0 <= k < n then Some(OpAt(g, r, k)) else Painted(g, ops, va)
  }

  lemma CoveredOutput(g: Granule, r: Region, va: nat)
    requires RegionOk(g, r) && Covers(g, r, va)
    ensures Decode(g, LeafOf(Some(OpAt(g, r, Blk(g, va, r.maxLevel) - Blk(g, r.virt, r.maxLevel)))), va)
            == RegionMap(g, r, va)
  {
    hide LeafWord, Blk, Scale, Rounds, Output;
    var k := Blk(g, va, r.maxLevel) - Blk(g, r.virt, r.maxLevel);
    RoundInside(g, r, k);
    LeafWordOutput(g, OpAt(g, r, k).phys, r.attrs, r.maxLevel, va);
    AdvanceBlk(g, r.maxLevel, r.phys, k);
  }

  lemma RegionOutput(g: Granule, ops: seq<Op>, r: Region, va: nat)
    requires OpsOk(ops) && RegionOk(g, r) && r.maxLevel <= 3 && r.phys != INVALID_ADDR
    ensures OpsOk(ops + RegionOps(g, r, Rounds(g, r)))
    ensures Decode(g, LeafOf(Painted(g, ops + RegionOps(g, r, Rounds(g, r)), va)), va)
            == if Covers(g, r, va) then RegionMap(g, r, va) else Decode(g, LeafOf(Painted(g, ops, va)), va)
  {
    PaintedRegion(g, ops, r, Rounds(g, r), va);
    if Covers(g, r, va) {
      CoveredOutput(g, r, va);
    }
  }

  lemma {:induction false} PaintedIsExpected(g: Granule, rs: seq<Region>, va: nat)
    requires RegionsOk(g, rs)
    ensures OpsOk(AllOps(g, rs))
    ensures Decode(g, LeafOf(Painted(g, AllOps(g, rs), va)), va) == Expected(g, rs, va)
  {
    AllOpsOk(g, rs);
    if rs != [] {
      var init, r := rs[..|rs| - 1], rs[|rs| - 1];
      PaintedIsExpected(g, init, va);
      var ops := AllOps(g, init);
      if r.phys == INVALID_ADDR {
        assert ops + [] == ops;
      } else {
        if r.maxLevel > 3 {
          assert ops + RegionOps(g, r, 0) == ops;
        } else {
          RegionOutput(g, ops, r, va);
        }
      }
    }
  }

  // ---- When a list can be installed ----

  /** No block is installed underneath a larger block that is in place. */
  predicate NoConflict(g: Granule, ops: seq<Op>)
    requires OpsOk(ops)
  {
    ops == [] ||
    var init, op := ops[..|ops| - 1], ops[|ops| - 1];
    NoConflict(g, init) && !Blocked(g, init, op.va, op.level)
  }

  predicate Blocked(g: Granule, ops: seq<Op>, va: nat, level: nat)
    requires OpsOk(ops)
  {
    var leaf := Painted(g, ops, va);
    leaf.Some? && leaf.value.level < level
  }

  predicate OpsInside(c: Config, ops: seq<Op>)
  {
    forall i :: 0 <= i < |ops| ==> c.start < ops[i].level <= 3
  }

  function Include(keys: seq<TableKey>, key: TableKey): seq<TableKey>
  {
    if key in keys then keys else keys + [key]
  }

  /** The tables taken once those on the way to `va` down to `level` have been added, in order. */
  ghost function WithPath(c: Config, keys: seq<TableKey>, va: nat, level: nat): seq<TableKey>
    requires c.Valid() && c.start <= level <= 3
  {
    if level == c.start then keys
    else Include(WithPath(c, keys, va, level - 1), (level, Quot(c.g, Blk(c.g, va, level))))
  }

  /** The tables that a list of blocks needs, in the order in which they are taken from the arena. */
  ghost function NeededTables(c: Config, ops: seq<Op>): seq<TableKey>
    requires c.Valid() && OpsInside(c, ops)
  {
    if ops == [] then [(c.start, 0)]
    else WithPath(c, NeededTables(c, ops[..|ops| - 1]), ops[|ops| - 1].va, ops[|ops| - 1].level)
  }

  lemma NeededSnoc(c: Config, ops: seq<Op>, op: Op)
    requires c.Valid() && OpsInside(c, ops) && c.start < op.level <= 3
    ensures OpsInside(c, ops + [op])
    ensures NeededTables(c, ops + [op]) == WithPath(c, NeededTables(c, ops), op.va, op.level)
  {
    assert (ops + [op])[..|ops|] == ops;
  }

  lemma {:induction false} PathMonotone(c: Config, keys: seq<TableKey>, va: nat, level: nat, level': nat)
    requires c.Valid() && c.start <= level <= level' <= 3
    ensures WithPath(c, keys, va, level) <= WithPath(c, keys, va, level')
  {
    if level < level' {
      PathMonotone(c, keys, va, level, level' - 1);
    }
  }

  lemma {:induction false} NeededMonotone(c: Config, ops: seq<Op>, n: nat)
    requires c.Valid() && OpsInside(c, ops)
    requires n <= |ops|
    ensures NeededTables(c, ops[..n]) <= NeededTables(c, ops)
  {
    if n == |ops| {
      assert ops[..n] == ops;
    } else {
      var init, op := ops[..|ops| - 1], ops[|ops| - 1];
      assert init[..n] == ops[..n];
      NeededMonotone(c, init, n);
      PathMonotone(c, NeededTables(c, init), op.va, c.start, op.level);
    }
  }

  lemma {:induction false} NoConflictPrefix(g: Granule, ops: seq<Op>, n: nat)
    requires OpsOk(ops) && n <= |ops| && NoConflict(g, ops)
    ensures OpsOk(ops[..n]) && NoConflict(g, ops[..n])
  {
    if n == |ops| {
      assert ops[..n] == ops;
    } else {
      var init := ops[..|ops| - 1];
      assert init[..n] == ops[..n];
      NoConflictPrefix(g, init, n);
    }
  }

  predicate DepthsOk(c: Config, rs: seq<Region>)
  {
    forall i :: 0 <= i < |rs| && rs[i].phys != INVALID_ADDR ==>
      c.start < rs[i].maxLevel && (rs[i].size == 0 || rs[i].maxLevel <= 3)
  }

  /** Exactly when a region list can be installed in an arena of `size` bytes. */
  ghost predicate Feasible(c: Config, rs: seq<Region>, size: nat)
    requires c.Valid() && RegionsOk(c.g, rs)
  {
    && DepthsOk(c, rs)
    && OpsInside(c, AllOps(c.g, rs))
    && NoConflict(c.g, AllOps(c.g, rs))
    && TableOffset(c.g, |NeededTables(c, AllOps(c.g, rs))|) <= size
  }

  // ---- When the processor can reach what was installed ----

  /** Whether a table is on the way to `va` down to `level`. */
  predicate OnPath(c: Config, key: TableKey, va: nat, level: nat)
    requires c.Valid() && level <= 3
  {
    c.start <= key.0 <= level && key.1 == Quot(c.g, Blk(c.g, va, key.0))
  }

  /** Of the tables taken in this order, those on the way to `va` lie below `limit`. */
  predicate TablesBelow(c: Config, keys: seq<TableKey>, va: nat, level: nat, limit: nat)
    requires c.Valid() && level <= 3
  {
    forall u :: 0 <= u < |keys| && OnPath(c, keys[u], va, level) ==> c.base + TableOffset(c.g, u) < limit
  }

  /** The address asked for and the tables that lead to it lie in the physical address space of size `limit`. */
  ghost predicate InReach(c: Config, rs: seq<Region>, limit: nat, va: nat)
    requires c.Valid() && RegionsOk(c.g, rs) && OpsOk(AllOps(c.g, rs)) && OpsInside(c, AllOps(c.g, rs))
  {
    var op := Painted(c.g, AllOps(c.g, rs), va);
    op.Some? ==>
      && Capped(limit, Expected(c.g, rs, va)) == Expected(c.g, rs, va)
      && TablesBelow(c, NeededTables(c, AllOps(c.g, rs)), va, op.value.level, limit)
  }
}
