/** What requests and releases do to the mapping that the next rebuild asks for. */
module PoolMapping {
  import opened Bits
  import opened Vmsa
  import opened Paging
  import opened PagingTheorems
  import opened MmuPool

  /**
   `va` lies in the blocks that a region of `length` bytes at `addr` is given, counted in whole blocks of its level.
   */
  predicate InBlocks(g: Granule, level: nat, addr: nat, length: nat, va: nat)
  {
    level <= 3 &&
    var b := BlockSize(g, level);
    addr / b <= va / b < addr / b + (length + b - 1) / b
  }

  ghost predicate CoveredFrom(g: Granule, rs: seq<Region>, i: nat, va: nat)
  {
    exists j :: i <= j < |rs| && Covers(g, rs[j], va)
  }

  /** A region mapped to itself: the blocks it covers, and where an address in them goes. */
  lemma SelfMapped(g: Granule, r: Region, va: nat)
    requires r.virt == r.phys != INVALID_ADDR
    ensures Covers(g, r, va) <==> InBlocks(g, r.maxLevel, r.virt, r.size, va)
    ensures Covers(g, r, va) ==> RegionMap(g, r, va) == Mapped(va, r.attrs)
  {
    hide Blk, RegionMap, BlockSize;
    if r.maxLevel <= 3 {
      BlkIsQuotient(g, va, r.maxLevel);
      BlkIsQuotient(g, r.virt, r.maxLevel);
      if Covers(g, r, va) {
        RegionMapIsOffset(g, r, va);
      }
    }
  }

  /**
   What the list says about an address: the last of the regions from `k` on that covers it, else the regions before.
   */
  lemma {:induction false} ExpectedSplit(g: Granule, rs: seq<Region>, k: nat, va: nat)
    requires k < |rs|
    ensures !CoveredFrom(g, rs, k, va) ==> Expected(g, rs, va) == Expected(g, rs[..k], va)
    ensures !CoveredFrom(g, rs, k + 1, va) && Covers(g, rs[k], va) ==> Expected(g, rs, va) == RegionMap(g, rs[k], va)
  {
    hide Covers, RegionMap;
    var n := |rs| - 1;
    if k < n {
      var init := rs[..n];
      ExpectedSplit(g, init, k, va);
      assert init[..k] == rs[..k];
      assert !CoveredFrom(g, rs, k + 1, va) ==> !CoveredFrom(g, init, k + 1, va) && !Covers(g, rs[n], va);
      assert !CoveredFrom(g, rs, k, va) ==> !CoveredFrom(g, init, k, va) && !Covers(g, rs[n], va);
    }
  }

  /** Two lists that agree from `k` on say the same of an address that one of those regions covers. */
  lemma {:induction false} ExpectedSuffix(g: Granule, rs: seq<Region>, ss: seq<Region>, k: nat, l: nat, va: nat)
    requires k <= |rs| && l <= |ss| && rs[k..] == ss[l..]
    ensures CoveredFrom(g, rs, k, va) <==> CoveredFrom(g, ss, l, va)
    ensures CoveredFrom(g, rs, k, va) ==> Expected(g, rs, va) == Expected(g, ss, va)
    decreases |rs|
  {
    hide Covers, RegionMap;
    assert |rs| - k == |ss| - l;
    if k < |rs| {
      var r0, s0 := rs[..|rs| - 1], ss[..|ss| - 1];
      var last := rs[k..][|rs| - k - 1];
      assert rs[|rs| - 1] == last == ss[|ss| - 1];
      assert r0[k..] == rs[k..][..|rs| - k - 1] == ss[l..][..|rs| - k - 1] == s0[l..];
      ExpectedSuffix(g, r0, s0, k, l, va);
      CoveredInit(g, rs, k, va);
      CoveredInit(g, ss, l, va);
    }
  }

  lemma CoveredInit(g: Granule, rs: seq<Region>, k: nat, va: nat)
    requires k < |rs|
    ensures CoveredFrom(g, rs, k, va) <==> CoveredFrom(g, rs[..|rs| - 1], k, va) || Covers(g, rs[|rs| - 1], va)
  {
    hide Covers;
    var init := rs[..|rs| - 1];
    forall j | k <= j < |init| && Covers(g, init[j], va) ensures CoveredFrom(g, rs, k, va) {
      assert rs[j] == init[j];
    }
    forall j | k <= j < |rs| - 1 && Covers(g, rs[j], va) ensures CoveredFrom(g, init, k, va) {
      assert rs[j] == init[j];
    }
  }

  /** Replacing one region: the regions behind decide first, then the new one, then the rest as before. */
  lemma ReplaceRegion(g: Granule, rs: seq<Region>, k: nat, r: Region, va: nat)
    requires k < |rs|
    ensures CoveredFrom(g, rs, k + 1, va) ==> Expected(g, rs[k := r], va) == Expected(g, rs, va)
    ensures !CoveredFrom(g, rs, k + 1, va) && Covers(g, r, va) ==> Expected(g, rs[k := r], va) == RegionMap(g, r, va)
    ensures !CoveredFrom(g, rs, k + 1, va) && !Covers(g, r, va)
            ==> Expected(g, rs[k := r], va) == Expected(g, rs[..k], va)
  {
    hide Covers, RegionMap, Expected;
    var ss := rs[k := r];
    assert ss[k + 1..] == rs[k + 1..] && ss[..k] == rs[..k] && ss[k] == r;
    ExpectedSuffix(g, rs, ss, k + 1, k + 1, va);
    ExpectedSplit(g, ss, k, va);
    if !CoveredFrom(g, ss, k + 1, va) && !Covers(g, r, va) {
      assert !CoveredFrom(g, ss, k, va);
    }
  }

  // ---- Requests ----

  /** The first free slot of the reserved ones. */
  predicate FirstFree(p: Pool, k: nat)
  {
    && p.Shaped() && p.Sid() <= k < |p.slots| && p.slots[k].phys == INVALID_ADDR
    && forall j :: p.Sid() <= j < k ==> p.slots[j].phys != INVALID_ADDR
  }

  /**
   After a request the blocks of the requested range are mapped to themselves with the attributes of the first free
   slot, except where a region behind that slot decides; every other address is mapped as before.
   */
  lemma RequestMaps(g: Granule, p: Pool, addr: U64, length: U64, k: nat, va: nat)
    requires Accounted(p) && FreeSlots(p) > 0 && addr != INVALID_ADDR && FirstFree(p, k)
    ensures var (q, ret) := Request(p, addr, length);
            && ret == 0
            && Expected(g, q.slots, va)
               == if InBlocks(g, p.slots[k].maxLevel, addr, length, va) && !CoveredFrom(g, p.slots, k + 1, va)
                  then Mapped(va, p.slots[k].attrs) else Expected(g, p.slots, va)
  {
    hide Expected, InBlocks, FreeFrom, CoveredFrom;
    RequestAccounts(p, addr, length);
    var q := Request(p, addr, length).0;
    var r := q.slots[k];
    assert Find(p.slots, INVALID_ADDR, p.Sid()) == k;
    assert q.slots == p.slots[k := r];
    ReplaceRegion(g, p.slots, k, r, va);
    ReplaceRegion(g, p.slots, k, p.slots[k], va);
    assert p.slots[k := p.slots[k]] == p.slots;
    SelfMapped(g, r, va);
    assert !Covers(g, p.slots[k], va);
  }

  /** On an aligned address that is all of the range asked for. */
  lemma RequestMapsRange(g: Granule, p: Pool, addr: U64, length: U64, k: nat, va: nat)
    requires Accounted(p) && FreeSlots(p) > 0 && addr != INVALID_ADDR && FirstFree(p, k)
    requires p.slots[k].maxLevel <= 3 && addr % BlockSize(g, p.slots[k].maxLevel) == 0
    requires addr <= va < addr + length && !CoveredFrom(g, p.slots, k + 1, va)
    ensures Expected(g, Request(p, addr, length).0.slots, va) == Mapped(va, p.slots[k].attrs)
  {
    hide Expected, FreeFrom, CoveredFrom, Request, BlockSize;
    RequestMaps(g, p, addr, length, k, va);
    AlignedInBlocks(addr, length, va, BlockSize(g, p.slots[k].maxLevel));
  }

  lemma AlignedInBlocks(addr: nat, length: nat, va: nat, b: nat)
    requires b > 0 && addr % b == 0 && addr <= va < addr + length
    ensures addr / b <= va / b < addr / b + (length + b - 1) / b
  {
    var q, n := addr / b, (length + b - 1) / b;
    assert addr == q * b;
    QuotientMonotone(addr, va, b);
    assert length <= n * b by { RoundUp(length, b); }
    Distribute(q, n, b);
    if va / b >= q + n {
      MulAtLeast(q + n, va / b, b);
    }
  }

  lemma RoundUp(length: nat, b: nat)
    requires b > 0
    ensures length <= (length + b - 1) / b * b
  {
    var x := length + b - 1;
    assert x == x / b * b + x % b;
  }

  lemma MulAtLeast(x: nat, y: nat, b: nat)
    requires x <= y
    ensures x * b <= y * b
  {
    if x < y {
      MulGap(x, y, b);
    }
  }

  // ---- Releases ----

  /** The first of the reserved slots that holds `addr`. */
  predicate FirstAt(p: Pool, addr: U64, k: nat)
  {
    && p.Shaped() && p.Sid() <= k < |p.slots| && p.slots[k].phys == addr
    && forall j :: p.Sid() <= j < k ==> p.slots[j].phys != addr
  }

  /** After a release every address is mapped as the list without the released region says. */
  lemma ReleaseUnmaps(g: Granule, p: Pool, addr: U64, k: nat, va: nat)
    requires p.Shaped() && p.reserved != RESERVED_NUM && FirstAt(p, addr, k)
    ensures Expected(g, Release(p, addr).slots, va) == Expected(g, p.slots[..k] + p.slots[k + 1..], va)
    ensures Release(p, addr).slots[k].phys == INVALID_ADDR && Release(p, addr).reserved == p.reserved + 1
  {
    hide Expected, CoveredFrom;
    assert Find(p.slots, addr, p.Sid()) == k;
    var q := Release(p, addr);
    var r, rest := q.slots[k], p.slots[..k] + p.slots[k + 1..];
    assert q.slots == p.slots[k := r] && !Covers(g, r, va);
    ReplaceRegion(g, p.slots, k, r, va);
    RemoveRegion(g, p.slots, k, va);
  }

  lemma RemoveRegion(g: Granule, rs: seq<Region>, k: nat, va: nat)
    requires k < |rs|
    ensures Expected(g, rs[..k] + rs[k + 1..], va)
            == if CoveredFrom(g, rs, k + 1, va) then Expected(g, rs, va) else Expected(g, rs[..k], va)
  {
    hide Expected, Covers;
    var rest := rs[..k] + rs[k + 1..];
    assert rest[k..] == rs[k + 1..] && rest[..k] == rs[..k];
    ExpectedSuffix(g, rs, rest, k + 1, k, va);
    if k < |rest| {
      ExpectedSplit(g, rest, k, va);
    } else {
      assert rest == rs[..k];
      assert !CoveredFrom(g, rs, k + 1, va);
    }
  }

  /** A release of an address that no reserved slot holds, or with none in use, changes nothing. */
  lemma ReleaseOfOther(p: Pool, addr: U64)
    requires p.Shaped()
    requires p.reserved == RESERVED_NUM || forall j :: p.Sid() <= j < |p.slots| ==> p.slots[j].phys != addr
    ensures Release(p, addr) == p
  {
  }
}
