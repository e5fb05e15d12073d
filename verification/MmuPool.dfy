/**
 The run-time pool of reserved regions of demos/kp920/bsp/mmu.c: the last slots of the region
 table are handed out by mmu_request and taken back by mmu_release.
 */
module MmuPool {
  import opened Bits
  import opened Paging

  const RESERVED_NUM: nat := 8

  /** The region table and the counter g_mmu_map_reserved_num. */
  datatype Pool = Pool(slots: seq<Region>, reserved: int)
  {
    predicate Shaped() {
      |slots| >= RESERVED_NUM
    }

    function Sid(): nat
      requires Shaped()
    {
      |slots| - RESERVED_NUM
    }
  }

  /** The first slot from `i` on whose physical address is `addr`, or the end of the table. */
  function Find(slots: seq<Region>, addr: U64, i: nat): (k: nat)
    requires i <= |slots|
    ensures i <= k <= |slots|
    ensures forall j :: i <= j < k ==> slots[j].phys != addr
    ensures k < |slots| ==> slots[k].phys == addr
    decreases |slots| - i
  {
    if i == |slots| || slots[i].phys == addr then i else Find(slots, addr, i + 1)
  }

  function FreeFrom(slots: seq<Region>, i: nat): nat
    requires i <= |slots|
    decreases |slots| - i
  {
    if i == |slots| then 0 else FreeFrom(slots, i + 1) + if slots[i].phys == INVALID_ADDR then 1 else 0
  }

  function FreeSlots(p: Pool): nat
    requires p.Shaped()
  {
    FreeFrom(p.slots, p.Sid())
  }

  function Used(r: Region, addr: U64, length: U64): Region { r.(virt := addr, phys := addr, size := length) }

  function Freed(r: Region): Region { r.(virt := INVALID_ADDR, phys := INVALID_ADDR, size := 0) }

  // ---- The two operations as functions of the pool ----

  function Request(p: Pool, addr: U64, length: U64): (r: (Pool, int))
    requires p.Shaped()
  {
    if p.reserved == 0 then (p, -1)
    else
      var k := Find(p.slots, INVALID_ADDR, p.Sid());
      if k == |p.slots| then (p, -4)
      else (Pool(p.slots[k := Used(p.slots[k], addr, length)], p.reserved - 1), 0)
  }

  function Release(p: Pool, addr: U64): (r: Pool)
    requires p.Shaped()
  {
    if p.reserved == RESERVED_NUM then p
    else
      var k := Find(p.slots, addr, p.Sid());
      if k == |p.slots| then p
      else Pool(p.slots[k := Freed(p.slots[k])], p.reserved + 1)
  }

  /** The operations as the source performs them, on the table in place. */
  class RegionTable {
    const slots: array<Region>
    var reserved: int

    constructor (table: array<Region>)
      requires table.Length >= RESERVED_NUM
      ensures slots == table && reserved == RESERVED_NUM
    {
      slots := table;
      reserved := RESERVED_NUM;
    }

    ghost function Contents(): Pool
      reads this, slots
    {
      Pool(slots[..], reserved)
    }

    method MmuRequest(addr: U64, length: U64) returns (ret: int)
      requires Contents().Shaped()
      modifies this, slots
      ensures (Contents(), ret) == Request(old(Contents()), addr, length)
    {
      if reserved == 0 {
        return -1;
      }
      var i := slots.Length - RESERVED_NUM;
      while i < slots.Length && slots[i].phys != INVALID_ADDR
        invariant slots.Length - RESERVED_NUM <= i <= slots.Length
        invariant Find(slots[..], INVALID_ADDR, slots.Length - RESERVED_NUM) == Find(slots[..], INVALID_ADDR, i)
      {
        i := i + 1;
      }
      if i == slots.Length {
        return -4;
      }
      slots[i] := slots[i].(virt := addr, phys := addr, size := length);
      reserved := reserved - 1;
      return 0;
    }

    method MmuRelease(addr: U64)
      requires Contents().Shaped()
      modifies this, slots
      ensures Contents() == Release(old(Contents()), addr)
    {
      if reserved == RESERVED_NUM {
        return;
      }
      var i := slots.Length - RESERVED_NUM;
      while i < slots.Length && slots[i].phys != addr
        invariant slots.Length - RESERVED_NUM <= i <= slots.Length
        invariant Find(slots[..], addr, slots.Length - RESERVED_NUM) == Find(slots[..], addr, i)
      {
        i := i + 1;
      }
      if i == slots.Length {
        return;
      }
      slots[i] := slots[i].(phys := INVALID_ADDR, virt := INVALID_ADDR, size := 0);
      reserved := reserved + 1;
    }
  }

  // ---- Counting ----

  lemma {:induction false} FreeFromUpdate(slots: seq<Region>, i: nat, k: nat, r: Region)
    requires i <= |slots| && k < |slots|
    ensures FreeFrom(slots[k := r], i)
            == FreeFrom(slots, i)
               + (if i > k then 0
                  else (if r.phys == INVALID_ADDR then 1 else 0) - (if slots[k].phys == INVALID_ADDR then 1 else 0))
    decreases |slots| - i
  {
    if i < |slots| {
      FreeFromUpdate(slots, i + 1, k, r);
    }
  }

  lemma {:induction false} FreeFromBounds(slots: seq<Region>, i: nat)
    requires i <= |slots|
    ensures FreeFrom(slots, i) <= |slots| - i
    ensures FreeFrom(slots, i) == 0 <==> Find(slots, INVALID_ADDR, i) == |slots|
    decreases |slots| - i
  {
    if i < |slots| {
      FreeFromBounds(slots, i + 1);
    }
  }

  ghost predicate Accounted(p: Pool)
  {
    p.Shaped() && p.reserved == FreeSlots(p)
  }

  /** The counter stays the number of free slots, except when the address that marks a free slot is itself requested. */
  lemma RequestAccounts(p: Pool, addr: U64, length: U64)
    requires Accounted(p)
    ensures Accounted(Request(p, addr, length).0) <==> addr != INVALID_ADDR || FreeSlots(p) == 0
    ensures Request(p, addr, length).1 == if FreeSlots(p) == 0 then -1 else 0
  {
    FreeFromBounds(p.slots, p.Sid());
    var k := Find(p.slots, INVALID_ADDR, p.Sid());
    if k < |p.slots| {
      FreeFromUpdate(p.slots, p.Sid(), k, Used(p.slots[k], addr, length));
    }
  }

  /**
   Releasing the address that marks a free slot counts a free slot twice, unless there is none or nothing is in use.
   */
  lemma ReleaseAccounts(p: Pool, addr: U64)
    requires Accounted(p)
    ensures Accounted(Release(p, addr)) <==> addr != INVALID_ADDR || FreeSlots(p) == 0 || FreeSlots(p) == RESERVED_NUM
  {
    FreeFromBounds(p.slots, p.Sid());
    var k := Find(p.slots, addr, p.Sid());
    if k < |p.slots| {
      FreeFromUpdate(p.slots, p.Sid(), k, Freed(p.slots[k]));
    }
  }

  lemma ReleaseOfInvalidMiscounts(fixed: seq<Region>, free: Region, used: Region)
    requires free.phys == INVALID_ADDR && used.phys != INVALID_ADDR
    ensures var p := Pool(fixed + [used, free, free, free, free, free, free, free], 7);
            Accounted(p) && !Accounted(Release(p, INVALID_ADDR))
  {
    var p := Pool(fixed + [used, free, free, free, free, free, free, free], 7);
    var s, n := p.slots, |fixed|;
    assert FreeFrom(s, n + 8) == 0;
    assert FreeFrom(s, n + 6) == 2;
    assert FreeFrom(s, n + 4) == 4;
    assert FreeFrom(s, n + 2) == 6;
    assert FreeFrom(s, n) == 7;
    ReleaseAccounts(p, INVALID_ADDR);
  }

  /** Requesting the address that marks a free slot takes one from the counter and leaves all slots free. */
  lemma RequestOfInvalidMiscounts(fixed: seq<Region>, free: Region, length: U64)
    requires free.phys == INVALID_ADDR
    ensures var p := Pool(fixed + [free, free, free, free, free, free, free, free], 8);
            Accounted(p) && Request(p, INVALID_ADDR, length).1 == 0 && !Accounted(Request(p, INVALID_ADDR, length).0)
  {
    var p := Pool(fixed + [free, free, free, free, free, free, free, free], 8);
    var s, n := p.slots, |fixed|;
    assert FreeFrom(s, n + 8) == 0;
    assert FreeFrom(s, n + 6) == 2;
    assert FreeFrom(s, n + 4) == 4;
    assert FreeFrom(s, n + 2) == 6;
    assert FreeFrom(s, n) == 8;
    RequestAccounts(p, INVALID_ADDR, length);
  }

  // ---- Whole runs ----

  datatype Call = RequestCall(addr: U64, length: U64) | ReleaseCall(addr: U64)

  function Step(p: Pool, call: Call): Pool
    requires p.Shaped()
  {
    match call
    case RequestCall(addr, length) => Request(p, addr, length).0
    case ReleaseCall(addr) => Release(p, addr)
  }

  lemma StepShape(p: Pool, call: Call)
    requires p.Shaped()
    ensures |Step(p, call).slots| == |p.slots|
    ensures Step(p, call).slots[..p.Sid()] == p.slots[..p.Sid()]
    ensures forall i :: 0 <= i < |p.slots| ==>
              Step(p, call).slots[i].maxLevel == p.slots[i].maxLevel && Step(p, call).slots[i].attrs == p.slots[i].attrs
  {
  }

  ghost function Run(p: Pool, calls: seq<Call>): Pool
    requires p.Shaped()
    decreases |calls|
  {
    if calls == [] then p
    else
      StepShape(p, calls[0]);
      Run(Step(p, calls[0]), calls[1..])
  }

  /**
   Over every run that never names the invalid address, the counter is right and the fixed regions stay as they were.
   */
  lemma {:induction false} RunAccounts(p: Pool, calls: seq<Call>)
    requires Accounted(p) && forall i :: 0 <= i < |calls| ==> calls[i].addr != INVALID_ADDR
    ensures var q := Run(p, calls);
            && Accounted(q) && 0 <= q.reserved <= RESERVED_NUM
            && |q.slots| == |p.slots| && q.slots[..p.Sid()] == p.slots[..p.Sid()]
    decreases |calls|
  {
    FreeFromBounds(p.slots, p.Sid());
    if calls != [] {
      var call := calls[0];
      match call {
        case RequestCall(addr, length) => RequestAccounts(p, addr, length);
        case ReleaseCall(addr) => ReleaseAccounts(p, addr);
      }
      StepShape(p, call);
      RunAccounts(Step(p, call), calls[1..]);
    }
  }

  // ---- Release undoes request ----

  /** A free slot is blank in every field that mmu_request fills in. */
  ghost predicate Clean(p: Pool)
  {
    && p.Shaped()
    && forall i :: p.Sid() <= i < |p.slots| && p.slots[i].phys == INVALID_ADDR ==> p.slots[i] == Freed(p.slots[i])
  }

  /** Over every run that never names the invalid address, free slots stay blank. */
  lemma {:induction false} RunClean(p: Pool, calls: seq<Call>)
    requires Clean(p) && forall i :: 0 <= i < |calls| ==> calls[i].addr != INVALID_ADDR
    ensures Clean(Run(p, calls))
    decreases |calls|
  {
    hide Clean;
    if calls != [] {
      CleanShaped(p);
      StepShape(p, calls[0]);
      StepClean(p, calls[0]);
      RunClean(Step(p, calls[0]), calls[1..]);
    }
  }

  lemma CleanShaped(p: Pool)
    requires Clean(p)
    ensures p.Shaped()
  {
  }

  lemma StepClean(p: Pool, call: Call)
    requires Clean(p) && call.addr != INVALID_ADDR
    ensures Clean(Step(p, call))
  {
  }

  /** In every state that a run reaches, releasing an address just requested restores the pool. */
  lemma ReleaseUndoesRequest(p: Pool, addr: U64, length: U64)
    requires Accounted(p) && Clean(p) && FreeSlots(p) > 0 && addr != INVALID_ADDR
    requires forall i :: p.Sid() <= i < |p.slots| ==> p.slots[i].phys != addr
    ensures Release(Request(p, addr, length).0, addr) == p
  {
    FreeFromBounds(p.slots, p.Sid());
    var k := Find(p.slots, INVALID_ADDR, p.Sid());
    var q := Request(p, addr, length).0;
    var k' := Find(q.slots, addr, q.Sid());
    assert q.slots[k].phys == addr;
    assert k' == k;
    assert Freed(q.slots[k]) == Freed(p.slots[k]) == p.slots[k];
    assert q.slots[k := Freed(q.slots[k])] == p.slots;
  }
}
