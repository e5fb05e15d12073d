/**
 The interrupt translation service as a machine that executes commands, and the commands that
 demos/ascend310b/bsp/prt_gic_its.c issues for a list of devices.
 */
module Its {
  import opened Bits
  import opened Options
  import opened ItsCommands

  // ---- The machine ----

  datatype Table = Table(bits: nat, itt: nat)
  datatype Route = Route(intId: nat, icid: nat)

  /**
   `devices` is the device table, `memory` the translation tables it points to. Those tables may hold anything before
   they are written. `errors` counts commands the hardware refuses.
   */
  datatype Its = Its(devices: map<nat, Table>, memory: map<(nat, nat), Route>, pending: set<nat>, errors: nat)

  predicate Mapped(its: Its, device: nat, event: nat)
  {
    device in its.devices && event < Pow2(its.devices[device].bits)
  }

  function Translate(its: Its, device: nat, event: nat): Option<Route>
  {
    if Mapped(its, device, event) && (its.devices[device].itt, event) in its.memory
    then Some(its.memory[(its.devices[device].itt, event)]) else None
  }

  function Refuse(its: Its): Its { its.(errors := its.errors + 1) }

  function Exec(its: Its, cmd: Cmd): Its
  {
    match cmd
    case MapD(device, size, itt, valid) =>
      if valid == 1 then its.(devices := its.devices[device as nat := Table(size + 1, itt)])
      else its.(devices := its.devices - {device})
    case MapTI(device, event, intId, icid) =>
      if Mapped(its, device, event)
      then its.(memory := its.memory[(its.devices[device as nat].itt, event as nat) := Route(intId, icid)])
      else Refuse(its)
    case Int(device, event) =>
      var t := Translate(its, device, event);
      if t.Some? then its.(pending := its.pending + {t.value.intId}) else Refuse(its)
    case Clear(device, event) =>
      var t := Translate(its, device, event);
      if t.Some? then its.(pending := its.pending - {t.value.intId}) else Refuse(its)
    case Inv(device, event) => if Translate(its, device, event).Some? then its else Refuse(its)
    case MapC(_, _, _) => its
    case InvAll(_) => its
    case Sync(_) => its
    case Unknown => Refuse(its)
  }

  function ExecAll(its: Its, cmds: seq<Cmd>): Its
  {
    if cmds == [] then its else Exec(ExecAll(its, cmds[..|cmds| - 1]), cmds[|cmds| - 1])
  }

  lemma {:induction false} ExecAppend(its: Its, a: seq<Cmd>, b: seq<Cmd>)
    ensures ExecAll(its, a + b) == ExecAll(ExecAll(its, a), b)
  {
    hide Exec;
    if b == [] {
      assert a + b == a;
    } else {
      ExecAppend(its, a, b[..|b| - 1]);
      assert (a + b)[..|a + b| - 1] == a + b[..|b| - 1];
    }
  }

  /** What the queue carries: each command followed by a SYNC once a redistributor is known. */
  function WithSync(rd: U64, cmds: seq<Cmd>): seq<Cmd>
  {
    if cmds == [] then []
    else WithSync(rd, cmds[..|cmds| - 1]) + [cmds[|cmds| - 1]] + if rd != 0 then [Sync(rd)] else []
  }

  /** Command `i` is at its place, and its SYNC directly behind it. */
  lemma {:induction false} WithSyncAt(rd: U64, cmds: seq<Cmd>, i: nat)
    requires i < |cmds|
    ensures rd == 0 ==> WithSync(rd, cmds) == cmds
    ensures rd != 0 ==> |WithSync(rd, cmds)| == 2 * |cmds|
    ensures rd != 0 ==> WithSync(rd, cmds)[2 * i] == cmds[i] && WithSync(rd, cmds)[2 * i + 1] == Sync(rd)
  {
    var n := |cmds| - 1;
    var init := cmds[..n];
    assert cmds == init + [cmds[n]];
    if n == 0 {
      assert WithSync(rd, init) == [];
    } else {
      WithSyncAt(rd, init, if i < n then i else 0);
    }
  }

  lemma {:induction false} WithSyncAppend(rd: U64, a: seq<Cmd>, b: seq<Cmd>)
    ensures WithSync(rd, a + b) == WithSync(rd, a) + WithSync(rd, b)
  {
    if b == [] {
      assert a + b == a;
    } else {
      WithSyncAppend(rd, a, b[..|b| - 1]);
      assert (a + b)[..|a + b| - 1] == a + b[..|b| - 1];
    }
  }

  lemma {:induction false} SyncsChangeNothing(its: Its, rd: U64, cmds: seq<Cmd>)
    ensures ExecAll(its, WithSync(rd, cmds)) == ExecAll(its, cmds)
  {
    if cmds != [] {
      var init, c := cmds[..|cmds| - 1], cmds[|cmds| - 1];
      SyncsChangeNothing(its, rd, init);
      var a := WithSync(rd, init);
      ExecSnoc(its, a, c);
      ExecSnoc(its, a + [c], Sync(rd));
      assert a + [c] + [] == a + [c];
    }
  }

  lemma ExecSnoc(its: Its, a: seq<Cmd>, c: Cmd)
    ensures ExecAll(its, a + [c]) == Exec(ExecAll(its, a), c)
  {
    assert (a + [c])[..|a|] == a;
  }

  // ---- The commands for a list of devices ----

  datatype DeviceInfo = DeviceInfo(device: U32, hwirqBase: U32, eventNr: U32)

  /** The position of the highest set bit, counted from one: __fls. */
  function Fls(v: nat): nat
  {
    if v == 0 then 0 else 1 + Fls(v / 2)
  }

  function EventBits(nr: nat): (b: nat)
    ensures b > 0
  {
    if Fls(nr) == 0 then 1 else Fls(nr)
  }

  lemma {:induction false} FlsBounds(v: nat)
    ensures v < Pow2(Fls(v))
    ensures v > 0 ==> Pow2(Fls(v)) <= 2 * v
  {
    if v > 0 {
      FlsBounds(v / 2);
      if v / 2 == 0 {
        assert Fls(0) == 0;
      }
    }
  }

  /**
   The table is always larger than the number of events but no more than twice as large, and below 2^31 events the
   shift stays defined.
   */
  lemma EventBitsBounds(nr: nat)
    ensures nr < Pow2(EventBits(nr))
    ensures nr > 0 ==> Pow2(EventBits(nr)) <= 2 * nr
    ensures nr < 0x8000_0000 ==> EventBits(nr) <= 31
  {
    FlsBounds(nr);
    if nr < 0x8000_0000 && Fls(nr) > 31 {
      Pow2Monotone(32, Fls(nr));
      assert Pow2(32) == 0x1_0000_0000 by { Pow2Values(); }
    }
  }

  function Hwirq(d: DeviceInfo, event: nat): U32
  {
    (d.hwirqBase + event) % U32_SIZE
  }

  function RouteCmds(d: DeviceInfo, event: U32, icid: U32): seq<Cmd>
  {
    [MapTI(d.device, event, Hwirq(d, event), icid), Inv(d.device, event)]
  }

  function EventCmds(d: DeviceInfo, n: nat, icid: U32): seq<Cmd>
    requires n <= U32_SIZE
  {
    if n == 0 then [] else EventCmds(d, n - 1, icid) + RouteCmds(d, n - 1, icid)
  }

  predicate Mappable(d: DeviceInfo)
  {
    d.eventNr < 0x8000_0000
  }

  function EventSpace(d: DeviceInfo): (n: nat)
    requires Mappable(d)
    ensures d.eventNr < n <= 0x8000_0000
    ensures d.eventNr > 0 ==> n <= 2 * d.eventNr
  {
    EventBitsBounds(d.eventNr);
    Pow2Monotone(EventBits(d.eventNr), 31);
    assert Pow2(31) == 0x8000_0000 by { Pow2Values(); }
    Pow2(EventBits(d.eventNr))
  }

  function DeviceCmds(d: DeviceInfo, itt: U64, icid: U32): seq<Cmd>
    requires Mappable(d)
  {
    EventBitsBounds(d.eventNr);
    [MapD(d.device, EventBits(d.eventNr) - 1, itt, 1)] + EventCmds(d, EventSpace(d), icid)
  }

  function SetupCmds(ds: seq<DeviceInfo>, itts: seq<U64>, icid: U32): seq<Cmd>
    requires |ds| <= |itts| && forall i :: 0 <= i < |ds| ==> Mappable(ds[i])
  {
    if ds == [] then []
    else SetupCmds(ds[..|ds| - 1], itts, icid) + DeviceCmds(ds[|ds| - 1], itts[|ds| - 1], icid)
  }

  // ---- Each route is invalidated ----

  /** The MAPTI at `i` is followed by an INV of the same device and event, before any other MAPTI. */
  ghost predicate Followed(cmds: seq<Cmd>, i: nat)
    requires i < |cmds| && cmds[i].MapTI?
  {
    exists j :: i < j < |cmds| && cmds[j] == Cmd.Inv(cmds[i].device, cmds[i].event) && NoMapTI(cmds, i, j)
  }

  ghost predicate NoMapTI(cmds: seq<Cmd>, i: nat, j: nat)
    requires j < |cmds|
  {
    forall l :: i < l < j ==> !cmds[l].MapTI?
  }

  ghost predicate Invalidated(cmds: seq<Cmd>)
  {
    forall i :: 0 <= i < |cmds| && cmds[i].MapTI? ==> Followed(cmds, i)
  }

  lemma InvalidatedAppend(a: seq<Cmd>, b: seq<Cmd>)
    requires Invalidated(a) && Invalidated(b)
    ensures Invalidated(a + b)
  {
    var c := a + b;
    forall i | 0 <= i < |c| && c[i].MapTI? ensures Followed(c, i) {
      if i < |a| {
        assert Followed(a, i);
        var j :| i < j < |a| && a[j] == Cmd.Inv(a[i].device, a[i].event) && NoMapTI(a, i, j);
        assert c[j] == Cmd.Inv(c[i].device, c[i].event) && NoMapTI(c, i, j);
      } else {
        var k := i - |a|;
        assert Followed(b, k);
        var j :| k < j < |b| && b[j] == Cmd.Inv(b[k].device, b[k].event) && NoMapTI(b, k, j);
        forall l | i < l < |a| + j ensures !c[l].MapTI? {
          assert c[l] == b[l - |a|];
        }
        assert c[|a| + j] == Cmd.Inv(c[i].device, c[i].event) && NoMapTI(c, i, |a| + j);
      }
    }
  }

  lemma RouteInvalidated(rd: U64, d: DeviceInfo, event: U32, icid: U32)
    ensures Invalidated(WithSync(rd, RouteCmds(d, event, icid)))
  {
    hide Hwirq;
    var m, i := MapTI(d.device, event, Hwirq(d, event), icid), Cmd.Inv(d.device, event);
    var s, j := WithSync(rd, [m, i]), if rd != 0 then 2 else 1;
    WithSyncAt(rd, [m, i], 0);
    WithSyncAt(rd, [m, i], 1);
    assert s == if rd != 0 then [m, Sync(rd), i, Sync(rd)] else [m, i];
    assert s[j] == i && NoMapTI(s, 0, j);
  }

  lemma {:induction false} EventsInvalidated(rd: U64, d: DeviceInfo, n: nat, icid: U32)
    requires n <= U32_SIZE
    ensures Invalidated(WithSync(rd, EventCmds(d, n, icid)))
  {
    hide Invalidated, RouteCmds;
    if n == 0 {
      NothingInvalidated(rd);
    } else {
      EventsInvalidated(rd, d, n - 1, icid);
      RouteInvalidated(rd, d, n - 1, icid);
      WithSyncAppend(rd, EventCmds(d, n - 1, icid), RouteCmds(d, n - 1, icid));
      InvalidatedAppend(WithSync(rd, EventCmds(d, n - 1, icid)), WithSync(rd, RouteCmds(d, n - 1, icid)));
    }
  }

  lemma NothingInvalidated(rd: U64)
    ensures WithSync(rd, []) == [] && Invalidated([])
  {
  }

  /** What the hardware is sent for a device: every route it is given is invalidated. */
  lemma DeviceInvalidated(rd: U64, d: DeviceInfo, itt: U64, icid: U32)
    requires Mappable(d)
    ensures Invalidated(WithSync(rd, DeviceCmds(d, itt, icid)))
  {
    hide EventCmds, EventSpace, EventBits;
    EventBitsBounds(d.eventNr);
    var m := MapD(d.device, EventBits(d.eventNr) - 1, itt, 1);
    assert WithSync(rd, [m]) == if rd != 0 then [m, Sync(rd)] else [m] by {
      assert [m][..0] == [] && WithSync(rd, []) == [];
    }
    EventsInvalidated(rd, d, EventSpace(d), icid);
    WithSyncAppend(rd, [m], EventCmds(d, EventSpace(d), icid));
    InvalidatedAppend(WithSync(rd, [m]), WithSync(rd, EventCmds(d, EventSpace(d), icid)));
  }

  // ---- What they set up ----

  /** The events below `n` of a device are routed to consecutive interrupts. */
  predicate Routed(its: Its, d: DeviceInfo, itt: nat, n: nat, icid: nat)
  {
    forall e :: 0 <= e < n ==> (itt, e) in its.memory && its.memory[(itt, e)] == Route(Hwirq(d, e), icid)
  }

  /** Only the table at `itt` differs. */
  predicate Untouched(its: Its, r: Its, itt: nat)
  {
    forall k :: k in its.memory && k.0 != itt ==> k in r.memory && r.memory[k] == its.memory[k]
  }

  lemma {:induction false} EventsRouted(its: Its, d: DeviceInfo, itt: nat, n: nat, icid: U32)
    requires n <= U32_SIZE && d.device in its.devices && its.devices[d.device].itt == itt
             && n <= Pow2(its.devices[d.device].bits)
    ensures var r := ExecAll(its, EventCmds(d, n, icid));
            && r.devices == its.devices && r.pending == its.pending && r.errors == its.errors
            && Routed(r, d, itt, n, icid)
            && Untouched(its, r, itt)
  {
    hide Pow2, Hwirq, ExecAll, EventCmds;
    if n == 0 {
      assert EventCmds(d, 0, icid) == [] && ExecAll(its, []) == its by { NoEvents(its, d, icid); }
    } else {
      EventsRouted(its, d, itt, n - 1, icid);
      OneMoreEvent(its, d, itt, n - 1, icid);
    }
  }

  lemma NoEvents(its: Its, d: DeviceInfo, icid: U32)
    ensures EventCmds(d, 0, icid) == [] && ExecAll(its, []) == its
  {
  }

  lemma OneMoreEvent(its: Its, d: DeviceInfo, itt: nat, e: U32, icid: U32)
    requires var mid := ExecAll(its, EventCmds(d, e, icid));
             && d.device in mid.devices && mid.devices[d.device].itt == itt
             && e < Pow2(mid.devices[d.device].bits)
    ensures var mid := ExecAll(its, EventCmds(d, e, icid));
            ExecAll(its, EventCmds(d, e + 1, icid))
            == mid.(memory := mid.memory[(itt, e as nat) := Route(Hwirq(d, e), icid)])
  {
    hide Pow2, Hwirq, Exec, ExecAll;
    var a := EventCmds(d, e, icid);
    var m, i := MapTI(d.device, e, Hwirq(d, e), icid), ItsCommands.Cmd.Inv(d.device, e);
    assert EventCmds(d, e + 1, icid) == a + [m] + [i];
    ExecSnoc(its, a, m);
    ExecSnoc(its, a + [m], i);
    EventRouted(ExecAll(its, a), d, itt, e, icid);
  }

  lemma EventRouted(its: Its, d: DeviceInfo, itt: nat, e: U32, icid: U32)
    requires d.device in its.devices && its.devices[d.device].itt == itt && e < Pow2(its.devices[d.device].bits)
    ensures Exec(Exec(its, MapTI(d.device, e, Hwirq(d, e), icid)), ItsCommands.Cmd.Inv(d.device, e))
            == its.(memory := its.memory[(itt, e as nat) := Route(Hwirq(d, e), icid)])
  {
    hide Pow2, Hwirq;
  }

  lemma DeviceMapped(its: Its, d: DeviceInfo, itt: U64, icid: U32)
    requires Mappable(d)
    ensures var r := ExecAll(its, DeviceCmds(d, itt, icid));
            && r.devices == its.devices[d.device as nat := Table(EventBits(d.eventNr), itt)]
            && r.pending == its.pending && r.errors == its.errors
            && Routed(r, d, itt, EventSpace(d), icid)
            && Untouched(its, r, itt)
  {
    hide Routed, EventCmds, ExecAll, Exec, EventBits, Pow2;
    EventBitsBounds(d.eventNr);
    var m := MapD(d.device, EventBits(d.eventNr) - 1, itt, 1);
    ExecAppend(its, [m], EventCmds(d, EventSpace(d), icid));
    ExecOne(its, m);
    DeviceTabled(its, d, itt);
    EventsRouted(Exec(its, m), d, itt, EventSpace(d), icid);
  }

  lemma ExecOne(its: Its, c: Cmd)
    ensures ExecAll(its, [c]) == Exec(its, c)
  {
    ExecSnoc(its, [], c);
    assert [] + [c] == [c] && ExecAll(its, []) == its;
  }

  lemma DeviceTabled(its: Its, d: DeviceInfo, itt: U64)
    requires 0 < EventBits(d.eventNr) <= 32
    ensures Exec(its, MapD(d.device, EventBits(d.eventNr) - 1, itt, 1))
            == its.(devices := its.devices[d.device as nat := Table(EventBits(d.eventNr), itt)])
  {
    hide EventBits;
  }

  // ---- Room for the table ----

  /** The bytes its_map_device_id_to_itt asks for: a product of unsigned 32-bit numbers. */
  function TableAlloc(d: DeviceInfo, entrySize: U32): U32
    requires Mappable(d)
  {
    EventSpace(d) * entrySize % U32_SIZE
  }

  /** The declared table fits what was allocated exactly when the product does not wrap. */
  lemma TableFits(d: DeviceInfo, entrySize: U32)
    requires Mappable(d)
    ensures EventSpace(d) * entrySize <= TableAlloc(d, entrySize) <==> EventSpace(d) * entrySize < U32_SIZE
  {
    hide EventSpace;
    var x := EventSpace(d) * entrySize;
    if x < U32_SIZE {
      RemainderIs(x, U32_SIZE, 0, x);
    }
  }

  lemma {:induction false} FlsOfPower(k: nat)
    ensures Fls(Pow2(k)) == k + 1
  {
    if k > 0 {
      FlsOfPower(k - 1);
    }
  }

  /** 2^28 events with entries of eight bytes: the driver asks for no memory at all. */
  lemma TableTooLarge(d: DeviceInfo)
    requires d.eventNr == 0x1000_0000
    ensures Mappable(d) && EventSpace(d) == 0x2000_0000 && TableAlloc(d, 8) == 0
  {
    hide Fls, Pow2;
    Pow2Add(27, 1);
    assert Pow2(27) == 0x800_0000 && Pow2(29) == 0x2000_0000 && Pow2(1) == 2 by { Pow2Values(); Pow2Add(1, 1); }
    FlsOfPower(28);
  }

  predicate LastOf(ds: seq<DeviceInfo>, i: nat)
  {
    i < |ds| && forall j :: i < j < |ds| ==> ds[j].device != ds[i].device
  }

  predicate Setup(its: Its, ds: seq<DeviceInfo>, itts: seq<U64>, icid: nat)
    requires |ds| <= |itts| && forall i :: 0 <= i < |ds| ==> Mappable(ds[i])
  {
    forall i :: 0 <= i < |ds| && LastOf(ds, i) ==>
      && ds[i].device in its.devices && its.devices[ds[i].device] == Table(EventBits(ds[i].eventNr), itts[i])
      && Routed(its, ds[i], itts[i], EventSpace(ds[i]), icid)
  }

  /**
   After the commands for a device list, every device is mapped as the last entry for it asks, no command was refused,
   and nothing depends on what the translation tables held before.
   */
  lemma {:induction false} SetupRoutes(its: Its, ds: seq<DeviceInfo>, itts: seq<U64>, icid: U32)
    requires |ds| <= |itts| && forall i :: 0 <= i < |ds| ==> Mappable(ds[i])
    requires forall i, j :: 0 <= i < j < |ds| ==> itts[i] != itts[j]
    ensures var r := ExecAll(its, SetupCmds(ds, itts, icid));
            && r.errors == its.errors && r.pending == its.pending
            && Setup(r, ds, itts, icid)
  {
    hide Routed, Untouched, ExecAll, SetupCmds, DeviceCmds, EventSpace, EventBits;
    SetupStep(its, ds, itts, icid);
    if ds != [] {
      var n := |ds| - 1;
      var init := ds[..n];
      SetupRoutes(its, init, itts, icid);
      var mid := ExecAll(its, SetupCmds(init, itts, icid));
      DeviceMapped(mid, ds[n], itts[n], icid);
      var r := ExecAll(its, SetupCmds(ds, itts, icid));
      forall i | 0 <= i < n && LastOf(ds, i)
        ensures && ds[i].device in r.devices && r.devices[ds[i].device] == Table(EventBits(ds[i].eventNr), itts[i])
                && Routed(r, ds[i], itts[i], EventSpace(ds[i]), icid)
      {
        assert LastOf(init, i);
        assert ds[n].device != ds[i].device;
        RoutedKept(mid, r, init[i], itts[i], EventSpace(init[i]), icid, itts[n]);
      }
    }
  }

  lemma SetupStep(its: Its, ds: seq<DeviceInfo>, itts: seq<U64>, icid: U32)
    requires |ds| <= |itts| && forall i :: 0 <= i < |ds| ==> Mappable(ds[i])
    ensures var r, n := ExecAll(its, SetupCmds(ds, itts, icid)), |ds| - 1;
            if ds == [] then r == its
            else r == ExecAll(ExecAll(its, SetupCmds(ds[..n], itts, icid)), DeviceCmds(ds[n], itts[n], icid))
  {
    hide DeviceCmds;
    if ds != [] {
      var n := |ds| - 1;
      ExecAppend(its, SetupCmds(ds[..n], itts, icid), DeviceCmds(ds[n], itts[n], icid));
    }
  }

  lemma RoutedKept(its: Its, r: Its, d: DeviceInfo, itt: nat, n: nat, icid: nat, other: nat)
    requires Routed(its, d, itt, n, icid) && itt != other
    requires Untouched(its, r, other)
    ensures Routed(r, d, itt, n, icid)
  {
  }

  /** Exactly the events of the declared range translate, each to its own interrupt. */
  lemma SetupTranslates(its: Its, ds: seq<DeviceInfo>, itts: seq<U64>, icid: U32, i: nat, event: nat)
    requires |ds| <= |itts| && (forall i :: 0 <= i < |ds| ==> Mappable(ds[i])) && LastOf(ds, i)
    requires forall i, j :: 0 <= i < j < |ds| ==> itts[i] != itts[j]
    ensures Translate(ExecAll(its, SetupCmds(ds, itts, icid)), ds[i].device, event)
            == if event < EventSpace(ds[i]) then Some(Route(Hwirq(ds[i], event), icid)) else None
  {
    SetupRoutes(its, ds, itts, icid);
    hide SetupCmds, ExecAll;
  }

  // ---- Shared interrupts ----

  /** How far the interrupts of `d` start behind those of `from`, counted around the 32-bit numbers. */
  function Distance(from: DeviceInfo, d: DeviceInfo): nat
  {
    if from.hwirqBase <= d.hwirqBase then d.hwirqBase - from.hwirqBase else d.hwirqBase + U32_SIZE - from.hwirqBase
  }

  ghost predicate Meet(a: DeviceInfo, e: nat, b: DeviceInfo, f: nat)
    requires Mappable(a) && Mappable(b)
  {
    e < EventSpace(a) && f < EventSpace(b) && Hwirq(a, e) == Hwirq(b, f)
  }

  /**
   Two devices have events that reach the same interrupt exactly when one starts inside the declared range of the
   other.
   */
  lemma RangesMeet(a: DeviceInfo, b: DeviceInfo)
    requires Mappable(a) && Mappable(b)
    ensures (exists e: nat, f: nat :: Meet(a, e, b, f))
            <==> Distance(a, b) < EventSpace(a) || Distance(b, a) < EventSpace(b)
  {
    hide EventSpace;
    if Distance(a, b) < EventSpace(a) {
      assert Meet(a, Distance(a, b), b, 0);
    }
    if Distance(b, a) < EventSpace(b) {
      assert Meet(a, 0, b, Distance(b, a));
    }
    forall e: nat, f: nat | Meet(a, e, b, f) ensures Distance(a, b) < EventSpace(a) || Distance(b, a) < EventSpace(b) {
      Apart(a.hwirqBase, e, b.hwirqBase, f);
    }
  }

  lemma Apart(x: nat, e: nat, y: nat, f: nat)
    requires x < U32_SIZE && y < U32_SIZE && e < 0x8000_0000 && f < 0x8000_0000
    requires (x + e) % U32_SIZE == (y + f) % U32_SIZE
    ensures x + e == y + f || x + e == y + f + U32_SIZE || x + e + U32_SIZE == y + f
  {
  }

  /** After setup, two events of devices in the list translate alike exactly when their interrupt numbers meet. */
  lemma SameInterrupt(its: Its, ds: seq<DeviceInfo>, itts: seq<U64>, icid: U32, i: nat, e: nat, j: nat, f: nat)
    requires |ds| <= |itts| && (forall i :: 0 <= i < |ds| ==> Mappable(ds[i])) && LastOf(ds, i) && LastOf(ds, j)
    requires forall i, j :: 0 <= i < j < |ds| ==> itts[i] != itts[j]
    requires e < EventSpace(ds[i]) && f < EventSpace(ds[j])
    ensures var r := ExecAll(its, SetupCmds(ds, itts, icid));
            Translate(r, ds[i].device, e) == Translate(r, ds[j].device, f) <==> Meet(ds[i], e, ds[j], f)
  {
    hide SetupCmds, ExecAll, EventSpace, Hwirq, Translate;
    SetupTranslates(its, ds, itts, icid, i, e);
    SetupTranslates(its, ds, itts, icid, j, f);
  }

  /**
   The declared range is always larger than the event count. So the first event behind those of a device reaches the
   first interrupt of a device whose interrupts follow directly.
   */
  lemma SpareEventAliases(a: DeviceInfo, b: DeviceInfo)
    requires Mappable(a) && Mappable(b) && Distance(a, b) == a.eventNr
    ensures Meet(a, a.eventNr, b, 0)
  {
    hide EventSpace;
  }

  // ---- The reverse lookup ----

  predicate InRange(d: DeviceInfo, hwirq: U32)
  {
    d.hwirqBase <= hwirq < (d.hwirqBase + d.eventNr) % U32_SIZE
  }

  function FindDevice(ds: seq<DeviceInfo>, hwirq: U32, i: nat): (k: nat)
    requires i <= |ds|
    ensures i <= k <= |ds|
    ensures forall j :: i <= j < k ==> !InRange(ds[j], hwirq)
    ensures k < |ds| ==> InRange(ds[k], hwirq)
    decreases |ds| - i
  {
    if i == |ds| || InRange(ds[i], hwirq) then i else FindDevice(ds, hwirq, i + 1)
  }

  /** One of the device's own events has the interrupt. */
  ghost predicate Has(d: DeviceInfo, hwirq: U32)
  {
    exists e: nat :: e < d.eventNr && Hwirq(d, e) == hwirq
  }

  /** The comparison of the source finds the device's interrupts exactly when their numbers stay below 2^32. */
  lemma InRangeIs(d: DeviceInfo, hwirq: U32)
    ensures InRange(d, hwirq) <==> Has(d, hwirq) && d.hwirqBase + d.eventNr < U32_SIZE
  {
    if InRange(d, hwirq) {
      var e: nat := hwirq - d.hwirqBase;
      assert e < d.eventNr && Hwirq(d, e) == hwirq;
    }
    if Has(d, hwirq) && d.hwirqBase + d.eventNr < U32_SIZE {
      var e: nat :| e < d.eventNr && Hwirq(d, e) == hwirq;
      assert Hwirq(d, e) == d.hwirqBase + e;
    }
  }

  /**
   In terms of the list: the lookup succeeds exactly when some device has the interrupt in a range that does not wrap.
   */
  lemma LookupFinds(ds: seq<DeviceInfo>, hwirq: U32)
    ensures FindDevice(ds, hwirq, 0) < |ds|
            <==> exists i :: 0 <= i < |ds| && Has(ds[i], hwirq) && ds[i].hwirqBase + ds[i].eventNr < U32_SIZE
  {
    hide Has, InRange;
    forall i | 0 <= i < |ds|
      ensures InRange(ds[i], hwirq) <==> Has(ds[i], hwirq) && ds[i].hwirqBase + ds[i].eventNr < U32_SIZE
    {
      InRangeIs(ds[i], hwirq);
    }
  }

  /** For interrupts below 2^31, to which the driver restricts its callers, no range that holds one can wrap. */
  lemma LookupFindsLow(ds: seq<DeviceInfo>, hwirq: U32)
    requires hwirq < 0x8000_0000 && forall i :: 0 <= i < |ds| ==> Mappable(ds[i])
    ensures FindDevice(ds, hwirq, 0) < |ds|
            <==> exists i :: 0 <= i < |ds| && ds[i].hwirqBase <= hwirq < ds[i].hwirqBase + ds[i].eventNr
  {
    forall i | 0 <= i < |ds|
      ensures InRange(ds[i], hwirq) <==> ds[i].hwirqBase <= hwirq < ds[i].hwirqBase + ds[i].eventNr
    {
      assert Mappable(ds[i]);
    }
  }

  /** A device whose four interrupts end at 2^32 has this one, and the lookup misses it. */
  lemma WrappedRangeMissed()
    ensures var d := DeviceInfo(1, 0xFFFF_FFFC, 4); Has(d, 0xFFFF_FFFD) && FindDevice([d], 0xFFFF_FFFD, 0) == 1
  {
    var d := DeviceInfo(1, 0xFFFF_FFFC, 4);
    assert 1 < d.eventNr && Hwirq(d, 1) == 0xFFFF_FFFD;
  }

  function PendingCmds(ds: seq<DeviceInfo>, hwirq: U32, set_: bool): seq<Cmd>
  {
    var k := FindDevice(ds, hwirq, 0);
    if k == |ds| then []
    else
      var event: U32 := hwirq - ds[k].hwirqBase;
      [if set_ then Int(ds[k].device, event) else Clear(ds[k].device, event)]
  }

  /**
   The pair found for an interrupt translates back to it, so exactly that interrupt becomes pending or is cleared; and
   nothing changes exactly when no device of the list has it in a range that does not wrap.
   */
  lemma PendingHitsInterrupt(its: Its, ds: seq<DeviceInfo>, itts: seq<U64>, icid: nat, hwirq: U32, set_: bool)
    requires |ds| <= |itts| && (forall i :: 0 <= i < |ds| ==> Mappable(ds[i])) && Setup(its, ds, itts, icid)
    requires forall i, j :: 0 <= i < j < |ds| ==> ds[i].device != ds[j].device
    ensures var r := ExecAll(its, PendingCmds(ds, hwirq, set_));
            r == if exists i :: 0 <= i < |ds| && Has(ds[i], hwirq) && ds[i].hwirqBase + ds[i].eventNr < U32_SIZE
                 then its.(pending := if set_ then its.pending + {hwirq as nat} else its.pending - {hwirq as nat})
                 else its
  {
    hide Translate, Setup, InRange, Has, FindDevice, PendingCmds, ExecAll;
    LookupFinds(ds, hwirq);
    if FindDevice(ds, hwirq, 0) < |ds| {
      FoundTranslates(its, ds, itts, icid, hwirq);
    }
    PendingExecuted(its, ds, icid, hwirq, set_);
  }

  /** The command for the device found, if there is one, reaches the interrupt that its event translates to. */
  lemma PendingExecuted(its: Its, ds: seq<DeviceInfo>, icid: nat, hwirq: U32, set_: bool)
    requires var k := FindDevice(ds, hwirq, 0);
             k < |ds| ==>
               && ds[k].hwirqBase <= hwirq
               && Translate(its, ds[k].device, hwirq - ds[k].hwirqBase) == Some(Route(hwirq, icid))
    ensures ExecAll(its, PendingCmds(ds, hwirq, set_))
            == if FindDevice(ds, hwirq, 0) == |ds| then its
               else its.(pending := if set_ then its.pending + {hwirq as nat} else its.pending - {hwirq as nat})
  {
    hide Translate, FindDevice, ExecAll;
    var k := FindDevice(ds, hwirq, 0);
    if k < |ds| {
      ExecOne(its, PendingCmds(ds, hwirq, set_)[0]);
    } else {
      assert ExecAll(its, []) == its by { NothingExecuted(its); }
    }
  }

  lemma NothingExecuted(its: Its)
    ensures ExecAll(its, []) == its
  {
  }

  lemma FoundTranslates(its: Its, ds: seq<DeviceInfo>, itts: seq<U64>, icid: nat, hwirq: U32)
    requires |ds| <= |itts| && (forall i :: 0 <= i < |ds| ==> Mappable(ds[i])) && Setup(its, ds, itts, icid)
    requires forall i, j :: 0 <= i < j < |ds| ==> ds[i].device != ds[j].device
    requires FindDevice(ds, hwirq, 0) < |ds|
    ensures var d := ds[FindDevice(ds, hwirq, 0)];
            d.hwirqBase <= hwirq && Translate(its, d.device, hwirq - d.hwirqBase) == Some(Route(hwirq, icid))
  {
    var k := FindDevice(ds, hwirq, 0);
    hide FindDevice, EventBits, Pow2;
    assert LastOf(ds, k);
    RangeArithmetic(ds[k], hwirq);
  }

  lemma RangeArithmetic(d: DeviceInfo, hwirq: U32)
    requires InRange(d, hwirq)
    ensures d.hwirqBase <= hwirq && hwirq - d.hwirqBase < d.eventNr && Hwirq(d, hwirq - d.hwirqBase) == hwirq
  {
  }
}
