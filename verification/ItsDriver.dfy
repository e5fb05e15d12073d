/** The driver side of demos/ascend310b/bsp/prt_gic_its.c: the command ring and the operations that fill it. */
module ItsDriver {
  import opened Bits
  import opened ItsCommands
  import opened Its

  const GITS_CMD_ENTRY_SIZE: nat := 32
  const GITS_CMD_QUEUE_SIZE: nat := 0x1000

  function NextIndex(index: nat): nat
  {
    (index + GITS_CMD_ENTRY_SIZE) % GITS_CMD_QUEUE_SIZE
  }

  predicate Index(index: nat)
  {
    index < GITS_CMD_QUEUE_SIZE && index % GITS_CMD_ENTRY_SIZE == 0
  }

  lemma NextIndexInRing(index: nat)
    requires Index(index)
    ensures Index(NextIndex(index))
    ensures NextIndex(index) == if index + 32 == 0x1000 then 0 else index + 32
    ensures NextIndex(index) != index && NextIndex(NextIndex(index)) != index
  {
  }

  class Driver {
    /** The command queue, 64-bit word by word, and the registers GITS_CWRITER and GITS_CREADR. */
    const cmdq: array<U64>
    var cmdqWrIndex: nat
    var cwriter: nat
    var creadr: nat

    /** The first redistributor address, zero until one is known, and the list of devices. */
    var rdPhy: U64
    var devices: seq<DeviceInfo>

    /** The hardware at the other end: its state, and every command it has read. */
    ghost var its: Its
    ghost var seen: seq<Cmd>

    constructor (queue: array<U64>, ghost hardware: Its)
      requires queue.Length == GITS_CMD_QUEUE_SIZE / 8
      ensures Valid() && cmdq == queue && rdPhy == 0 && devices == [] && its == hardware && seen == []
    {
      cmdq, cmdqWrIndex, cwriter, creadr := queue, 0, 0, 0;
      rdPhy, devices, its, seen := 0, [], hardware, [];
    }

    /** Between operations the hardware has read everything that was issued. */
    ghost predicate Valid()
      reads this
    {
      && cmdq.Length == GITS_CMD_QUEUE_SIZE / 8
      && Index(cmdqWrIndex) && cwriter == creadr == cmdqWrIndex
      && Fits(Sync(rdPhy))
    }

    function Entry(index: nat): Words
      requires cmdq.Length == GITS_CMD_QUEUE_SIZE / 8 && Index(index)
      reads cmdq
    {
      cmdq[index / 8..index / 8 + 4]
    }

    // ---- The ring ----

    method OrWord(index: nat, i: nat, x: U64)
      requires cmdq.Length == GITS_CMD_QUEUE_SIZE / 8 && Index(index) && i < 4
      modifies cmdq
      ensures Entry(index) == OrInto(old(Entry(index)), i, x)
      ensures forall other: nat :: Index(other) && other != index ==> Entry(other) == old(Entry(other))
    {
      hide Or;
      OrBound64(cmdq[index / 8 + i], x);
      cmdq[index / 8 + i] := Or(cmdq[index / 8 + i], x);
      EntriesApart(index);
    }

    method ZeroEntry(index: nat)
      requires cmdq.Length == GITS_CMD_QUEUE_SIZE / 8 && Index(index)
      modifies cmdq
      ensures Entry(index) == ZERO
      ensures forall other: nat :: Index(other) && other != index ==> Entry(other) == old(Entry(other))
    {
      var at := index / 8;
      cmdq[at], cmdq[at + 1], cmdq[at + 2], cmdq[at + 3] := 0, 0, 0, 0;
      EntriesApart(index);
    }

    /** The entry is zeroed and the fields of the command are or-ed into it one after another. */
    method FillEntry(index: nat, cmd: Cmd)
      requires cmdq.Length == GITS_CMD_QUEUE_SIZE / 8 && Index(index)
      modifies cmdq
      ensures Entry(index) == Encode(cmd)
      ensures forall other: nat :: Index(other) && other != index ==> Entry(other) == old(Entry(other))
    {
      hide Or, And, OrInto, Masked, ShiftLeft, Index;
      ZeroEntry(index);
      match cmd {
        case MapD(device, size, itt, valid) =>
          if And(itt, 0xFF) != 0 {
            return;
          }
          OrWord(index, 0, Masked(0x8, MASK_CMD_CODE));
          OrWord(index, 0, ShiftLeft(device, 32));
          OrWord(index, 1, Masked(size, MASK_SIZE));
          OrWord(index, 2, ShiftLeft(valid, 63));
          OrWord(index, 2, Masked(itt, MASK_ITT_ADDR));
        case MapC(icid, target, valid) =>
          if And(target, 0xFFFF) != 0 {
            return;
          }
          OrWord(index, 0, Masked(0x9, MASK_CMD_CODE));
          OrWord(index, 2, ShiftLeft(valid, 63));
          OrWord(index, 2, Masked(target, MASK_RDBASE));
          OrWord(index, 2, Masked(icid, MASK_ICID));
        case MapTI(device, event, intId, icid) =>
          OrWord(index, 0, Masked(0xA, MASK_CMD_CODE));
          OrWord(index, 0, ShiftLeft(device, 32));
          OrWord(index, 1, Masked(event, MASK_EVENTID));
          OrWord(index, 1, ShiftLeft(intId, 32));
          OrWord(index, 2, Masked(icid, MASK_ICID));
        case Int(device, event) =>
          FillDeviceEvent(index, 0x3, device, event);
        case Clear(device, event) =>
          FillDeviceEvent(index, 0x4, device, event);
        case Inv(device, event) =>
          FillDeviceEvent(index, 0xC, device, event);
        case InvAll(icid) =>
          OrWord(index, 0, Masked(0xD, MASK_CMD_CODE));
          OrWord(index, 2, Masked(icid, MASK_ICID));
        case Sync(target) =>
          OrWord(index, 0, Masked(0x5, MASK_CMD_CODE));
          OrWord(index, 2, Masked(target, MASK_RDBASE));
        case Unknown =>
      }
    }

    method FillDeviceEvent(index: nat, code: U64, device: U64, event: U64)
      requires cmdq.Length == GITS_CMD_QUEUE_SIZE / 8 && Index(index) && Entry(index) == ZERO
      modifies cmdq
      ensures Entry(index) == FillEvent(FillDevice(FillCode(ZERO, code), device), event)
      ensures forall other: nat :: Index(other) && other != index ==> Entry(other) == old(Entry(other))
    {
      hide Or, And, OrInto, Masked, ShiftLeft, Index;
      OrWord(index, 0, Masked(code, MASK_CMD_CODE));
      OrWord(index, 0, ShiftLeft(device, 32));
      OrWord(index, 1, Masked(event, MASK_EVENTID));
    }

    /** The hardware reads the entries between the two registers in order, executing each. */
    method HardwareReads(ghost n: nat)
      requires cmdq.Length == GITS_CMD_QUEUE_SIZE / 8 && Index(creadr) && 0 < n <= 2
      requires cwriter == if n == 1 then NextIndex(creadr) else NextIndex(NextIndex(creadr))
      modifies this`creadr, this`its, this`seen
      ensures creadr == cwriter
      ensures seen == old(seen) + ReadFrom(old(creadr), n)
      ensures its == ExecAll(old(its), ReadFrom(old(creadr), n))
    {
      hide Exec, ExecAll, Decode, NextIndex, Index;
      ghost var first, its0, seen0 := creadr, its, seen;
      NextIndexInRing(first);
      NextIndexInRing(NextIndex(first));
      ReadOneMore(first, 0, its0, seen0);
      NoEntry(first, its0, seen0);
      ReadEntry();
      if creadr != cwriter {
        ReadOneMore(first, 1, its0, seen0);
        ReadEntry();
      }
    }

    method ReadEntry()
      requires cmdq.Length == GITS_CMD_QUEUE_SIZE / 8 && Index(creadr)
      modifies this`creadr, this`its, this`seen
      ensures creadr == NextIndex(old(creadr))
      ensures seen == old(seen) + [Decode(Entry(old(creadr)))] && its == Exec(old(its), Decode(Entry(old(creadr))))
    {
      its := Exec(its, Decode(Entry(creadr)));
      seen := seen + [Decode(Entry(creadr))];
      creadr := NextIndex(creadr);
    }

    lemma NoEntry(index: nat, its0: Its, seen0: seq<Cmd>)
      requires cmdq.Length == GITS_CMD_QUEUE_SIZE / 8 && Index(index)
      ensures ExecAll(its0, ReadFrom(index, 0)) == its0 && seen0 + ReadFrom(index, 0) == seen0
    {
      assert seen0 + [] == seen0;
    }

    /** The first `n` unread entries, as commands. */
    ghost function ReadFrom(index: nat, n: nat): seq<Cmd>
      requires cmdq.Length == GITS_CMD_QUEUE_SIZE / 8 && Index(index) && n <= 2
      reads cmdq
    {
      NextIndexInRing(index);
      if n == 0 then [] else if n == 1 then [Decode(Entry(index))]
      else [Decode(Entry(index)), Decode(Entry(NextIndex(index)))]
    }

    lemma ReadOneMore(index: nat, k: nat, its0: Its, seen0: seq<Cmd>)
      requires cmdq.Length == GITS_CMD_QUEUE_SIZE / 8 && Index(index) && k < 2
      ensures Index(NextIndex(index))
      ensures var cmd := Decode(Entry(if k == 0 then index else NextIndex(index)));
              && ReadFrom(index, k + 1) == ReadFrom(index, k) + [cmd]
              && ExecAll(its0, ReadFrom(index, k + 1)) == Exec(ExecAll(its0, ReadFrom(index, k)), cmd)
              && seen0 + ReadFrom(index, k + 1) == seen0 + ReadFrom(index, k) + [cmd]
    {
      hide Exec, Decode;
      NextIndexInRing(index);
      var cmd := Decode(Entry(if k == 0 then index else NextIndex(index)));
      ExecSnoc(its0, ReadFrom(index, k), cmd);
    }

    lemma EntriesApart(index: nat)
      requires cmdq.Length == GITS_CMD_QUEUE_SIZE / 8 && Index(index)
      ensures forall other: nat :: Index(other) && other != index ==>
                other / 8 + 4 <= index / 8 || index / 8 + 4 <= other / 8
    {
    }

    /**
     its_send_cmd: the command and, once a redistributor is known, a SYNC go into the ring, and the call waits until
     the hardware has read them. Nothing unread is overwritten, because nothing is unread when a call starts.
     */
    method SendCmd(cmd: Cmd)
      requires Valid() && Fits(cmd)
      modifies this`cmdqWrIndex, this`cwriter, this`creadr, this`its, this`seen, cmdq
      ensures Valid()
      ensures seen == old(seen) + WithSync(rdPhy, [cmd])
      ensures seen == old(seen) + [cmd] + if rdPhy != 0 then [Sync(rdPhy)] else []
      ensures its == ExecAll(old(its), [cmd])
    {
      hide Exec, Decode, Encode, NextIndex, Index;
      ghost var first := cmdqWrIndex;
      NextIndexInRing(first);
      FillEntry(cmdqWrIndex, cmd);
      cmdqWrIndex := NextIndex(cmdqWrIndex);
      DecodeEncode(cmd);
      if rdPhy != 0 {
        FillEntry(cmdqWrIndex, Sync(rdPhy));
        NextIndexInRing(cmdqWrIndex);
        cmdqWrIndex := NextIndex(cmdqWrIndex);
        DecodeEncode(Sync(rdPhy));
      }
      cwriter := cmdqWrIndex;
      SyncsChangeNothing(its, rdPhy, [cmd]);
      OneWithSync(rdPhy, cmd);
      HardwareReads(if rdPhy != 0 then 2 else 1);
    }

    ghost predicate Sent(before: Its, log: seq<Cmd>, cmds: seq<Cmd>)
      reads this
    {
      seen == log + WithSync(rdPhy, cmds) && its == ExecAll(before, cmds)
    }

    // ---- Operations ----

    /** its_config_lpi_route. */
    method ConfigLpiRoute(d: DeviceInfo, event: U32, icid: U32)
      requires Valid() && icid < 0x1_0000
      modifies this`cmdqWrIndex, this`cwriter, this`creadr, this`its, this`seen, cmdq
      ensures Valid() && Sent(old(its), old(seen), RouteCmds(d, event, icid))
      ensures var sync := if rdPhy != 0 then [Sync(rdPhy)] else [];
              seen == old(seen) + [MapTI(d.device, event, (d.hwirqBase + event) % U32_SIZE, icid)] + sync
                      + [Cmd.Inv(d.device, event)] + sync
    {
      hide Exec, Index;
      ghost var its0, seen0 := its, seen;
      var map_ := MapTI(d.device, event, Hwirq(d, event), icid);
      var inv := ItsCommands.Cmd.Inv(d.device, event);
      SendCmd(map_);
      SendCmd(inv);
      SentBoth(its0, seen0, rdPhy, [map_], [inv]);
      assert RouteCmds(d, event, icid) == [map_] + [inv];
    }

    /**
     its_map_device_id_to_itt and the event loop of its_map_single_device_info; `itt` is what the allocator returned.
     */
    method MapDevice(d: DeviceInfo, itt: U64, icid: U32)
      requires Valid() && Mappable(d) && icid < 0x1_0000
      requires itt != 0 && itt % 0x100 == 0 && itt < 0x10_0000_0000_0000
      modifies this`cmdqWrIndex, this`cwriter, this`creadr, this`its, this`seen, cmdq
      ensures Valid() && Sent(old(its), old(seen), DeviceCmds(d, itt, icid))
      ensures Invalidated(old(seen)) ==> Invalidated(seen)
    {
      hide Exec, Index, Pow2, Invalidated;
      ghost var its0, seen0 := its, seen;
      EventBitsBounds(d.eventNr);
      var size := Fls(d.eventNr);
      size := if size == 0 then 1 else size;
      var mapd := MapD(d.device, size - 1, itt, 1);
      SendCmd(mapd);
      var maxEventId := Pow2(size);
      assert maxEventId == EventSpace(d);
      var event := 0;
      assert [mapd] + EventCmds(d, 0, icid) == [mapd];
      while event < maxEventId
        invariant event <= maxEventId && Valid()
        invariant Sent(its0, seen0, [mapd] + EventCmds(d, event, icid))
      {
        ghost var done := [mapd] + EventCmds(d, event, icid);
        ConfigLpiRoute(d, event, icid);
        SentBoth(its0, seen0, rdPhy, done, RouteCmds(d, event, icid));
        assert done + RouteCmds(d, event, icid) == [mapd] + EventCmds(d, event + 1, icid);
        event := event + 1;
      }
      if Invalidated(seen0) {
        DeviceInvalidated(rdPhy, d, itt, icid);
        InvalidatedAppend(seen0, WithSync(rdPhy, DeviceCmds(d, itt, icid)));
      }
    }

    /** its_setup_device_table; `itts` are the results of the allocations, one per device. */
    method SetupDeviceTable(itts: seq<U64>, icid: U32)
      requires Valid() && icid < 0x1_0000 && |devices| <= |itts|
      requires forall i :: 0 <= i < |devices| ==> Mappable(devices[i])
      requires forall i :: 0 <= i < |devices| ==> itts[i] != 0 && itts[i] % 0x100 == 0 && itts[i] < 0x10_0000_0000_0000
      requires forall i, j :: 0 <= i < j < |devices| ==> itts[i] != itts[j]
      modifies this`cmdqWrIndex, this`cwriter, this`creadr, this`its, this`seen, cmdq
      ensures Valid() && Sent(old(its), old(seen), SetupCmds(devices, itts, icid))
      ensures Setup(its, devices, itts, icid) && its.errors == old(its).errors && its.pending == old(its).pending
      ensures Invalidated(old(seen)) ==> Invalidated(seen)
    {
      hide Exec, Index, DeviceCmds, Setup, Mappable, Invalidated;
      ghost var its0, seen0 := its, seen;
      var i := 0;
      assert seen0 + WithSync(rdPhy, []) == seen0;
      while i < |devices|
        invariant i <= |devices| && Valid()
        invariant Sent(its0, seen0, SetupCmds(devices[..i], itts, icid))
        invariant Invalidated(seen0) ==> Invalidated(seen)
      {
        ghost var done := SetupCmds(devices[..i], itts, icid);
        MapDevice(devices[i], itts[i], icid);
        SentBoth(its0, seen0, rdPhy, done, DeviceCmds(devices[i], itts[i], icid));
        assert devices[..i + 1][..i] == devices[..i];
        i := i + 1;
      }
      assert devices[..|devices|] == devices;
      SetupRoutes(its0, devices, itts, icid);
    }

    /** its_set_clear_irq_pending. */
    method SetClearIrqPending(hwirq: U32, set_: bool)
      requires Valid()
      modifies this`cmdqWrIndex, this`cwriter, this`creadr, this`its, this`seen, cmdq
      ensures Valid() && Sent(old(its), old(seen), PendingCmds(devices, hwirq, set_))
    {
      hide Exec, Index;
      var i := 0;
      while i < |devices|
        && !(devices[i].hwirqBase <= hwirq && hwirq < (devices[i].hwirqBase + devices[i].eventNr) % U32_SIZE)
        invariant i <= |devices| && FindDevice(devices, hwirq, 0) == FindDevice(devices, hwirq, i)
      {
        i := i + 1;
      }
      if i < |devices| {
        var event: U32 := hwirq - devices[i].hwirqBase;
        if set_ {
          SendCmd(Int(devices[i].device, event));
        } else {
          SendCmd(Clear(devices[i].device, event));
        }
      } else {
        assert seen + WithSync(rdPhy, []) == seen;
      }
    }
  }

  lemma OneWithSync(rd: U64, cmd: Cmd)
    ensures WithSync(rd, [cmd]) == if rd != 0 then [cmd, Sync(rd)] else [cmd]
  {
    assert [cmd][..0] == [];
    assert WithSync(rd, []) == [];
  }

  /** Two batches, one after the other. */
  lemma SentBoth(its0: Its, seen0: seq<Cmd>, rd: U64, a: seq<Cmd>, b: seq<Cmd>)
    ensures ExecAll(ExecAll(its0, a), b) == ExecAll(its0, a + b)
    ensures seen0 + WithSync(rd, a) + WithSync(rd, b) == seen0 + WithSync(rd, a + b)
  {
    hide ExecAll, WithSync;
    ExecAppend(its0, a, b);
    WithSyncAppend(rd, a, b);
  }
}
