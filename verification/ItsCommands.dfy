/**
 The command words of demos/ascend310b/bsp/prt_gic_its.c and their meaning to the interrupt
 translation service (command formats of section 5.3 of Arm IHI 0069).
 */
module ItsCommands {
  import opened Bits

  /** A command with its arguments. */
  datatype Cmd =
    | MapD(device: U64, size: U64, itt: U64, valid: U64)
    | MapC(icid: U64, target: U64, valid: U64)
    | MapTI(device: U64, event: U64, intId: U64, icid: U64)
    | Int(device: U64, event: U64)
    | Clear(device: U64, event: U64)
    | Inv(device: U64, event: U64)
    | InvAll(icid: U64)
    | Sync(target: U64)
    | Unknown

  /** One entry of the command queue. */
  type Words = w: seq<U64> | |w| == 4 witness [0, 0, 0, 0]

  // ---- Filling in the fields ----

  function OrInto(w: Words, i: nat, x: U64): Words
    requires i < 4
  {
    OrBound64(w[i], x);
    w[i := Or(w[i], x)]
  }

  lemma OrBound64(a: nat, b: nat)
    requires a < U64_SIZE && b < U64_SIZE
    ensures Or(a, b) < U64_SIZE
  {
    assert Pow2(64) == U64_SIZE by { Pow2Values(); Pow2Add(32, 32); }
    BitwiseBound(OrOp, a, b, 64);
  }

  function Masked(x: U64, mask: U64): U64
  {
    AndBound64(x, mask);
    And(x, mask)
  }

  lemma AndBound64(a: nat, b: nat)
    requires a < U64_SIZE && b < U64_SIZE
    ensures And(a, b) < U64_SIZE
  {
    assert Pow2(64) == U64_SIZE by { Pow2Values(); Pow2Add(32, 32); }
    BitwiseBound(AndOp, a, b, 64);
  }

  /** A 64-bit left shift. */
  function ShiftLeft(x: U64, k: nat): U64
  {
    x * Pow2(k) % U64_SIZE
  }

  const MASK_CMD_CODE: U64 := 0xFF
  const MASK_SIZE: U64 := 0x1F
  const MASK_ITT_ADDR: U64 := 0xF_FFFF_FFFF_FF00
  const MASK_RDBASE: U64 := 0x7_FFFF_FFFF_0000
  const MASK_ICID: U64 := 0xFFFF
  const MASK_EVENTID: U64 := 0xFFFF_FFFF

  function FillCode(w: Words, code: U64): Words { OrInto(w, 0, Masked(code, MASK_CMD_CODE)) }
  function FillDevice(w: Words, device: U64): Words { OrInto(w, 0, ShiftLeft(device, 32)) }
  function FillSize(w: Words, size: U64): Words { OrInto(w, 1, Masked(size, MASK_SIZE)) }
  function FillValid(w: Words, valid: U64): Words { OrInto(w, 2, ShiftLeft(valid, 63)) }
  function FillItt(w: Words, itt: U64): Words { OrInto(w, 2, Masked(itt, MASK_ITT_ADDR)) }
  function FillRdbase(w: Words, rdbase: U64): Words { OrInto(w, 2, Masked(rdbase, MASK_RDBASE)) }
  function FillIcid(w: Words, icid: U64): Words { OrInto(w, 2, Masked(icid, MASK_ICID)) }
  function FillEvent(w: Words, event: U64): Words { OrInto(w, 1, Masked(event, MASK_EVENTID)) }
  function FillPintid(w: Words, pintid: U64): Words { OrInto(w, 1, ShiftLeft(pintid, 32)) }

  const ZERO: Words := [0, 0, 0, 0]

  /** The its_cmd_* functions, on a zeroed entry; a bad address leaves the entry as it is. */
  function Encode(cmd: Cmd): Words
  {
    match cmd
    case MapD(device, size, itt, valid) =>
      if And(itt, 0xFF) != 0 then ZERO
      else FillItt(FillValid(FillSize(FillDevice(FillCode(ZERO, 0x8), device), size), valid), itt)
    case MapC(icid, target, valid) =>
      if And(target, 0xFFFF) != 0 then ZERO
      else FillIcid(FillRdbase(FillValid(FillCode(ZERO, 0x9), valid), target), icid)
    case MapTI(device, event, intId, icid) =>
      FillIcid(FillPintid(FillEvent(FillDevice(FillCode(ZERO, 0xA), device), event), intId), icid)
    case Int(device, event) => FillEvent(FillDevice(FillCode(ZERO, 0x3), device), event)
    case Clear(device, event) => FillEvent(FillDevice(FillCode(ZERO, 0x4), device), event)
    case Inv(device, event) => FillEvent(FillDevice(FillCode(ZERO, 0xC), device), event)
    case InvAll(icid) => FillIcid(FillCode(ZERO, 0xD), icid)
    case Sync(target) => FillRdbase(FillCode(ZERO, 0x5), target)
    case Unknown => ZERO
  }

  // ---- Reading the fields, as the hardware does ----

  function Decode(w: Words): Cmd
  {
    var code, high0 := w[0] % 0x100, w[0] / 0x1_0000_0000;
    var low1, high1 := w[1] % 0x1_0000_0000, w[1] / 0x1_0000_0000;
    var valid, rdbase := w[2] / 0x8000_0000_0000_0000, w[2] % 0x8_0000_0000_0000 / 0x1_0000 * 0x1_0000;
    var itt, icid := w[2] % 0x10_0000_0000_0000 / 0x100 * 0x100, w[2] % 0x1_0000;
    if code == 0x8 then MapD(high0, w[1] % 0x20, itt, valid)
    else if code == 0x9 then MapC(icid, rdbase, valid)
    else if code == 0xA then MapTI(high0, low1, high1, icid)
    else if code == 0x3 then Int(high0, low1)
    else if code == 0x4 then Clear(high0, low1)
    else if code == 0xC then Inv(high0, low1)
    else if code == 0xD then InvAll(icid)
    else if code == 0x5 then Sync(rdbase)
    else Unknown
  }

  /** Arguments that fit their fields. */
  predicate Fits(cmd: Cmd)
  {
    match cmd
    case MapD(device, size, itt, valid) =>
      device < 0x1_0000_0000 && size < 0x20 && itt % 0x100 == 0 && itt < 0x10_0000_0000_0000 && valid < 2
    case MapC(icid, target, valid) =>
      icid < 0x1_0000 && target % 0x1_0000 == 0 && target < 0x8_0000_0000_0000 && valid < 2
    case MapTI(device, event, intId, icid) =>
      device < 0x1_0000_0000 && event < 0x1_0000_0000 && intId < 0x1_0000_0000 && icid < 0x1_0000
    case Int(device, event) => device < 0x1_0000_0000 && event < 0x1_0000_0000
    case Clear(device, event) => device < 0x1_0000_0000 && event < 0x1_0000_0000
    case Inv(device, event) => device < 0x1_0000_0000 && event < 0x1_0000_0000
    case InvAll(icid) => icid < 0x1_0000
    case Sync(target) => target % 0x1_0000 == 0 && target < 0x8_0000_0000_0000
    case Unknown => true
  }

  // ---- Fields do not disturb each other ----

  lemma Low(x: U64, k: nat, ones: nat)
    requires ones + 1 == Pow2(k) && x <= ones
    ensures And(x, ones) == x
  {
    AndLowMask(x, k);
    RemainderIs(x, ones + 1, 0, x);
  }

  lemma Or0(x: nat)
    ensures Or(0, x) == x
  {
    BitwiseZero(OrOp, x);
  }

  /** The first word: command code and device. */
  lemma Word0(code: U64, device: U64)
    requires code < 0x100 && device < 0x1_0000_0000
    ensures FillCode(ZERO, code) == [code, 0, 0, 0]
    ensures FillDevice(FillCode(ZERO, code), device) == [device * 0x1_0000_0000 + code, 0, 0, 0]
  {
    hide Or, And;
    assert Pow2(8) == 0x100 && Pow2(32) == 0x1_0000_0000 by { Pow2Values(); }
    Low(code, 8, 0xFF);
    Or0(code);
    OrAdd(device, code, 32, 0x1_0000_0000);
  }

  /** The second word: event and interrupt number. */
  lemma Word1(w: Words, event: U64, intId: U64)
    requires w[1] == 0 && event < 0x1_0000_0000 && intId < 0x1_0000_0000
    ensures FillEvent(w, event) == w[1 := event]
    ensures FillPintid(FillEvent(w, event), intId) == w[1 := intId * 0x1_0000_0000 + event]
  {
    hide Or, And;
    assert Pow2(32) == 0x1_0000_0000 by { Pow2Values(); }
    Low(event, 32, 0xFFFF_FFFF);
    Or0(event);
    OrAdd(intId, event, 32, 0x1_0000_0000);
  }

  lemma Word1Size(w: Words, size: U64)
    requires w[1] == 0 && size < 0x20
    ensures FillSize(w, size) == w[1 := size]
  {
    hide Or, And;
    assert Pow2(5) == 0x20 by { Pow2Values(); }
    Low(size, 5, 0x1F);
    Or0(size);
  }

  lemma Word2Icid(w: Words, icid: U64)
    requires w[2] % 0x1_0000 == 0 && icid < 0x1_0000
    ensures w[2] + icid < U64_SIZE && FillIcid(w, icid) == w[2 := w[2] + icid]
  {
    hide Or, And;
    assert Pow2(16) == 0x1_0000 by { Pow2Values(); }
    Low(icid, 16, 0xFFFF);
    OrAdd(w[2] / 0x1_0000, icid, 16, 0x1_0000);
  }

  lemma Word2Valid(w: Words, valid: U64)
    requires w[2] == 0 && valid < 2
    ensures valid * 0x8000_0000_0000_0000 < U64_SIZE && FillValid(w, valid) == w[2 := valid * 0x8000_0000_0000_0000]
  {
    hide Or;
    assert Pow2(63) == 0x8000_0000_0000_0000 by { Pow2Values(); }
    Or0(valid * 0x8000_0000_0000_0000);
  }

  lemma Word2Address(w: Words, valid: U64, x: U64, mask: U64, masked: U64)
    requires valid < 2 && w[2] == valid * 0x8000_0000_0000_0000 && x < 0x8000_0000_0000_0000 && And(x, mask) == x
    ensures OrInto(w, 2, Masked(x, mask)) == w[2 := valid * 0x8000_0000_0000_0000 + x]
  {
    hide Or, And;
    assert Pow2(63) == 0x8000_0000_0000_0000 by { Pow2Values(); }
    OrAdd(valid, x, 63, 0x8000_0000_0000_0000);
  }

  lemma IttMask(itt: U64)
    requires itt % 0x100 == 0 && itt < 0x10_0000_0000_0000
    ensures And(itt, MASK_ITT_ADDR) == itt && And(itt, 0xFF) == 0
  {
    hide And, Pow2;
    assert Pow2(8) == 0x100 && Pow2(44) == 0x1000_0000_0000 by { Pow2Values(); }
    var m := itt / 0x100;
    assert itt == m * 0x100;
    AndFieldMask(m, 0, 8, 0x100, 44, 0xFFF_FFFF_FFFF);
    AndLowMask(itt, 8);
  }

  lemma RdbaseMask(target: U64)
    requires target % 0x1_0000 == 0 && target < 0x8_0000_0000_0000
    ensures And(target, MASK_RDBASE) == target && And(target, 0xFFFF) == 0
  {
    hide And, Pow2;
    assert Pow2(16) == 0x1_0000 && Pow2(35) == 0x8_0000_0000 by { Pow2Values(); }
    var m := target / 0x1_0000;
    assert target == m * 0x1_0000;
    AndFieldMask(m, 0, 16, 0x1_0000, 35, 0x7_FFFF_FFFF);
    AndLowMask(target, 16);
  }

  // ---- Round trips ----

  lemma DeviceFields(code: nat, device: nat)
    requires code < 0x100
    ensures (device * 0x1_0000_0000 + code) % 0x100 == code && (device * 0x1_0000_0000 + code) / 0x1_0000_0000 == device
  {
    RemainderIs(device * 0x1_0000_0000 + code, 0x100, device * 0x100_0000, code);
    RemainderIs(device * 0x1_0000_0000 + code, 0x1_0000_0000, device, code);
  }

  lemma EventFields(intId: nat, event: nat)
    requires event < 0x1_0000_0000
    ensures (intId * 0x1_0000_0000 + event) % 0x1_0000_0000 == event
            && (intId * 0x1_0000_0000 + event) / 0x1_0000_0000 == intId
  {
    RemainderIs(intId * 0x1_0000_0000 + event, 0x1_0000_0000, intId, event);
  }

  lemma AddressFields(valid: nat, a: nat, icid: nat)
    requires valid < 2 && a < 0x8_0000_0000 && icid < 0x1_0000
    ensures var w := valid * 0x8000_0000_0000_0000 + a * 0x1_0000 + icid;
            w / 0x8000_0000_0000_0000 == valid && w % 0x8_0000_0000_0000 / 0x1_0000 == a && w % 0x1_0000 == icid
  {
    var w := valid * 0x8000_0000_0000_0000 + a * 0x1_0000 + icid;
    RemainderIs(w, 0x8000_0000_0000_0000, valid, a * 0x1_0000 + icid);
    RemainderIs(w, 0x8_0000_0000_0000, valid * 0x1000, a * 0x1_0000 + icid);
    RemainderIs(a * 0x1_0000 + icid, 0x1_0000, a, icid);
    RemainderIs(w, 0x1_0000, valid * 0x8000_0000_0000 + a, icid);
  }

  lemma IttFields(valid: nat, m: nat)
    requires valid < 2 && m < 0x1000_0000_0000
    ensures var w := valid * 0x8000_0000_0000_0000 + m * 0x100;
            w / 0x8000_0000_0000_0000 == valid && w % 0x10_0000_0000_0000 / 0x100 == m
  {
    var w := valid * 0x8000_0000_0000_0000 + m * 0x100;
    RemainderIs(w, 0x8000_0000_0000_0000, valid, m * 0x100);
    RemainderIs(w, 0x10_0000_0000_0000, valid * 0x800, m * 0x100);
  }

  lemma DecodeMapD(cmd: Cmd)
    requires cmd.MapD? && Fits(cmd)
    ensures Decode(Encode(cmd)) == cmd
  {
    hide Or, And, OrInto, Masked, ShiftLeft;
    Word0(0x8, cmd.device);
    var w0: Words := [cmd.device * 0x1_0000_0000 + 0x8, 0, 0, 0];
    Word1Size(w0, cmd.size);
    Word2Valid(w0[1 := cmd.size], cmd.valid);
    IttMask(cmd.itt);
    var w2: Words := w0[1 := cmd.size][2 := cmd.valid * 0x8000_0000_0000_0000];
    Word2Address(w2, cmd.valid, cmd.itt, MASK_ITT_ADDR, cmd.itt);
    DeviceFields(0x8, cmd.device);
    IttFields(cmd.valid, cmd.itt / 0x100);
  }

  lemma DecodeMapC(cmd: Cmd)
    requires cmd.MapC? && Fits(cmd)
    ensures Decode(Encode(cmd)) == cmd
  {
    hide Or, And, OrInto, Masked, ShiftLeft;
    Word0(0x9, 0);
    var w0: Words := [0x9, 0, 0, 0];
    Word2Valid(w0, cmd.valid);
    RdbaseMask(cmd.target);
    var w2: Words := w0[2 := cmd.valid * 0x8000_0000_0000_0000];
    Word2Address(w2, cmd.valid, cmd.target, MASK_RDBASE, cmd.target);
    var w3: Words := w2[2 := cmd.valid * 0x8000_0000_0000_0000 + cmd.target];
    AddressFields(cmd.valid, cmd.target / 0x1_0000, 0);
    Word2Icid(w3, cmd.icid);
    AddressFields(cmd.valid, cmd.target / 0x1_0000, cmd.icid);
    assert cmd.target == cmd.target / 0x1_0000 * 0x1_0000;
    assert Encode(cmd) == w3[2 := w3[2] + cmd.icid];
  }

  lemma DecodeMapTI(cmd: Cmd)
    requires cmd.MapTI? && Fits(cmd)
    ensures Decode(Encode(cmd)) == cmd
  {
    hide Or, And, OrInto, Masked, ShiftLeft;
    Word0(0xA, cmd.device);
    var w0: Words := [cmd.device * 0x1_0000_0000 + 0xA, 0, 0, 0];
    Word1(w0, cmd.event, cmd.intId);
    Word2Icid(w0[1 := cmd.intId * 0x1_0000_0000 + cmd.event], cmd.icid);
    DeviceFields(0xA, cmd.device);
    EventFields(cmd.intId, cmd.event);
  }

  lemma DecodeEvent(cmd: Cmd)
    requires (cmd.Int? || cmd.Clear? || cmd.Inv?) && Fits(cmd)
    ensures Decode(Encode(cmd)) == cmd
  {
    hide Or, And, OrInto, Masked, ShiftLeft;
    var code := if cmd.Int? then 0x3 else if cmd.Clear? then 0x4 else 0xC;
    Word0(code, cmd.device);
    var w: Words := [cmd.device * 0x1_0000_0000 + code, 0, 0, 0];
    Word1(w, cmd.event, 0);
    DeviceFields(code, cmd.device);
    assert Encode(cmd) == w[1 := cmd.event];
  }

  lemma DecodeCollection(cmd: Cmd)
    requires (cmd.InvAll? || cmd.Sync?) && Fits(cmd)
    ensures Decode(Encode(cmd)) == cmd
  {
    hide Or, And, OrInto, Masked, ShiftLeft;
    if cmd.InvAll? {
      Word0(0xD, 0);
      Word2Icid([0xD, 0, 0, 0], cmd.icid);
    } else {
      Word0(0x5, 0);
      RdbaseMask(cmd.target);
      Word2Address([0x5, 0, 0, 0], 0, cmd.target, MASK_RDBASE, cmd.target);
      AddressFields(0, cmd.target / 0x1_0000, 0);
    }
  }

  /** The hardware reads every command back as it was meant, with every argument that fits. */
  lemma DecodeEncode(cmd: Cmd)
    requires Fits(cmd)
    ensures Decode(Encode(cmd)) == cmd
  {
    hide Encode, Decode, Fits;
    match cmd {
      case MapD(_, _, _, _) => DecodeMapD(cmd);
      case MapC(_, _, _) => DecodeMapC(cmd);
      case MapTI(_, _, _, _) => DecodeMapTI(cmd);
      case Int(_, _) => DecodeEvent(cmd);
      case Clear(_, _) => DecodeEvent(cmd);
      case Inv(_, _) => DecodeEvent(cmd);
      case InvAll(_) => DecodeCollection(cmd);
      case Sync(_) => DecodeCollection(cmd);
      case Unknown => DecodeUnknown();
    }
  }

  lemma DecodeUnknown()
    ensures Decode(Encode(Unknown)) == Unknown
  {
  }
}
