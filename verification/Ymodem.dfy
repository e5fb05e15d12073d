/**
 The YMODEM receiver of demos/ascend310b/bsp/ymodem.c with the download callbacks of file_transfer.c
 and the sink of emmc.c: the session as a function of the packets it is given.
 */
module Ymodem {
  import opened Bits
  import opened Options
  import opened Crc

  // ---- Receiving a packet from the line ----

  /** What one call of UartGetChar yields: a byte, or nothing before the timeout. */
  type Event = Option<U8>

  const YMODEM_SOH: U8 := 0x01
  const YMODEM_STX: U8 := 0x02
  const YMODEM_EOT: U8 := 0x04
  const YMODEM_ACK: U8 := 0x06
  const YMODEM_NAK: U8 := 0x15
  const YMODEM_CAN: U8 := 0x18
  const YMODEM_C: U8 := 0x43
  const YMODEM_ABORT1: U8 := 0x41
  const YMODEM_ABORT2: U8 := 0x61

  datatype Status =
    | StatusOk
    | StatusError
    | StatusInvalidParam
    | StatusTimeout
    | StatusAbortBySender
    | StatusAbortByUser
    | StatusUnknownCmd
    | StatusInvalidData
    | StatusSeqMismatch
    | StatusSeqInvalid
    | StatusCrcInvalid
    | StatusCallbackErr

  datatype Packet = Packet(kind: U8, seqNo: U8, seqOc: U8, data: seq<U8>, crcHi: U8, crcLo: U8)

  /** A packet, a failure, or the end of the known input; `next` is the first event not consumed. */
  datatype Receipt = Got(packet: Packet, next: nat) | Failed(status: Status, next: nat) | Starved

  datatype Taken = Bytes(bytes: seq<U8>, next: nat) | TimedOut(next: nat) | NoMore

  function Take(input: seq<Event>, pos: nat, n: nat): (r: Taken)
    requires pos <= |input|
    ensures r.Bytes? ==>
              && r.next == pos + n <= |input| && |r.bytes| == n
              && forall i :: 0 <= i < n ==> input[pos + i] == Some(r.bytes[i])
    ensures r.TimedOut? ==> pos < r.next <= |input| && r.next <= pos + n && input[r.next - 1] == None
    decreases n
  {
    if n == 0 then Bytes([], pos)
    else if pos == |input| then NoMore
    else if input[pos] == None then TimedOut(pos + 1)
    else
      match Take(input, pos + 1, n - 1)
      case Bytes(bytes, next) => Bytes([input[pos].value] + bytes, next)
      case TimedOut(next) => TimedOut(next)
      case NoMore => NoMore
  }

  function DataSize(kind: U8): nat
  {
    if kind == YMODEM_SOH then 128 else 1024
  }

  function RecvPacket(input: seq<Event>, pos: nat): (r: Receipt)
    requires pos <= |input|
    ensures r.Got? ==> pos < r.next <= |input|
    ensures r.Got? ==> r.packet.kind in {YMODEM_SOH, YMODEM_STX, YMODEM_EOT}
    ensures r.Got? && r.packet.kind != YMODEM_EOT ==> |r.packet.data| == DataSize(r.packet.kind)
    ensures r.Failed? ==> pos < r.next <= |input| && r.status != StatusOk
  {
    if pos == |input| then Starved
    else if input[pos] == None then Failed(StatusTimeout, pos + 1)
    else
      var kind := input[pos].value;
      if kind == YMODEM_SOH || kind == YMODEM_STX then
        var size := DataSize(kind);
        match Take(input, pos + 1, size + 4)
        case Bytes(b, next) => Got(Packet(kind, b[0], b[1], b[2..2 + size], b[2 + size], b[3 + size]), next)
        case TimedOut(next) => Failed(StatusTimeout, next)
        case NoMore => Starved
      else if kind == YMODEM_EOT then Got(Packet(kind, 0, 0, [], 0, 0), pos + 1)
      else if kind == YMODEM_CAN then
        if pos + 1 == |input| then Starved
        else if input[pos + 1] == None then Failed(StatusTimeout, pos + 2)
        else Failed(if input[pos + 1].value == YMODEM_CAN then StatusAbortBySender else StatusUnknownCmd, pos + 2)
      else if kind == YMODEM_ABORT1 || kind == YMODEM_ABORT2 then Failed(StatusAbortByUser, pos + 1)
      else Failed(StatusUnknownCmd, pos + 1)
  }

  // ---- The state of a download ----

  const NAME_MAX: nat := 64
  const SIZE_MAX: nat := 9
  const MAX_ERRORS: nat := 5

  datatype SessionState = IDLE | BUSY | DONE

  datatype Session = Session(
    seqNo: U8, errCnt: nat, isFileEnd: bool, state: SessionState,
    fileName: seq<U8>, totalFileSize: U32, curFileSize: U32)

  /** FILE_DownloadInfo. */
  datatype Info = Info(curFileLen: U32, totalFileLen: U32, name: seq<U8>)

  /** The shared memory the file goes to. */
  datatype Sink = Sink(usedSize: U32, data: seq<U8>)

  /** `sent` is what went out on the line; `accepted` records the data packets of the current file. */
  datatype World = World(session: Session, info: Info, sink: Sink, sent: seq<U8>, accepted: seq<Packet>)

  function FreshSession(): Session
  {
    Session(0, 0, false, IDLE, seq(NAME_MAX + 1, _ => 0), 0, 0)
  }

  function Send(w: World, bytes: seq<U8>): World
  {
    w.(sent := w.sent + bytes)
  }

  // ---- The sink ----

  function Store(data: seq<U8>, at: nat, bytes: seq<U8>): seq<U8>
    requires at <= |data|
  {
    data[..at] + bytes + if at + |bytes| <= |data| then data[at + |bytes|..] else []
  }

  predicate SinkOk(sink: Sink)
  {
    sink.usedSize <= |sink.data|
  }

  function WriteFile(sink: Sink, bytes: seq<U8>): Sink
    requires SinkOk(sink)
  {
    Sink(Add32(sink.usedSize, |bytes|), Store(sink.data, sink.usedSize, bytes))
  }

  // ---- The callbacks ----

  function CString(buffer: seq<U8>): (s: seq<U8>)
    ensures |s| <= |buffer|
  {
    if buffer == [] || buffer[0] == 0 then [] else [buffer[0]] + CString(buffer[1..])
  }

  function Lower(b: U8): U8
  {
    if 0x41 <= b <= 0x5A then b + 0x20 else b
  }

  predicate SameName(a: seq<U8>, b: seq<U8>)
  {
    |a| == |b| && forall i :: 0 <= i < |a| ==> Lower(a[i]) == Lower(b[i])
  }

  function RecvStart(w: World, fileName: seq<U8>, fileSize: U32): (World, Status)
  {
    if fileSize == 0 then (w, StatusInvalidParam)
    else if !SameName(w.info.name, fileName) then (w, StatusError)
    else if |fileName| >= NAME_MAX then (w, StatusError)
    else (w.(sink := w.sink.(usedSize := 0), info := w.info.(curFileLen := 0, totalFileLen := fileSize)), StatusOk)
  }

  function RecvData(w: World, bytes: seq<U8>): (World, Status)
    requires SinkOk(w.sink)
  {
    if |bytes| == 0 then (w, StatusInvalidParam)
    else if w.info.curFileLen >= w.info.totalFileLen then (w, StatusInvalidData)
    else
      (w.(sink := WriteFile(w.sink, bytes), info := w.info.(curFileLen := Add32(w.info.curFileLen, |bytes|))), StatusOk)
  }

  function RecvEnd(w: World): Status
  {
    if w.info.totalFileLen == 0 then StatusInvalidData
    else if w.sink.usedSize != w.info.totalFileLen then StatusError
    else StatusOk
  }

  // ---- Frames ----

  /** Bytes before the first `stop`, at most `limit` of them. */
  function Until(data: seq<U8>, stop: U8, limit: nat): (s: seq<U8>)
    ensures |s| <= limit && |s| <= |data| && s == data[..|s|]
    ensures forall i :: 0 <= i < |s| ==> s[i] != stop
    ensures |s| < limit && |s| < |data| ==> data[|s|] == stop
  {
    if limit == 0 || data == [] || data[0] == stop then [] else [data[0]] + Until(data[1..], stop, limit - 1)
  }

  /** The characters of the file size in a control frame: behind the name and one more byte, up to a blank. */
  function SizeText(data: seq<U8>): (s: seq<U8>)
    requires |data| >= 128
    ensures |s| <= SIZE_MAX
  {
    Until(data[|Until(data, 0, NAME_MAX)| + 1..], 0x20, SIZE_MAX)
  }

  function Spaces(s: seq<U8>): (n: nat)
    ensures n <= |s|
  {
    if s != [] && (s[0] == 0x20 || 0x09 <= s[0] <= 0x0D) then 1 + Spaces(s[1..]) else 0
  }

  function Digits(s: seq<U8>): (n: nat)
    ensures n <= |s|
    ensures forall i :: 0 <= i < n ==> 0x30 <= s[i] <= 0x39
  {
    if s != [] && 0x30 <= s[0] <= 0x39 then 1 + Digits(s[1..]) else 0
  }

  function Decimal(s: seq<U8>): nat
    requires forall i :: 0 <= i < |s| ==> 0x30 <= s[i] <= 0x39
  {
    if s == [] then 0 else 10 * Decimal(s[..|s| - 1]) + (s[|s| - 1] - 0x30)
  }

  /** The conversion `%lu`: optional white space and sign, then digits; a minus sign negates in 64 bits. */
  function ScanUnsignedLong(s: seq<U8>): Option<nat>
  {
    var t := s[Spaces(s)..];
    var signed := t != [] && (t[0] == 0x2B || t[0] == 0x2D);
    var u := if signed then t[1..] else t;
    var n := Digits(u);
    if n == 0 then None
    else
      var v := Decimal(u[..n]) % U64_SIZE;
      Some(if signed && t[0] == 0x2D then (U64_SIZE - v) % U64_SIZE else v)
  }

  function ParseControlFrame(w: World, data: seq<U8>): (World, Status)
    requires |data| >= 128 && |w.session.fileName| == NAME_MAX + 1
  {
    if data[0] == 0 then
      (Send(w.(session := w.session.(isFileEnd := true, state := DONE)), [YMODEM_ACK]), StatusOk)
    else
      var name := Until(data, 0, NAME_MAX);
      var s := w.session.(fileName := name + w.session.fileName[|name|..]);
      match ScanUnsignedLong(CString(SizeText(data)))
      case None => (w.(session := s), StatusInvalidData)
      case Some(v) =>
        // The 64-bit store covers totalFileSize and the field behind it.
        var s := s.(totalFileSize := v % U32_SIZE, curFileSize := v / U32_SIZE % U32_SIZE);
        var (w', status) := RecvStart(w.(session := s), CString(s.fileName), s.totalFileSize);
        if status != StatusOk then (w', StatusCallbackErr)
        else
          (Send(w'.(session := s.(state := BUSY, seqNo := (s.seqNo + 1) % 256), accepted := []),
                [YMODEM_ACK, YMODEM_C]), StatusOk)
  }

  /** Addition of unsigned 32-bit numbers. */
  function Add32(a: nat, b: nat): U32
  {
    (a + b) % U32_SIZE
  }

  /** How much of `size` bytes the declared file still takes. */
  function CutSize(cur: U32, total: U32, size: nat): (n: nat)
    requires cur < total && size <= 1024
    ensures n <= size
  {
    if Add32(cur, size) > total then total - cur else size
  }

  function ParseDataFrame(w: World, packet: Packet): (World, Status)
    requires SinkOk(w.sink) && |packet.data| == DataSize(packet.kind)
  {
    var s, size := w.session, |packet.data|;
    if s.curFileSize >= s.totalFileSize then (w, StatusInvalidData)
    else
      var n := CutSize(s.curFileSize, s.totalFileSize, size);
      var (w', status) := RecvData(w, packet.data[..n]);
      if status != StatusOk then (w', StatusCallbackErr)
      else
        var s := s.(curFileSize := Add32(s.curFileSize, n), errCnt := 0, seqNo := (s.seqNo + 1) % 256);
        (Send(w'.(session := s, accepted := w.accepted + [packet]), [YMODEM_ACK]), StatusOk)
  }

  predicate Good(w: World)
  {
    SinkOk(w.sink) && |w.session.fileName| == NAME_MAX + 1
  }

  function ParsePacket(w: World, packet: Packet): (World, Status)
    requires Good(w) && (packet.kind != YMODEM_EOT ==> |packet.data| == DataSize(packet.kind))
  {
    if packet.kind == YMODEM_EOT then
      if RecvEnd(w) != StatusOk then (w, StatusCallbackErr)
      else (Send(w.(session := w.session.(isFileEnd := true, state := IDLE)), [YMODEM_ACK, YMODEM_C]), StatusOk)
    else if packet.seqNo != 0xFF - packet.seqOc then (w, StatusSeqInvalid)
    else if !Accepts(packet.data, packet.crcHi, packet.crcLo) then (w, StatusCrcInvalid)
    else if packet.seqNo != w.session.seqNo then (w, StatusSeqMismatch)
    else if w.session.seqNo == 0 && w.session.state == IDLE then ParseControlFrame(w, packet.data)
    else ParseDataFrame(w, packet)
  }

  function HandleError(w: World, status: Status): World
  {
    var s := w.session;
    match status
    case StatusOk => w
    case StatusSeqMismatch => Send(w, [YMODEM_NAK])
    case StatusAbortBySender => Send(w.(session := s.(isFileEnd := true, state := DONE)), [YMODEM_ACK])
    case StatusCallbackErr => Send(w.(session := s.(isFileEnd := true, state := DONE)), [YMODEM_CAN, YMODEM_CAN])
    case StatusAbortByUser => Send(w.(session := s.(isFileEnd := true, state := DONE)), [YMODEM_CAN, YMODEM_CAN])
    case _ =>
      var s := if s.state == BUSY then s.(errCnt := s.errCnt + 1) else s;
      if s.errCnt > MAX_ERRORS then Send(w.(session := s.(isFileEnd := true, state := DONE)), [YMODEM_CAN, YMODEM_CAN])
      else Send(w.(session := s), [YMODEM_C])
  }

  // ---- A whole call of YMODEM_ReceiveFile ----

  function Handle(w: World, r: Receipt): (World, Status)
    requires Good(w) && !r.Starved?
    requires r.Got? && r.packet.kind != YMODEM_EOT ==> |r.packet.data| == DataSize(r.packet.kind)
  {
    var (w', status) := if r.Got? then ParsePacket(w, r.packet) else (w, r.status);
    (HandleError(w', status), status)
  }

  lemma HandleGood(w: World, r: Receipt)
    requires Good(w) && !r.Starved?
    requires r.Got? && r.packet.kind != YMODEM_EOT ==> |r.packet.data| == DataSize(r.packet.kind)
    ensures Good(Handle(w, r).0)
  {
    hide Accepts, ParseControlFrame, ParseDataFrame;
    if r.Got? && r.packet.kind != YMODEM_EOT {
      ControlGood(w, r.packet.data);
      DataGood(w, r.packet);
    }
  }

  lemma ControlGood(w: World, data: seq<U8>)
    requires Good(w) && |data| >= 128
    ensures Good(ParseControlFrame(w, data).0)
  {
    hide ScanUnsignedLong, CString, SameName, SizeText;
  }

  lemma DataGood(w: World, packet: Packet)
    requires Good(w) && |packet.data| == DataSize(packet.kind)
    ensures Good(ParseDataFrame(w, packet).0)
  {
    hide Store;
    forall b: seq<U8> ensures SinkOk(WriteFile(w.sink, b)) { WriteGood(w.sink, b); }
  }

  lemma WriteGood(sink: Sink, bytes: seq<U8>)
    requires SinkOk(sink)
    ensures SinkOk(WriteFile(sink, bytes))
  {
    assert |Store(sink.data, sink.usedSize, bytes)| >= sink.usedSize + |bytes|;
  }

  /** Still waiting at the end of the known input, or returned. */
  datatype Outcome = Waiting(world: World) | Returned(world: World, status: Status)

  function Receive(w: World, input: seq<Event>, pos: nat): Outcome
    requires Good(w) && pos <= |input|
    decreases |input| - pos
  {
    var r := RecvPacket(input, pos);
    if r.Starved? then Waiting(w)
    else
      var (w', status) := Handle(w, r);
      HandleGood(w, r);
      if !w'.session.isFileEnd then Receive(w', input, r.next)
      else if w'.session.state == DONE then Returned(w', status)
      else Receive(w'.(session := FreshSession()), input, r.next)
  }
}
