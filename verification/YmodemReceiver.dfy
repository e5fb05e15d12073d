/** The receiver as the source runs it: session, download info and sink updated in place, one event at a time. */
module YmodemReceiver {
  import opened Bits
  import opened Options
  import opened Crc
  import opened Ymodem
  import opened YmodemTheorems

  function Prepend(bytes: seq<U8>, t: Taken): Taken
  {
    match t
    case Bytes(rest, next) => Bytes(bytes + rest, next)
    case _ => t
  }

  lemma PrependNothing(t: Taken)
    ensures Prepend([], t) == t
  {
    if t.Bytes? {
      assert [] + t.bytes == t.bytes;
    }
  }

  /** One event of a read. */
  lemma PrependStep(buf: seq<U8>, input: seq<Event>, pos: nat, n: nat)
    requires pos <= |input|
    ensures var t := Prepend(buf, Take(input, pos, n));
            if n == 0 then t == Bytes(buf, pos)
            else if pos == |input| then t == NoMore
            else if input[pos] == None then t == TimedOut(pos + 1)
            else t == Prepend(buf + [input[pos].value], Take(input, pos + 1, n - 1))
  {
    if n == 0 {
      assert buf + [] == buf;
    } else if pos < |input| && input[pos] != None {
      var rest := Take(input, pos + 1, n - 1);
      if rest.Bytes? {
        assert buf + ([input[pos].value] + rest.bytes) == buf + [input[pos].value] + rest.bytes;
      }
    }
  }

  class Receiver {
    const input: seq<Event>
    const name: seq<U8>

    /** Events consumed from the line and bytes put on it. */
    var pos: nat
    var sent: seq<U8>

    /** The session. */
    var seqNo: U8
    var errCnt: nat
    var isFileEnd: bool
    var state: SessionState
    var fileName: seq<U8>
    var totalFileSize: U32
    var curFileSize: U32

    /** The download info. */
    var curFileLen: U32
    var totalFileLen: U32

    /** The sink. */
    var usedSize: U32
    var data: seq<U8>

    /** The data packets accepted for the current file. */
    ghost var accepted: seq<Packet>

    constructor (events: seq<Event>, wanted: seq<U8>, memory: seq<U8>, used: U32)
      requires used <= |memory|
      ensures input == events && name == wanted && pos == 0
      ensures W() == World(FreshSession(), Info(0, 0, wanted), Sink(used, memory), [], [])
    {
      input, name, pos, sent := events, wanted, 0, [];
      seqNo, errCnt, isFileEnd, state := 0, 0, false, IDLE;
      fileName, totalFileSize, curFileSize := seq(NAME_MAX + 1, _ => 0), 0, 0;
      curFileLen, totalFileLen, usedSize, data, accepted := 0, 0, used, memory, [];
    }

    ghost function W(): World
      reads this
    {
      World(Session(seqNo, errCnt, isFileEnd, state, fileName, totalFileSize, curFileSize),
            Info(curFileLen, totalFileLen, name), Sink(usedSize, data), sent, accepted)
    }

    ghost predicate Valid()
      reads this
    {
      pos <= |input| && Good(W())
    }

    // ---- The line ----

    method ReadBytes(n: nat) returns (r: Taken)
      requires pos <= |input|
      modifies this`pos
      ensures r == Take(input, old(pos), n)
      ensures pos <= |input| && (r.Bytes? || r.TimedOut? ==> pos == r.next)
    {
      hide Take, Prepend;
      var buf: seq<U8> := [];
      var i := 0;
      ghost var start := pos;
      PrependNothing(Take(input, pos, n));
      while i < n
        invariant i <= n && pos <= |input|
        invariant Take(input, start, n) == Prepend(buf, Take(input, pos, n - i))
      {
        PrependStep(buf, input, pos, n - i);
        if pos == |input| {
          return NoMore;
        }
        var e := input[pos];
        pos := pos + 1;
        if e == None {
          return TimedOut(pos);
        }
        buf := buf + [e.value];
        i := i + 1;
      }
      PrependStep(buf, input, pos, 0);
      return Bytes(buf, pos);
    }

    /** YMODEM_RecvPacket. */
    method ReceivePacket() returns (r: Receipt)
      requires pos <= |input|
      modifies this`pos
      ensures r == RecvPacket(input, old(pos))
      ensures pos <= |input| && (!r.Starved? ==> pos == r.next)
    {
      hide Take;
      if pos == |input| {
        return Starved;
      }
      var e := input[pos];
      pos := pos + 1;
      if e == None {
        return Failed(StatusTimeout, pos);
      }
      var kind := e.value;
      if kind == YMODEM_SOH || kind == YMODEM_STX {
        var size := DataSize(kind);
        var taken := ReadBytes(size + 4);
        match taken {
          case Bytes(b, next) =>
            return Got(Packet(kind, b[0], b[1], b[2..2 + size], b[2 + size], b[3 + size]), next);
          case TimedOut(next) =>
            return Failed(StatusTimeout, next);
          case NoMore =>
            return Starved;
        }
      }
      if kind == YMODEM_EOT {
        return Got(Packet(kind, 0, 0, [], 0, 0), pos);
      }
      if kind == YMODEM_CAN {
        if pos == |input| {
          return Starved;
        }
        e := input[pos];
        pos := pos + 1;
        if e == None {
          return Failed(StatusTimeout, pos);
        }
        return Failed(if e.value == YMODEM_CAN then StatusAbortBySender else StatusUnknownCmd, pos);
      }
      var aborted := kind == YMODEM_ABORT1 || kind == YMODEM_ABORT2;
      return Failed(if aborted then StatusAbortByUser else StatusUnknownCmd, pos);
    }

    method Put(bytes: seq<U8>)
      modifies this`sent
      ensures sent == old(sent) + bytes
    {
      sent := sent + bytes;
    }

    // ---- The sink ----

    /** EMMC_WriteFile: a byte at a time behind what is already there. */
    method Write(bytes: seq<U8>)
      requires usedSize <= |data|
      modifies this`usedSize, this`data
      ensures Sink(usedSize, data) == WriteFile(old(Sink(usedSize, data)), bytes)
    {
      ghost var before := data;
      var i := 0;
      while i < |bytes|
        modifies this`data
        invariant i <= |bytes|
        invariant data == Store(before, usedSize, bytes[..i])
      {
        var at := usedSize + i;
        assert bytes[..i + 1] == bytes[..i] + [bytes[i]];
        if at < |data| {
          data := data[at := bytes[i]];
        } else {
          data := data + [bytes[i]];
        }
        i := i + 1;
      }
      assert bytes[..|bytes|] == bytes;
      usedSize := Add32(usedSize, |bytes|);
    }

    // ---- The callbacks ----

    /** PRT_RecvStartCmdCallback. */
    method RecvStartCmd(wanted: seq<U8>, fileSize: U32) returns (status: Status)
      modifies this`usedSize, this`curFileLen, this`totalFileLen
      ensures (W(), status) == RecvStart(old(W()), wanted, fileSize)
      ensures status == StatusOk <==> fileSize > 0 && SameName(name, wanted) && |wanted| < 64
      ensures if status == StatusOk then usedSize == curFileLen == 0 && totalFileLen == fileSize
              else W() == old(W())
    {
      if fileSize == 0 {
        return StatusInvalidParam;
      }
      if !SameName(name, wanted) {
        return StatusError;
      }
      if |wanted| >= NAME_MAX {
        return StatusError;
      }
      usedSize := 0;
      curFileLen := 0;
      totalFileLen := fileSize;
      return StatusOk;
    }

    /** PRT_RecvFileDataCallback. */
    method RecvFileData(bytes: seq<U8>) returns (status: Status)
      requires usedSize <= |data|
      modifies this`usedSize, this`data, this`curFileLen
      ensures (W(), status) == RecvData(old(W()), bytes)
      ensures status == StatusOk <==> |bytes| > 0 && old(curFileLen) < totalFileLen
      ensures status != StatusOk ==> W() == old(W())
    {
      hide Store;
      if |bytes| == 0 {
        return StatusInvalidParam;
      }
      if curFileLen >= totalFileLen {
        return StatusInvalidData;
      }
      Write(bytes);
      curFileLen := Add32(curFileLen, |bytes|);
      return StatusOk;
    }

    /** PRT_RecvEndCmdCallback with EMMC_WriteFileComplete. */
    method RecvEndCmd() returns (status: Status)
      ensures status == RecvEnd(W())
      ensures status == StatusOk <==> totalFileLen > 0 && usedSize == totalFileLen
    {
      if totalFileLen == 0 {
        return StatusInvalidData;
      }
      if usedSize != totalFileLen {
        return StatusError;
      }
      return StatusOk;
    }

    // ---- Frames ----

    /** The loop that copies the file name. */
    method CopyName(frame: seq<U8>) returns (p: nat)
      requires |frame| >= 128 && |fileName| == NAME_MAX + 1
      modifies this`fileName
      ensures p == |Until(frame, 0, NAME_MAX)|
      ensures fileName == Until(frame, 0, NAME_MAX) + old(fileName)[p..]
    {
      hide Until;
      p := 0;
      ghost var before := fileName;
      assert frame[0..] == frame;
      while p < NAME_MAX && frame[p] != 0
        modifies this`fileName
        invariant p <= NAME_MAX && |fileName| == NAME_MAX + 1
        invariant fileName[..p] == frame[..p] && fileName[p..] == before[p..]
        invariant |Until(frame, 0, NAME_MAX)| == p + |Until(frame[p..], 0, NAME_MAX - p)|
      {
        UntilStep(frame, p, 0, NAME_MAX - p);
        fileName := fileName[p := frame[p]];
        p := p + 1;
      }
      UntilStep(frame, p, 0, NAME_MAX - p);
    }

    /** The loop that copies the file size. */
    method CopySize(frame: seq<U8>, from: nat) returns (sizeText: seq<U8>)
      requires from + SIZE_MAX < |frame|
      ensures sizeText == Until(frame[from..], 0x20, SIZE_MAX)
    {
      hide Until;
      sizeText := [];
      var i := 0;
      while i < SIZE_MAX && frame[from + i] != 0x20
        invariant i <= SIZE_MAX && sizeText == frame[from..from + i]
        invariant |Until(frame[from..], 0x20, SIZE_MAX)| == i + |Until(frame[from + i..], 0x20, SIZE_MAX - i)|
      {
        UntilStep(frame, from + i, 0x20, SIZE_MAX - i);
        sizeText := sizeText + [frame[from + i]];
        i := i + 1;
      }
      UntilStep(frame, from + i, 0x20, SIZE_MAX - i);
      assert frame[from..][..i] == frame[from..from + i];
    }

    method ParseControl(frame: seq<U8>) returns (status: Status)
      requires Valid() && |frame| >= 128
      modifies this`isFileEnd, this`state, this`fileName, this`totalFileSize, this`curFileSize, this`seqNo
      modifies this`usedSize, this`curFileLen, this`totalFileLen, this`sent, this`accepted
      ensures (W(), status) == ParseControlFrame(old(W()), frame)
    {
      hide ScanUnsignedLong, CString, SameName, SizeText, Until;
      if frame[0] == 0 {
        isFileEnd := true;
        state := DONE;
        Put([YMODEM_ACK]);
        return StatusOk;
      }
      var p := CopyName(frame);
      var sizeText := CopySize(frame, p + 1);
      SizeTextIs(frame);
      var v := ScanUnsignedLong(CString(sizeText));
      if v.None? {
        return StatusInvalidData;
      }
      totalFileSize, curFileSize := v.value % U32_SIZE, v.value / U32_SIZE % U32_SIZE;
      status := RecvStartCmd(CString(fileName), totalFileSize);
      if status != StatusOk {
        return StatusCallbackErr;
      }
      BeginFile();
    }

    method BeginFile()
      modifies this`state, this`seqNo, this`sent, this`accepted
      ensures state == BUSY && seqNo == (old(seqNo) + 1) % 256
      ensures sent == old(sent) + [YMODEM_ACK, YMODEM_C] && accepted == []
    {
      state := BUSY;
      seqNo := (seqNo + 1) % 256;
      accepted := [];
      Put([YMODEM_ACK, YMODEM_C]);
    }

    method ParseData(packet: Packet) returns (status: Status)
      requires Valid() && |packet.data| == DataSize(packet.kind)
      modifies this`usedSize, this`data, this`curFileLen, this`curFileSize, this`errCnt, this`seqNo, this`sent,
               this`accepted
      ensures (W(), status) == ParseDataFrame(old(W()), packet)
    {
      hide Store, RecvData, WriteFile, Add32;
      if curFileSize >= totalFileSize {
        return StatusInvalidData;
      }
      var n := |packet.data|;
      if Add32(curFileSize, n) > totalFileSize {
        n := totalFileSize - curFileSize;
      }
      assert n == CutSize(curFileSize, totalFileSize, |packet.data|);
      status := RecvFileData(packet.data[..n]);
      if status != StatusOk {
        return StatusCallbackErr;
      }
      CountData(packet, n);
    }

    method CountData(packet: Packet, n: nat)
      modifies this`curFileSize, this`errCnt, this`seqNo, this`sent, this`accepted
      ensures curFileSize == Add32(old(curFileSize), n) && errCnt == 0 && seqNo == (old(seqNo) + 1) % 256
      ensures sent == old(sent) + [YMODEM_ACK] && accepted == old(accepted) + [packet]
    {
      curFileSize := Add32(curFileSize, n);
      errCnt := 0;
      seqNo := (seqNo + 1) % 256;
      accepted := accepted + [packet];
      Put([YMODEM_ACK]);
    }

    /** YMODEM_ParseRecvPacket. */
    method ParseReceived(packet: Packet) returns (status: Status)
      requires Valid() && (packet.kind != YMODEM_EOT ==> |packet.data| == DataSize(packet.kind))
      modifies this
      ensures (W(), status) == ParsePacket(old(W()), packet) && pos == old(pos)
    {
      hide ParseControlFrame, ParseDataFrame, RecvEnd, Crc.Crc;
      if packet.kind == YMODEM_EOT {
        status := RecvEndCmd();
        if status != StatusOk {
          return StatusCallbackErr;
        }
        isFileEnd := true;
        state := IDLE;
        Put([YMODEM_ACK, YMODEM_C]);
        return StatusOk;
      }
      if packet.seqNo != 0xFF - packet.seqOc {
        return StatusSeqInvalid;
      }
      var crc := CalculateCrc16(packet.data);
      var hi: nat := packet.crcHi;
      if crc != 256 * hi + packet.crcLo {
        return StatusCrcInvalid;
      }
      if packet.seqNo != seqNo {
        return StatusSeqMismatch;
      }
      if seqNo == 0 && state == IDLE {
        status := ParseControl(packet.data);
      } else {
        status := ParseData(packet);
      }
    }

    /** YMODEM_HandleErrorStatus. */
    method HandleErrorStatus(status: Status)
      modifies this`errCnt, this`isFileEnd, this`state, this`sent
      ensures W() == HandleError(old(W()), status)
    {
      match status {
        case StatusOk =>
        case StatusSeqMismatch =>
          Put([YMODEM_NAK]);
        case StatusAbortBySender =>
          isFileEnd, state := true, DONE;
          Put([YMODEM_ACK]);
        case StatusCallbackErr =>
          isFileEnd, state := true, DONE;
          Put([YMODEM_CAN, YMODEM_CAN]);
        case StatusAbortByUser =>
          isFileEnd, state := true, DONE;
          Put([YMODEM_CAN, YMODEM_CAN]);
        case _ =>
          CountError(status);
      }
    }

    method CountError(status: Status)
      requires status !in {StatusOk, StatusSeqMismatch, StatusAbortBySender, StatusCallbackErr, StatusAbortByUser}
      modifies this`errCnt, this`isFileEnd, this`state, this`sent
      ensures W() == HandleError(old(W()), status)
    {
      if state == BUSY {
        errCnt := errCnt + 1;
      }
      if errCnt > MAX_ERRORS {
        isFileEnd, state := true, DONE;
        Put([YMODEM_CAN, YMODEM_CAN]);
      } else {
        Put([YMODEM_C]);
      }
    }

    method ResetSession()
      modifies this
      ensures W() == old(W()).(session := FreshSession()) && pos == old(pos)
    {
      seqNo, errCnt, isFileEnd, state := 0, 0, false, IDLE;
      fileName, totalFileSize, curFileSize := seq(NAME_MAX + 1, _ => 0), 0, 0;
    }

    /** YMODEM_ReceiveFile: `done` is false when the known input ends before the call returns. */
    method ReceiveFile() returns (done: bool, status: Status)
      requires Valid()
      modifies this
      ensures Valid()
      ensures var first := old(W()).(session := FreshSession());
              Receive(first, input, old(pos)) == if done then Returned(W(), status) else Waiting(W())
      ensures old(totalFileLen) == 0 && done && status == StatusOk ==> Complete(W())
    {
      hide Handle, RecvPacket, ParsePacket, HandleError, FreshSession, Complete, Inv;
      status := StatusOk;
      ResetSession();
      GoodFresh(W());
      if totalFileLen == 0 {
        StartingInv(W());
        ReceiveKeeps(W(), input, pos);
      }
      ghost var start, from := W(), pos;
      while true
        invariant Valid()
        invariant Receive(start, input, from) == Receive(W(), input, pos)
        decreases |input| - pos
      {
        ghost var w := W();
        var r := ReceivePacket();
        if r.Starved? {
          return false, status;
        }
        status := if r.Got? then StatusOk else r.status;
        if r.Got? {
          status := ParseReceived(r.packet);
        }
        HandleErrorStatus(status);
        HandleIs(w, r);
        HandleGood(w, r);
        if isFileEnd {
          if state == DONE {
            return true, status;
          }
          ResetSession();
          GoodFresh(W());
        }
      }
    }
  }

  lemma UntilStep(frame: seq<U8>, p: nat, stop: U8, limit: nat)
    requires p < |frame|
    ensures |Until(frame[p..], stop, limit)| == if limit == 0 || frame[p] == stop then 0
            else 1 + |Until(frame[p + 1..], stop, limit - 1)|
  {
    assert frame[p..][1..] == frame[p + 1..];
  }

  lemma SizeTextIs(frame: seq<U8>)
    requires |frame| >= 128
    ensures |Until(frame, 0, NAME_MAX)| <= NAME_MAX
    ensures SizeText(frame) == Until(frame[|Until(frame, 0, NAME_MAX)| + 1..], 0x20, SIZE_MAX)
  {
  }

  lemma GoodFresh(w: World)
    requires SinkOk(w.sink) && w.session == FreshSession()
    ensures Good(w)
  {
  }

  lemma HandleIs(w: World, r: Receipt)
    requires Good(w) && !r.Starved?
    requires r.Got? && r.packet.kind != YMODEM_EOT ==> |r.packet.data| == DataSize(r.packet.kind)
    ensures var (w', status) := if r.Got? then ParsePacket(w, r.packet) else (w, r.status);
            Handle(w, r) == (HandleError(w', status), status)
  {
    hide ParsePacket, HandleError;
  }
}
