/** What every byte and timeout stream can and cannot make the YMODEM receiver do. */
module YmodemTheorems {
  import opened Bits
  import opened Options
  import opened Crc
  import opened Ymodem

  // ---- The bytes of a file ----

  function Payloads(packets: seq<Packet>): seq<U8>
  {
    if packets == [] then [] else Payloads(packets[..|packets| - 1]) + packets[|packets| - 1].data
  }

  function Cut(bytes: seq<U8>, n: nat): seq<U8>
  {
    if |bytes| <= n then bytes else bytes[..n]
  }

  /** The bytes that accepted packets deliver of a file of the declared size. */
  function FileBytes(w: World): seq<U8>
  {
    Cut(Payloads(w.accepted), w.session.totalFileSize)
  }

  /** A whole packet: 128 or 1024 bytes, its number with the complement, and a CRC that fits. */
  predicate DataPacket(p: Packet)
  {
    && ((p.kind == YMODEM_SOH && |p.data| == 128) || (p.kind == YMODEM_STX && |p.data| == 1024))
    && p.seqNo + p.seqOc == 0xFF && Accepts(p.data, p.crcHi, p.crcLo)
  }

  // ---- The invariant between packets ----

  /** Session, download info and sink count the same bytes, and the sink holds them. */
  predicate Agreeing(w: World)
  {
    && w.session.curFileSize == w.info.curFileLen == w.sink.usedSize == |FileBytes(w)|
    && SinkOk(w.sink) && w.sink.data[..w.sink.usedSize] == FileBytes(w)
  }

  /** The declared size was negative: the session counts more than it declares and takes no data. */
  predicate Refusing(w: World)
  {
    && w.session.curFileSize >= w.session.totalFileSize
    && w.accepted == [] && w.info.curFileLen == 0 && w.sink.usedSize == 0
  }

  predicate Busy(w: World)
  {
    && w.session.seqNo == (|w.accepted| + 1) % 256
    && Numbered(w.accepted)
    && 0 < w.session.totalFileSize == w.info.totalFileLen
    && ((Agreeing(w) && w.session.totalFileSize < 1_000_000_000) || Refusing(w))
  }

  predicate Numbered(packets: seq<Packet>)
  {
    forall i :: 0 <= i < |packets| ==> DataPacket(packets[i]) && packets[i].seqNo == (i + 1) % 256
  }

  /**
   No file was announced yet, or the last one is in the sink: as many bytes as declared, from its packets in order.
   */
  predicate Complete(w: World)
  {
    w.info.totalFileLen == 0 ||
    (&& SinkOk(w.sink) && w.sink.usedSize == w.info.totalFileLen
     && Numbered(w.accepted)
     && w.sink.data[..w.sink.usedSize] == Cut(Payloads(w.accepted), w.info.totalFileLen))
  }

  predicate Inv(w: World)
  {
    && Good(w) && !w.session.isFileEnd && w.session.errCnt <= MAX_ERRORS
    && match w.session.state
       case IDLE => w.session.seqNo == 0 && w.session.curFileSize == 0 && w.session.errCnt == 0 && Complete(w)
       case BUSY => Busy(w)
       case DONE => false
  }

  // ---- Sizes in control frames ----

  function Pow10(k: nat): nat
  {
    if k == 0 then 1 else 10 * Pow10(k - 1)
  }

  lemma {:induction false} DecimalBound(s: seq<U8>)
    requires forall i :: 0 <= i < |s| ==> 0x30 <= s[i] <= 0x39
    ensures Decimal(s) < Pow10(|s|)
  {
    if s != [] {
      DecimalBound(s[..|s| - 1]);
    }
  }

  lemma {:induction false} Pow10Monotone(j: nat, k: nat)
    requires j <= k
    ensures Pow10(j) <= Pow10(k)
  {
    if j < k {
      Pow10Monotone(j, k - 1);
    }
  }

  /** The text starts, behind white space, with a minus sign. */
  predicate Negative(text: seq<U8>)
  {
    var t := text[Spaces(text)..];
    t != [] && t[0] == 0x2D
  }

  /** A size of at most nine characters is below 2^32 unless it is written with a minus sign and is not zero. */
  lemma ScanBounds(text: seq<U8>)
    requires |text| <= SIZE_MAX && ScanUnsignedLong(text).Some?
    ensures var v := ScanUnsignedLong(text).value;
            && (!Negative(text) || v == 0 ==> v < 1_000_000_000)
            && (Negative(text) && v != 0 ==> U64_SIZE - 1_000_000_000 < v < U64_SIZE)
  {
    hide Decimal, Digits, Spaces, Pow10;
    var t := text[Spaces(text)..];
    var signed := t != [] && (t[0] == 0x2B || t[0] == 0x2D);
    var u := if signed then t[1..] else t;
    var n := Digits(u);
    DecimalBound(u[..n]);
    Pow10Monotone(n, 9);
    Pow10Nine();
  }

  lemma Pow10Nine()
    ensures Pow10(9) == 1_000_000_000
  {
    assert Pow10(3) == 1000;
    assert Pow10(6) == 1_000_000;
  }

  // ---- One packet ----

  lemma {:induction false} CStringShort(buffer: seq<U8>)
    ensures |CString(buffer)| <= |buffer|
  {
  }

  /** The 64-bit store of the size splits into the declared size and what lands in the byte counter. */
  lemma SizeStore(v: nat)
    requires v < 1_000_000_000 || U64_SIZE - 1_000_000_000 < v < U64_SIZE
    ensures v < 1_000_000_000 ==> v % U32_SIZE == v && v / U32_SIZE % U32_SIZE == 0
    ensures v >= 1_000_000_000 ==> v / U32_SIZE % U32_SIZE == U32_SIZE - 1
  {
  }

  lemma ControlKeeps(w: World, data: seq<U8>)
    requires Inv(w) && w.session.state == IDLE && |data| >= 128
    ensures var (w', status) := ParseControlFrame(w, data);
            && Good(w')
            && (status == StatusOk && data[0] != 0 ==> Inv(w') && w'.session.state == BUSY && w'.accepted == [])
            && (status == StatusOk && data[0] == 0 ==> w'.session.isFileEnd && w'.session.state == DONE)
            && (status in {StatusOk, StatusInvalidData} && w'.session.state != BUSY ==> Complete(w'))
            && (status == StatusInvalidData ==> Inv(w') && w'.session.state == IDLE)
            && status in {StatusOk, StatusInvalidData, StatusCallbackErr}
  {
    hide ScanUnsignedLong, SameName, CString, SizeText;
    if data[0] != 0 {
      var text := CString(SizeText(data));
      CStringShort(SizeText(data));
      if ScanUnsignedLong(text).Some? {
        ScanBounds(text);
        SizeStore(ScanUnsignedLong(text).value);
      }
    }
  }

  /**
   An accepted control frame leaves the three counters equal exactly when its size is not written as a negative
   number.
   */
  lemma CountersStartEqual(w: World, data: seq<U8>)
    requires Inv(w) && w.session.state == IDLE && |data| >= 128 && data[0] != 0
    requires ParseControlFrame(w, data).1 == StatusOk
    ensures Agreeing(ParseControlFrame(w, data).0) <==> !Negative(CString(SizeText(data)))
  {
    hide ScanUnsignedLong, SameName, CString, SizeText, Negative;
    var text := CString(SizeText(data));
    CStringShort(SizeText(data));
    ScanBounds(text);
    SizeStore(ScanUnsignedLong(text).value);
  }

  lemma StoreContents(data: seq<U8>, at: nat, bytes: seq<U8>)
    requires at <= |data|
    ensures var d := Store(data, at, bytes); at + |bytes| <= |d| && d[..at + |bytes|] == data[..at] + bytes
  {
  }

  lemma DataKeeps(w: World, p: Packet)
    requires Inv(w) && w.session.state == BUSY && DataPacket(p) && p.seqNo == w.session.seqNo
    ensures var (w', status) := ParseDataFrame(w, p);
            && Good(w')
            && status in {StatusOk, StatusInvalidData}
            && (status == StatusInvalidData ==> w' == w)
            && (status == StatusOk ==>
                  && Inv(w') && w'.session.state == BUSY && Agreeing(w')
                  && w'.accepted == w.accepted + [p] && w'.session.errCnt == 0
                  && w'.session.totalFileSize == w.session.totalFileSize)
  {
    hide Accepts, Store, Payloads, FileBytes, CutSize, RecvData;
    if w.session.curFileSize < w.session.totalFileSize {
      DataTaken(w, p);
      NumberedSnoc(w.accepted, p);
    }
  }

  lemma NumberedSnoc(packets: seq<Packet>, p: Packet)
    requires Numbered(packets) && DataPacket(p) && p.seqNo == (|packets| + 1) % 256
    ensures Numbered(packets + [p])
  {
  }

  /**
   A data packet that still fits the declared size is stored, cut to that size, and counted once in all three places.
   */
  lemma DataTaken(w: World, p: Packet)
    requires Inv(w) && w.session.state == BUSY && DataPacket(p) && w.session.curFileSize < w.session.totalFileSize
    ensures var (w', status) := ParseDataFrame(w, p);
            && status == StatusOk && Good(w') && Agreeing(w')
            && w'.accepted == w.accepted + [p]
            && w'.session
               == w.session.(curFileSize := |FileBytes(w')|, errCnt := 0, seqNo := (w.session.seqNo + 1) % 256)
            && w'.info == w.info.(curFileLen := |FileBytes(w')|)
            && w'.sent == w.sent + [YMODEM_ACK]
  {
    hide Accepts, Store, Payloads, Cut;
    var n := AppendCut(w, p);
    DataWorld(w, p, n);
    hide ParseDataFrame;
    StoreContents(w.sink.data, w.sink.usedSize, p.data[..n]);
    assert FileBytes(ParseDataFrame(w, p).0) == FileBytes(w) + p.data[..n];
  }

  lemma DataWorld(w: World, p: Packet, n: nat)
    requires SinkOk(w.sink) && |p.data| == DataSize(p.kind)
    requires w.session.curFileSize < w.session.totalFileSize < 1_000_000_000
    requires w.session.curFileSize == w.info.curFileLen == w.sink.usedSize
             && w.session.totalFileSize == w.info.totalFileLen
    requires n == if w.session.curFileSize + |p.data| > w.session.totalFileSize
                  then w.session.totalFileSize - w.session.curFileSize else |p.data|
    ensures var s, k := w.session, w.session.curFileSize + n;
            ParseDataFrame(w, p)
            == (World(s.(curFileSize := k, errCnt := 0, seqNo := (s.seqNo + 1) % 256),
                      w.info.(curFileLen := k), Sink(k, Store(w.sink.data, w.sink.usedSize, p.data[..n])),
                      w.sent + [YMODEM_ACK], w.accepted + [p]), StatusOk)
  {
    hide Store;
    assert (w.session.curFileSize + |p.data|) % U32_SIZE == w.session.curFileSize + |p.data|;
  }

  lemma AppendCut(w: World, p: Packet) returns (n: nat)
    requires Agreeing(w) && w.session.curFileSize < w.session.totalFileSize
    ensures n == if w.session.curFileSize + |p.data| > w.session.totalFileSize
                 then w.session.totalFileSize - w.session.curFileSize else |p.data|
    ensures Cut(Payloads(w.accepted + [p]), w.session.totalFileSize) == FileBytes(w) + p.data[..n]
  {
    var s, acc := w.session, w.accepted + [p];
    n := if s.curFileSize + |p.data| > s.totalFileSize then s.totalFileSize - s.curFileSize else |p.data|;
    assert acc[..|acc| - 1] == w.accepted;
    var whole := Payloads(w.accepted);
    assert |whole| == s.curFileSize;
    assert Payloads(acc) == whole + p.data;
  }

  // ---- Every packet ----

  /** Between packets the invariant holds again, with a fresh session after the end of a file. */
  lemma HandleKeeps(w: World, r: Receipt)
    requires Inv(w) && !r.Starved? && (r.Failed? ==> r.status != StatusOk)
    requires r.Got? ==> r.packet.kind in {YMODEM_SOH, YMODEM_STX, YMODEM_EOT}
    requires r.Got? && r.packet.kind != YMODEM_EOT ==> |r.packet.data| == DataSize(r.packet.kind)
    ensures var w' := Handle(w, r).0;
            && (!w'.session.isFileEnd ==> Inv(w'))
            && (w'.session.isFileEnd && w'.session.state != DONE ==> Inv(w'.(session := FreshSession())))
            && (Handle(w, r).1 == StatusOk && w'.session.state == DONE ==> Complete(w') && EmptyControl(r))
  {
    hide ParseControlFrame, ParseDataFrame, Busy, Accepts, Complete, RecvEnd;
    HandleGood(w, r);
    if r.Got? && r.packet.kind == YMODEM_EOT {
      EndKeeps(w, r);
      return;
    }
    if r.Got? {
      if w.session.state == IDLE {
        ControlKeeps(w, r.packet.data);
      } else if DataPacket(r.packet) && r.packet.seqNo == w.session.seqNo {
        DataKeeps(w, r.packet);
      }
    }
    var w1 := if r.Got? then ParsePacket(w, r.packet).0 else w;
    BusyIgnores(w1);
    CompleteIgnores(w1);
  }

  lemma EndKeeps(w: World, r: Receipt)
    requires Inv(w) && r.Got? && r.packet.kind == YMODEM_EOT
    ensures var (w', status) := Handle(w, r);
            && w'.session.isFileEnd
            && (w'.session.state != DONE ==> status == StatusOk && Inv(w'.(session := FreshSession())))
            && (w'.session.state == DONE ==> status == StatusCallbackErr)
  {
    hide Busy, Complete, RecvEnd;
    if RecvEnd(w) == StatusOk && w.session.state == BUSY {
      EndAcknowledged(w);
    }
    CompleteIgnores(w);
  }

  /** A control frame without a file name. */
  predicate EmptyControl(r: Receipt)
  {
    r.Got? && DataPacket(r.packet) && r.packet.seqNo == 0 && r.packet.data[0] == 0
  }

  /** The end of a file is acknowledged only when the sink holds exactly the declared bytes. */
  lemma EndAcknowledged(w: World)
    requires Inv(w) && w.session.state == BUSY && RecvEnd(w) == StatusOk
    ensures Complete(w) && Agreeing(w) && |FileBytes(w)| == w.session.totalFileSize
  {
    hide Payloads, Numbered;
  }

  lemma CompleteIgnores(w: World)
    ensures Complete(w) ==> forall s: Session, out: seq<U8> :: Complete(w.(session := s, sent := out))
  {
  }

  /** Error counting, `isFileEnd` and the output do not touch what a busy session promises. */
  lemma BusyIgnores(w: World)
    ensures Busy(w) ==> forall n: nat, out: seq<U8> :: Busy(w.(session := w.session.(errCnt := n), sent := out))
  {
  }

  // ---- Every stream ----

  /** A download starts with no file announced. */
  predicate Starting(w: World)
  {
    Good(w) && w.session == FreshSession() && w.info.totalFileLen == 0
  }

  /** Whatever arrives, the invariant holds between packets. */
  lemma {:induction false} ReceiveKeeps(w: World, input: seq<Event>, pos: nat)
    requires Inv(w) && pos <= |input|
    ensures var out := Receive(w, input, pos);
            && (out.Waiting? ==> Inv(out.world))
            && (out.Returned? && out.status == StatusOk ==> Complete(out.world))
    decreases |input| - pos
  {
    hide Handle, Inv, Complete, RecvPacket;
    var r := RecvPacket(input, pos);
    InvGood(w);
    if !r.Starved? {
      HandleKeeps(w, r);
      HandleGood(w, r);
      var w' := Handle(w, r).0;
      if !w'.session.isFileEnd {
        ReceiveKeeps(w', input, r.next);
      } else if w'.session.state != DONE {
        ReceiveKeeps(w'.(session := FreshSession()), input, r.next);
      }
    }
  }

  lemma InvGood(w: World)
    requires Inv(w)
    ensures Good(w)
  {
  }

  lemma StartingInv(w: World)
    requires Starting(w)
    ensures Inv(w)
  {
  }

  /**
   A download that reports success leaves in the sink a file of exactly the declared size, made of the payloads of
   consecutively numbered packets with a correct CRC; or no file was announced at all.
   */
  lemma SuccessMeansComplete(w: World, input: seq<Event>)
    requires Starting(w)
    ensures var out := Receive(w, input, 0); out.Returned? && out.status == StatusOk ==> Complete(out.world)
  {
    StartingInv(w);
    ReceiveKeeps(w, input, 0);
  }

  /** Success is reported only on a control frame without a file name. */
  lemma {:induction false} SuccessNeedsEmptyControl(w: World, input: seq<Event>, pos: nat) returns (at: nat)
    requires Inv(w) && pos <= |input|
    requires var out := Receive(w, input, pos); out.Returned? && out.status == StatusOk
    ensures pos <= at <= |input| && EmptyControl(RecvPacket(input, at))
    decreases |input| - pos
  {
    hide Handle, Inv, Complete, RecvPacket, EmptyControl;
    var r := RecvPacket(input, pos);
    InvGood(w);
    HandleKeeps(w, r);
    HandleGood(w, r);
    var w' := Handle(w, r).0;
    at := pos;
    if !w'.session.isFileEnd {
      at := SuccessNeedsEmptyControl(w', input, r.next);
    } else if w'.session.state != DONE {
      at := SuccessNeedsEmptyControl(w'.(session := FreshSession()), input, r.next);
    }
  }

  // ---- Where the accepted packets come from ----

  /** The packets are receipts of the stream at these places, one behind the other, and all in front of `pos`. */
  ghost predicate InStream(input: seq<Event>, places: seq<nat>, packets: seq<Packet>, pos: nat)
  {
    && |places| == |packets|
    && forall i :: 0 <= i < |places| ==>
         && places[i] <= |input|
         && RecvPacket(input, places[i]).Got? && RecvPacket(input, places[i]).packet == packets[i]
         && RecvPacket(input, places[i]).next <= PlaceAfter(places, i, pos)
  }

  function PlaceAfter(places: seq<nat>, i: nat, pos: nat): nat
  {
    if i + 1 < |places| then places[i + 1] else pos
  }

  lemma HandleAccepted(w: World, r: Receipt)
    requires Good(w) && !r.Starved?
    requires r.Got? && r.packet.kind != YMODEM_EOT ==> |r.packet.data| == DataSize(r.packet.kind)
    ensures var a := Handle(w, r).0.accepted; a == w.accepted || a == [] || (r.Got? && a == w.accepted + [r.packet])
  {
    hide Accepts, ScanUnsignedLong, CString, SameName, SizeText, Store;
  }

  /** Handling the receipt at `pos` keeps the accepted packets in the stream. */
  lemma HandleInStream(w: World, input: seq<Event>, pos: nat, places: seq<nat>) returns (found: seq<nat>)
    requires Good(w) && pos <= |input| && InStream(input, places, w.accepted, pos) && !RecvPacket(input, pos).Starved?
    ensures var r := RecvPacket(input, pos);
            && InStream(input, found, Handle(w, r).0.accepted, r.next)
            && InStream(input, found, Handle(w, r).0.accepted, |input|)
  {
    hide Handle, RecvPacket;
    var r := RecvPacket(input, pos);
    HandleAccepted(w, r);
    var a := Handle(w, r).0.accepted;
    if a == w.accepted {
      found := places;
      InStreamLater(input, places, w.accepted, pos);
    } else if a == [] {
      found := [];
    } else {
      found := places + [pos];
      InStreamSnoc(input, places, w.accepted, pos);
    }
    InStreamLater(input, found, a, r.next);
  }

  lemma InStreamSnoc(input: seq<Event>, places: seq<nat>, packets: seq<Packet>, pos: nat)
    requires pos <= |input| && InStream(input, places, packets, pos) && RecvPacket(input, pos).Got?
    ensures var r := RecvPacket(input, pos); InStream(input, places + [pos], packets + [r.packet], r.next)
  {
    hide RecvPacket;
    var all, next := places + [pos], RecvPacket(input, pos).next;
    forall i | 0 <= i < |places| ensures RecvPacket(input, all[i]).next <= PlaceAfter(all, i, next) {
      assert RecvPacket(input, places[i]).next <= PlaceAfter(places, i, pos);
    }
  }

  /** Through every stream the accepted packets of the current file are receipts of that stream, in its order. */
  lemma {:induction false} AcceptedFromStream(w: World, input: seq<Event>, pos: nat, places: seq<nat>)
    returns (found: seq<nat>)
    requires Good(w) && pos <= |input| && InStream(input, places, w.accepted, pos)
    ensures InStream(input, found, Receive(w, input, pos).world.accepted, |input|)
    decreases |input| - pos
  {
    hide Handle, RecvPacket, InStream;
    var r := RecvPacket(input, pos);
    if r.Starved? {
      InStreamLater(input, places, w.accepted, pos);
      found := places;
    } else {
      HandleGood(w, r);
      var w' := Handle(w, r).0;
      found := HandleInStream(w, input, pos, places);
      if !w'.session.isFileEnd {
        found := AcceptedFromStream(w', input, r.next, found);
      } else if w'.session.state != DONE {
        found := AcceptedFromStream(w'.(session := FreshSession()), input, r.next, found);
      }
    }
  }

  lemma InStreamLater(input: seq<Event>, places: seq<nat>, packets: seq<Packet>, pos: nat)
    requires pos <= |input| && InStream(input, places, packets, pos)
    ensures forall later :: pos <= later ==> InStream(input, places, packets, later)
  {
    hide RecvPacket;
    forall later | pos <= later ensures InStream(input, places, packets, later) {
      forall i | 0 <= i < |places| ensures RecvPacket(input, places[i]).next <= PlaceAfter(places, i, later) {
        assert RecvPacket(input, places[i]).next <= PlaceAfter(places, i, pos);
      }
    }
  }

  /**
   A successful download holds in the sink the payloads of packets that came in on the line, cut to the declared size.
   */
  lemma SuccessFromStream(w: World, input: seq<Event>) returns (places: seq<nat>)
    requires Starting(w) && w.accepted == []
    requires Receive(w, input, 0).Returned? && Receive(w, input, 0).status == StatusOk
    ensures var out := Receive(w, input, 0).world;
            Complete(out) && InStream(input, places, out.accepted, |input|)
  {
    hide Receive, RecvPacket;
    SuccessMeansComplete(w, input);
    places := AcceptedFromStream(w, input, 0, []);
  }

  // ---- What the error counter counts ----

  /** A failure that the session counts while a file is in progress. */
  predicate Counted(status: Status)
  {
    status !in {StatusOk, StatusSeqMismatch, StatusAbortBySender, StatusCallbackErr, StatusAbortByUser}
  }

  /** The outcome of every receipt of a call, in order. */
  function Outcomes(w: World, input: seq<Event>, pos: nat): seq<Status>
    requires Good(w) && pos <= |input|
    decreases |input| - pos
  {
    var r := RecvPacket(input, pos);
    if r.Starved? then []
    else
      var (w', status) := Handle(w, r);
      HandleGood(w, r);
      [status] + if !w'.session.isFileEnd then Outcomes(w', input, r.next)
                 else if w'.session.state == DONE then []
                 else Outcomes(w'.(session := FreshSession()), input, r.next)
  }

  /** The outcomes since the last one that was good. */
  function SinceGood(outcomes: seq<Status>): seq<Status>
  {
    if outcomes == [] || outcomes[|outcomes| - 1] == StatusOk then []
    else SinceGood(outcomes[..|outcomes| - 1]) + [outcomes[|outcomes| - 1]]
  }

  function Failures(outcomes: seq<Status>): nat
  {
    if outcomes == [] then 0
    else Failures(outcomes[..|outcomes| - 1]) + if Counted(outcomes[|outcomes| - 1]) then 1 else 0
  }

  lemma {:induction false} FailuresSnoc(past: seq<Status>, status: Status)
    ensures Failures(SinceGood(past + [status]))
            == if status == StatusOk then 0 else Failures(SinceGood(past)) + if Counted(status) then 1 else 0
  {
    var all := past + [status];
    assert all[..|past|] == past;
    if status != StatusOk {
      var since := SinceGood(past) + [status];
      assert since[..|since| - 1] == SinceGood(past);
    }
  }

  /** One receipt in a busy session: a good one clears the counter, a counted failure adds one, others leave it. */
  lemma HandleCounts(w: World, r: Receipt)
    requires Inv(w) && !r.Starved? && (r.Failed? ==> r.status != StatusOk)
    requires r.Got? ==> r.packet.kind in {YMODEM_SOH, YMODEM_STX, YMODEM_EOT}
    requires r.Got? && r.packet.kind != YMODEM_EOT ==> |r.packet.data| == DataSize(r.packet.kind)
    ensures var (w', status) := Handle(w, r);
            var n := if status == StatusOk then 0 else w.session.errCnt + if Counted(status) then 1 else 0;
            && (w.session.state == BUSY && w'.session.state == BUSY ==> w'.session.errCnt == n)
            && (w.session.state == IDLE && w'.session.state == BUSY ==> status == StatusOk && w'.session.errCnt == 0)
            && (w'.session.state == DONE && Counted(status) ==> w.session.state == BUSY && n == MAX_ERRORS + 1)
  {
    hide Accepts, ScanUnsignedLong, CString, SameName, SizeText, Store, Complete, Busy;
  }

  /** With `past` the outcomes before `w`, the counter is the number of failures since the last good one. */
  lemma {:induction false} ErrorsAreFailures(w: World, input: seq<Event>, pos: nat, past: seq<Status>)
    requires Inv(w) && Good(w) && pos <= |input|
    requires w.session.state == BUSY ==> w.session.errCnt == Failures(SinceGood(past))
    ensures var out, all := Receive(w, input, pos), past + Outcomes(w, input, pos);
            && (out.Waiting? && out.world.session.state == BUSY
              ==> out.world.session.errCnt == Failures(SinceGood(all)))
            && (out.Returned? && Counted(out.status) ==> Failures(SinceGood(all)) == MAX_ERRORS + 1)
    decreases |input| - pos
  {
    hide Handle, Inv, RecvPacket, Counted, SinceGood, Failures;
    var r := RecvPacket(input, pos);
    if r.Starved? {
      assert past + [] == past;
    } else {
      HandleKeeps(w, r);
      HandleGood(w, r);
      HandleCounts(w, r);
      var (w', status) := Handle(w, r);
      var now := past + [status];
      FailuresSnoc(past, status);
      if !w'.session.isFileEnd {
        InvStates(w);
        InvStates(w');
        ErrorsAreFailures(w', input, r.next, now);
        assert now + Outcomes(w', input, r.next) == past + ([status] + Outcomes(w', input, r.next));
      } else if w'.session.state != DONE {
        var next := w'.(session := FreshSession());
        ErrorsAreFailures(next, input, r.next, now);
        assert now + Outcomes(next, input, r.next) == past + ([status] + Outcomes(next, input, r.next));
      } else {
        InvStates(w);
        assert past + ([status] + []) == now;
      }
    }
  }

  lemma InvStates(w: World)
    requires Inv(w)
    ensures w.session.state == IDLE || w.session.state == BUSY
    ensures Good(w) && w.session.errCnt <= MAX_ERRORS
  {
  }

  /**
   Through every stream: in the middle of a file the counter is the number of counted failures since the last accepted
   packet, it is at most five, and a call that gives up over such a failure does so at the sixth.
   */
  lemma FiveFailuresTolerated(w: World, input: seq<Event>)
    requires Starting(w)
    ensures var out, failures := Receive(w, input, 0), Failures(SinceGood(Outcomes(w, input, 0)));
            && (out.Waiting? && out.world.session.state == BUSY ==> out.world.session.errCnt == failures <= 5)
            && (out.Returned? && Counted(out.status) ==> failures == 6)
  {
    hide Receive, Outcomes, Inv, Counted, SinceGood, Failures;
    StartingInv(w);
    ReceiveKeeps(w, input, 0);
    ErrorsAreFailures(w, input, 0, []);
    assert [] + Outcomes(w, input, 0) == Outcomes(w, input, 0);
    if Receive(w, input, 0).Waiting? {
      InvStates(Receive(w, input, 0).world);
    }
  }
}
