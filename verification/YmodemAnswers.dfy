/** Receipt by receipt: what the bytes on the line are taken for, and what the receiver sends back. */
module YmodemAnswers {
  import opened Bits
  import opened Options
  import opened Crc
  import opened Ymodem
  import opened YmodemTheorems

  // ---- What the line brings ----

  /** The receipts that are not packets with data, by the bytes that stand for them. */
  lemma LineReceipts(input: seq<Event>, pos: nat)
    requires pos < |input|
    ensures input[pos] == None ==> RecvPacket(input, pos) == Failed(StatusTimeout, pos + 1)
    ensures input[pos] == Some(0x04) ==>
              RecvPacket(input, pos).Got? && RecvPacket(input, pos).packet.kind == 0x04
                && RecvPacket(input, pos).next == pos + 1
    ensures input[pos] == Some(0x41) || input[pos] == Some(0x61) ==>
              RecvPacket(input, pos) == Failed(StatusAbortByUser, pos + 1)
    ensures input[pos] == Some(0x18) && pos + 1 < |input| ==>
              RecvPacket(input, pos) == Failed(if input[pos + 1] == None then StatusTimeout
                                               else if input[pos + 1] == Some(0x18) then StatusAbortBySender
                                               else StatusUnknownCmd, pos + 2)
    ensures input[pos].Some? && input[pos].value !in {0x01, 0x02, 0x04, 0x18, 0x41, 0x61} ==>
              RecvPacket(input, pos) == Failed(StatusUnknownCmd, pos + 1)
  {
  }

  /** A packet with data: its kind, its number and complement, the data, and the CRC with the high byte first. */
  lemma PacketOnLine(input: seq<Event>, pos: nat)
    requires pos < |input| && input[pos].Some? && input[pos].value in {0x01, 0x02} && RecvPacket(input, pos).Got?
    ensures var p, size := RecvPacket(input, pos).packet, if input[pos] == Some(0x01) then 128 else 1024;
            && RecvPacket(input, pos).next == pos + size + 5 <= |input| && |p.data| == size
            && Some(p.kind) == input[pos] && Some(p.seqNo) == input[pos + 1] && Some(p.seqOc) == input[pos + 2]
            && (forall i :: 0 <= i < size ==> Some(p.data[i]) == input[pos + 3 + i])
            && Some(p.crcHi) == input[pos + 3 + size] && Some(p.crcLo) == input[pos + 4 + size]
  {
    var size := DataSize(input[pos].value);
    var t := Take(input, pos + 1, size + 4);
    assert forall i :: 0 <= i < size + 4 ==> input[pos + 1 + i] == Some(t.bytes[i]);
  }

  /** Such a packet fails only by a timeout in one of its bytes. */
  lemma PacketTimesOut(input: seq<Event>, pos: nat)
    requires pos < |input| && input[pos].Some? && input[pos].value in {0x01, 0x02} && RecvPacket(input, pos).Failed?
    ensures var r := RecvPacket(input, pos);
            r.status == StatusTimeout && pos + 1 < r.next <= |input| && input[r.next - 1] == None
  {
  }

  // ---- What a packet is taken for ----

  /** The checks in their order, and what passes them all. */
  lemma PacketVerdict(w: World, p: Packet)
    requires Good(w) && p.kind in {YMODEM_SOH, YMODEM_STX} && |p.data| == DataSize(p.kind)
    ensures var status := ParsePacket(w, p).1;
            && (p.seqNo + p.seqOc != 0xFF ==> status == StatusSeqInvalid)
            && (p.seqNo + p.seqOc == 0xFF && !Accepts(p.data, p.crcHi, p.crcLo) ==> status == StatusCrcInvalid)
            && (p.seqNo + p.seqOc == 0xFF && Accepts(p.data, p.crcHi, p.crcLo) && p.seqNo != w.session.seqNo ==>
                  status == StatusSeqMismatch)
            && (!DataPacket(p) || p.seqNo != w.session.seqNo ==> ParsePacket(w, p).0 == w)
    ensures DataPacket(p) && p.seqNo == w.session.seqNo && w.session.state == IDLE && w.session.seqNo == 0 ==>
              ParsePacket(w, p) == ParseControlFrame(w, p.data)
    ensures DataPacket(p) && p.seqNo == w.session.seqNo && !(w.session.state == IDLE && w.session.seqNo == 0) ==>
              ParsePacket(w, p) == ParseDataFrame(w, p)
  {
    hide ParseControlFrame, ParseDataFrame, Accepts;
    if DataPacket(p) && p.seqNo == w.session.seqNo {
      NoOther(w, p);
    }
  }

  lemma NoOther(w: World, p: Packet)
    requires Good(w) && DataPacket(p) && p.seqNo == w.session.seqNo
    ensures ParsePacket(w, p)
            == if w.session.state == IDLE && w.session.seqNo == 0 then ParseControlFrame(w, p.data)
              else ParseDataFrame(w, p)
  {
    hide ParseControlFrame, ParseDataFrame, Accepts;
  }

  // ---- The answers ----

  /** A receipt as RecvPacket yields them. */
  predicate Real(r: Receipt)
  {
    && !r.Starved? && (r.Failed? ==> r.status != StatusOk)
    && (r.Got? ==> r.packet.kind in {YMODEM_SOH, YMODEM_STX, YMODEM_EOT})
    && (r.Got? && r.packet.kind != YMODEM_EOT ==> |r.packet.data| == DataSize(r.packet.kind))
  }

  /**
   What goes out after a receipt, in bytes. A packet out of order is refused with NAK. An abort by the sender is
   acknowledged; an abort by the user or by a callback goes out as CAN CAN; all three end the call. Any other failure
   asks again with C, or ends with CAN CAN at the sixth in a file.
   */
  lemma FailureAnswers(w: World, r: Receipt)
    requires Good(w) && Real(r) && Handle(w, r).1 != StatusOk
    ensures var (w', status) := Handle(w, r);
            var ended := w'.session.isFileEnd && w'.session.state == DONE;
            && (status == StatusSeqMismatch ==> w'.sent == w.sent + [0x15] && w'.session == w.session)
            && (status == StatusAbortBySender ==> w'.sent == w.sent + [0x06] && ended)
            && (status == StatusAbortByUser || status == StatusCallbackErr
              ==> w'.sent == w.sent + [0x18, 0x18] && ended)
            && (Counted(status) && (w.session.errCnt + (if w.session.state == BUSY then 1 else 0) > 5) ==>
                  w'.sent == w.sent + [0x18, 0x18] && ended)
            && (Counted(status) && (w.session.errCnt + (if w.session.state == BUSY then 1 else 0) <= 5) ==>
                  w'.sent == w.sent + [0x43] && w'.session.state == w.session.state
                    && w'.session.isFileEnd == w.session.isFileEnd)
  {
    hide Accepts, ScanUnsignedLong, CString, SameName, SizeText, Store;
  }

  /**
   The end of a file and an announced file are answered with ACK and C, a data packet and the last control frame with
   ACK.
   */
  lemma SuccessAnswers(w: World, r: Receipt)
    requires Good(w) && Real(r) && Handle(w, r).1 == StatusOk
    ensures r.Got?
    ensures var w' := Handle(w, r).0;
            var control := w.session.state == IDLE && w.session.seqNo == 0;
            && (r.packet.kind == YMODEM_EOT ==> w'.sent == w.sent + [0x06, 0x43])
            && (r.packet.kind != YMODEM_EOT && control && r.packet.data[0] != 0 ==> w'.sent == w.sent + [0x06, 0x43])
            && (r.packet.kind != YMODEM_EOT && control && r.packet.data[0] == 0 ==> w'.sent == w.sent + [0x06])
            && (r.packet.kind != YMODEM_EOT && !control ==> w'.sent == w.sent + [0x06])
  {
    hide Accepts, ScanUnsignedLong, CString, SameName, SizeText, Store;
  }

  // ---- Reading the size ----

  predicate Space(b: U8)
  {
    b == 0x20 || 0x09 <= b <= 0x0D
  }

  predicate Digit(b: U8)
  {
    0x30 <= b <= 0x39
  }

  predicate AllDigits(s: seq<U8>)
  {
    forall i :: 0 <= i < |s| ==> 0x30 <= s[i] <= 0x39
  }

  lemma {:induction false} SpacesAre(ws: seq<U8>, t: seq<U8>)
    requires (forall i :: 0 <= i < |ws| ==> Space(ws[i])) && (t == [] || !Space(t[0]))
    ensures Spaces(ws + t) == |ws|
  {
    if ws != [] {
      assert (ws + t)[1..] == ws[1..] + t;
      SpacesAre(ws[1..], t);
    } else {
      assert ws + t == t;
    }
  }

  lemma {:induction false} DigitsAre(digits: seq<U8>, rest: seq<U8>)
    requires AllDigits(digits) && (rest == [] || !Digit(rest[0]))
    ensures Digits(digits + rest) == |digits|
  {
    if digits != [] {
      assert (digits + rest)[1..] == digits[1..] + rest;
      DigitsAre(digits[1..], rest);
    } else {
      assert digits + rest == rest;
    }
  }

  function Negated(v: nat): nat
    requires v < U64_SIZE
  {
    if v == 0 then 0 else U64_SIZE - v
  }

  /** The number that decimal digits and a sign stand for in 64 bits. */
  function Number(minus: bool, digits: seq<U8>): nat
    requires AllDigits(digits)
  {
    if minus then Negated(Decimal(digits) % U64_SIZE) else Decimal(digits) % U64_SIZE
  }

  lemma DigitsScan(digits: seq<U8>, rest: seq<U8>)
    requires AllDigits(digits) && (rest == [] || !Digit(rest[0]))
    ensures Digits(digits + rest) == |digits| && (digits + rest)[..|digits|] == digits
  {
    DigitsAre(digits, rest);
  }

  /**
   The conversion `%lu`: white space, a sign or none, digits in decimal, and whatever follows; without digits there is
   no number, and a minus sign negates in 64 bits.
   */
  lemma {:induction false} ScanReads(ws: seq<U8>, sign: seq<U8>, digits: seq<U8>, rest: seq<U8>)
    requires (forall i :: 0 <= i < |ws| ==> Space(ws[i])) && (sign == [] || sign == [0x2B] || sign == [0x2D])
    requires AllDigits(digits) && (rest == [] || !Digit(rest[0]))
    requires digits == [] && sign == [] ==> rest == [] || (!Space(rest[0]) && rest[0] != 0x2B && rest[0] != 0x2D)
    ensures ScanUnsignedLong(ws + (sign + (digits + rest)))
            == if digits == [] then None else Some(Number(sign == [0x2D], digits))
  {
    hide Spaces, Digits, Decimal, ScanUnsignedLong, Number;
    var u := digits + rest;
    var t := sign + u;
    DigitsScan(digits, rest);
    SignFirst(sign, digits, rest);
    SpacesAre(ws, t);
    assert (ws + t)[|ws|..] == t;
    ScanParts(ws + t, t, sign != [], u, digits);
  }

  lemma SignFirst(sign: seq<U8>, digits: seq<U8>, rest: seq<U8>)
    requires sign == [] || sign == [0x2B] || sign == [0x2D]
    requires AllDigits(digits)
    requires digits == [] && sign == [] ==> rest == [] || (!Space(rest[0]) && rest[0] != 0x2B && rest[0] != 0x2D)
    ensures var t := sign + (digits + rest);
            && (t == [] || !Space(t[0]))
            && (sign != [] <==> t != [] && (t[0] == 0x2B || t[0] == 0x2D))
            && (sign == [0x2D] <==> t != [] && t[0] == 0x2D)
            && (if sign != [] then t[1..] else t) == digits + rest
  {
    var u := digits + rest;
    if sign == [] {
      assert sign + u == u;
      assert digits != [] ==> u[0] == digits[0];
      assert digits == [] ==> u == rest;
    } else {
      assert (sign + u)[1..] == u;
    }
  }

  /** The conversion, part by part. */
  lemma {:induction false} ScanParts(s: seq<U8>, t: seq<U8>, signed: bool, u: seq<U8>, digits: seq<U8>)
    requires t == s[Spaces(s)..] && (signed <==> t != [] && (t[0] == 0x2B || t[0] == 0x2D))
    requires u == (if signed then t[1..] else t) && AllDigits(digits)
    requires Digits(u) == |digits| <= |u| && u[..|digits|] == digits
    ensures ScanUnsignedLong(s) == if digits == [] then None else Some(Number(t != [] && t[0] == 0x2D, digits))
  {
    hide Spaces, Digits, Decimal;
    NegatedIs(Decimal(digits) % U64_SIZE);
  }

  lemma NegatedIs(v: nat)
    requires v < U64_SIZE
    ensures (U64_SIZE - v) % U64_SIZE == Negated(v)
  {
  }
}
