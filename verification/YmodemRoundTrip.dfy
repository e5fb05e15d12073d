/**
 The receiver against a sender: what a sender that follows the protocol puts on the line
 (section 5 of the XMODEM/YMODEM Protocol Reference) is received as the file that was sent.
 */
module YmodemRoundTrip {
  import opened Bits
  import opened Options
  import opened Crc
  import opened Ymodem
  import opened YmodemTheorems

  // ---- The sender ----

  function Encode(p: Packet): seq<U8>
  {
    [p.kind, p.seqNo, p.seqOc] + p.data + [p.crcHi, p.crcLo]
  }

  function EncodeAll(ps: seq<Packet>): seq<U8>
  {
    if ps == [] then [] else Encode(ps[0]) + EncodeAll(ps[1..])
  }

  function DecimalText(n: nat): (s: seq<U8>)
    ensures |s| > 0
  {
    if n < 10 then [0x30 + n] else DecimalText(n / 10) + [0x30 + n % 10]
  }

  function Zeros(n: nat): seq<U8>
  {
    seq(n, _ => 0)
  }

  /** A packet a sender makes: number, complement and CRC are right. */
  predicate Sound(p: Packet)
  {
    DataPacket(p)
  }

  /** The payload of the packet that announces a file: its name, a zero, its size in decimal, a blank, zeros. */
  predicate Announces(data: seq<U8>, name: seq<U8>, size: nat)
  {
    var head := name + [0] + DecimalText(size) + [0x20];
    |data| == 128 && |head| <= 128 && data == head + Zeros(128 - |head|)
  }

  /** Packets that carry a file of `size` bytes: numbered from one, and none after the file is complete. */
  predicate Carries(ps: seq<Packet>, size: nat)
  {
    && |ps| > 0 && (forall i :: 0 <= i < |ps| ==> Sound(ps[i]) && ps[i].seqNo == (i + 1) % 256)
    && |Payloads(ps[..|ps| - 1])| < size <= |Payloads(ps)|
  }

  function Transmission(control: Packet, ps: seq<Packet>, last: Packet): seq<U8>
  {
    Encode(control) + EncodeAll(ps) + [YMODEM_EOT] + Encode(last)
  }

  // ---- Bytes on the line ----

  /** `bytes` arrive at `pos` without a timeout in between. */
  predicate Arrives(input: seq<Event>, pos: nat, bytes: seq<U8>)
  {
    pos + |bytes| <= |input| && forall i :: 0 <= i < |bytes| ==> input[pos + i] == Some(bytes[i])
  }

  lemma ArrivesSplit(input: seq<Event>, pos: nat, a: seq<U8>, b: seq<U8>)
    requires Arrives(input, pos, a + b)
    ensures Arrives(input, pos, a) && Arrives(input, pos + |a|, b)
  {
    forall i | 0 <= i < |a| ensures input[pos + i] == Some(a[i]) {
      assert (a + b)[i] == a[i];
    }
    forall i | 0 <= i < |b| ensures input[pos + |a| + i] == Some(b[i]) {
      assert (a + b)[|a| + i] == b[i];
    }
  }

  lemma {:induction false} TakeArrives(input: seq<Event>, pos: nat, bytes: seq<U8>)
    requires Arrives(input, pos, bytes)
    ensures Take(input, pos, |bytes|) == Bytes(bytes, pos + |bytes|)
    decreases |bytes|
  {
    if bytes != [] {
      assert [bytes[0]] + bytes[1..] == bytes;
      ArrivesSplit(input, pos, [bytes[0]], bytes[1..]);
      TakeArrives(input, pos + 1, bytes[1..]);
      ArrivesFirst(input, pos, bytes);
    }
  }

  lemma ArrivesFirst(input: seq<Event>, pos: nat, bytes: seq<U8>)
    requires Arrives(input, pos, bytes) && |bytes| > 0
    ensures pos < |input| && input[pos] == Some(bytes[0])
  {
    assert input[pos + 0] == Some(bytes[0]);
  }

  /** A packet that arrives whole is received as it was sent. */
  lemma PacketArrives(input: seq<Event>, pos: nat, p: Packet)
    requires Arrives(input, pos, Encode(p)) && p.kind in {YMODEM_SOH, YMODEM_STX} && |p.data| == DataSize(p.kind)
    ensures RecvPacket(input, pos) == Got(p, pos + |Encode(p)|)
  {
    hide Take;
    var size := DataSize(p.kind);
    var body := [p.seqNo, p.seqOc] + p.data + [p.crcHi, p.crcLo];
    assert Encode(p) == [p.kind] + body;
    ArrivesSplit(input, pos, [p.kind], body);
    ArrivesFirst(input, pos, [p.kind]);
    TakeArrives(input, pos + 1, body);
    assert |body| == size + 4;
    assert body[2..2 + size] == p.data;
  }

  // ---- The file size ----

  lemma {:induction false} DecimalRoundTrip(n: nat)
    ensures forall i :: 0 <= i < |DecimalText(n)| ==> 0x30 <= DecimalText(n)[i] <= 0x39
    ensures Decimal(DecimalText(n)) == n
  {
    if n < 10 {
      assert [0x30 + n][..0] == [];
      assert Decimal([]) == 0;
    } else {
      DecimalRoundTrip(n / 10);
      var s, t := DecimalText(n), DecimalText(n / 10);
      assert s[..|s| - 1] == t;
    }
  }

  lemma {:induction false} DecimalLength(n: nat, k: nat)
    requires 0 < k && n < Pow10(k)
    ensures |DecimalText(n)| <= k
  {
    if n >= 10 {
      assert k > 1;
      DecimalLength(n / 10, k - 1);
    }
  }

  lemma {:induction false} AllDigits(s: seq<U8>)
    requires forall i :: 0 <= i < |s| ==> 0x30 <= s[i] <= 0x39
    ensures Digits(s) == |s| && Spaces(s) == 0 && CString(s) == s
  {
    if s != [] {
      AllDigits(s[1..]);
      assert [s[0]] + s[1..] == s;
    }
  }

  lemma ScanDecimal(n: nat)
    requires n < 1_000_000_000
    ensures var s := DecimalText(n);
            && |s| <= SIZE_MAX && CString(s) == s && ScanUnsignedLong(s) == Some(n)
            && forall i :: 0 <= i < |s| ==> s[i] != 0x20
  {
    hide Decimal, DecimalText, CString, ScanUnsignedLong, Pow10;
    var s := DecimalText(n);
    DecimalRoundTrip(n);
    Pow10Nine();
    DecimalLength(n, 9);
    ScanDigits(s);
  }

  lemma ScanDigits(s: seq<U8>)
    requires |s| > 0 && forall i :: 0 <= i < |s| ==> 0x30 <= s[i] <= 0x39
    ensures CString(s) == s && ScanUnsignedLong(s) == Some(Decimal(s) % U64_SIZE)
  {
    hide Decimal, Digits, Spaces, CString;
    AllDigits(s);
    assert s[0..] == s && s[..|s|] == s;
  }

  /** Reading up to a byte that is there gives what is before it. */
  lemma {:induction false} UntilPrefix(s: seq<U8>, stop: U8, rest: seq<U8>, limit: nat)
    requires |s| <= limit && forall i :: 0 <= i < |s| ==> s[i] != stop
    ensures Until(s + [stop] + rest, stop, limit) == s
  {
    var t := s + [stop] + rest;
    if s == [] {
      assert t[0] == stop;
    } else if limit > 0 {
      assert t[1..] == s[1..] + [stop] + rest;
      UntilPrefix(s[1..], stop, rest, limit - 1);
      assert [s[0]] + s[1..] == s;
    }
  }

  lemma {:induction false} CStringPrefix(s: seq<U8>, rest: seq<U8>)
    requires (forall i :: 0 <= i < |s| ==> s[i] != 0) && |rest| > 0 && rest[0] == 0
    ensures CString(s + rest) == s
  {
    if s != [] {
      assert (s + rest)[1..] == s[1..] + rest;
      CStringPrefix(s[1..], rest);
      assert [s[0]] + s[1..] == s;
    } else {
      assert (s + rest)[0] == 0;
    }
  }

  predicate FileName(name: seq<U8>)
  {
    0 < |name| < 64 && forall i :: 0 <= i < |name| ==> name[i] != 0
  }

  lemma AnnouncementParses(data: seq<U8>, name: seq<U8>, size: nat)
    requires FileName(name) && 0 < size < 1_000_000_000 && Announces(data, name, size)
    ensures |data| == 128 && data[0] != 0 && Until(data, 0, NAME_MAX) == name
    ensures ScanUnsignedLong(CString(SizeText(data))) == Some(size)
  {
    hide ScanUnsignedLong, CString, DecimalText, Until, SizeText;
    var digits := DecimalText(size);
    ScanDecimal(size);
    var tail := Zeros(128 - |name + [0] + digits + [0x20]|);
    SplitAnnouncement(data, name, digits, tail);
  }

  lemma SplitAnnouncement(data: seq<U8>, name: seq<U8>, digits: seq<U8>, tail: seq<U8>)
    requires |data| == 128 && data == name + [0] + digits + [0x20] + tail && FileName(name)
    requires |digits| <= SIZE_MAX && forall i :: 0 <= i < |digits| ==> digits[i] != 0x20
    ensures data[0] != 0 && Until(data, 0, NAME_MAX) == name && SizeText(data) == digits
  {
    hide Until;
    var rest := digits + [0x20] + tail;
    assert data == name + [0] + rest;
    UntilPrefix(name, 0, rest, NAME_MAX);
    assert data[|name| + 1..] == rest;
    UntilPrefix(digits, 0x20, tail, SIZE_MAX);
  }

  // ---- The session ----

  /** The announcement of the wanted file is accepted. */
  lemma AnnouncementAccepted(w: World, data: seq<U8>, name: seq<U8>, size: nat)
    requires Starting(w) && FileName(name) && SameName(w.info.name, name) && 0 < size < 1_000_000_000
    requires Announces(data, name, size)
    ensures var (w', status) := ParseControlFrame(w, data);
            && status == StatusOk && Inv(w') && w'.session.state == BUSY && Agreeing(w') && w'.accepted == []
            && w'.session.totalFileSize == size && w'.session.seqNo == 1
  {
    hide ScanUnsignedLong, Until, SizeText, CString, Announces, Inv, Agreeing;
    AnnouncementParses(data, name, size);
    StartingInv(w);
    StartWorld(w, data, name, size);
    ControlKeeps(w, data);
    AnnouncedAgrees(w, data, size);
  }

  lemma StartWorld(w: World, data: seq<U8>, name: seq<U8>, size: nat)
    requires Starting(w) && FileName(name) && SameName(w.info.name, name) && 0 < size < 1_000_000_000
    requires |data| == 128 && data[0] != 0 && Until(data, 0, NAME_MAX) == name
    requires ScanUnsignedLong(CString(SizeText(data))) == Some(size)
    ensures var (w', status) := ParseControlFrame(w, data);
            && status == StatusOk && w'.session.totalFileSize == size && w'.session.curFileSize == 0
            && w'.session.seqNo == 1
            && w'.info.curFileLen == 0 && w'.sink.usedSize == 0
  {
    hide ScanUnsignedLong, Until, SizeText, CString;
    CStringPrefix(name, w.session.fileName[|name|..]);
    assert size % U32_SIZE == size && size / U32_SIZE % U32_SIZE == 0;
  }

  lemma AnnouncedAgrees(w: World, data: seq<U8>, size: nat)
    requires Good(w) && |data| == 128
    requires var w' := ParseControlFrame(w, data).0;
             && w'.accepted == [] && w'.session.totalFileSize == size && w'.session.curFileSize == 0
             && w'.info.curFileLen == 0 && w'.sink.usedSize == 0
    ensures Agreeing(ParseControlFrame(w, data).0)
  {
    hide ParseControlFrame;
  }

  /** A receipt that is handled without ending the file is followed by the rest of the input. */
  lemma ReceiveStep(w: World, input: seq<Event>, pos: nat, r: Receipt)
    requires Good(w) && pos <= |input| && r == RecvPacket(input, pos) && !r.Starved?
    requires !Handle(w, r).0.session.isFileEnd
    ensures Good(Handle(w, r).0) && Receive(w, input, pos) == Receive(Handle(w, r).0, input, r.next)
  {
    hide Handle, RecvPacket;
    HandleGood(w, r);
  }

  lemma HandleData(w: World, p: Packet, next: nat)
    requires Inv(w) && w.session.state == BUSY && Sound(p) && p.seqNo == w.session.seqNo
    requires w.session.curFileSize < w.session.totalFileSize
    ensures Handle(w, Got(p, next)) == (ParseDataFrame(w, p).0, StatusOk)
    ensures var w' := ParseDataFrame(w, p).0;
            && Inv(w') && w'.session.state == BUSY && Agreeing(w') && w'.accepted == w.accepted + [p]
            && w'.session.totalFileSize == w.session.totalFileSize
  {
    DataKeeps(w, p);
    DataTaken(w, p);
    hide ParseDataFrame, Accepts;
  }

  /** The data packets are taken one after another. */
  lemma {:induction false} DataReceived(w: World, input: seq<Event>, pos: nat, ps: seq<Packet>, i: nat)
    returns (w': World)
    requires Carries(ps, w.session.totalFileSize) && i <= |ps|
    requires Inv(w) && w.session.state == BUSY && Agreeing(w) && w.accepted == ps[..i]
    requires Arrives(input, pos, EncodeAll(ps[i..]))
    ensures Inv(w') && w'.session.state == BUSY && Agreeing(w') && w'.accepted == ps
    ensures w'.session.totalFileSize == w.session.totalFileSize
    ensures pos + |EncodeAll(ps[i..])| <= |input|
    ensures Receive(w, input, pos) == Receive(w', input, pos + |EncodeAll(ps[i..])|)
    decreases |ps| - i
  {
    hide Inv, Handle, RecvPacket, Encode, Agreeing, ParseDataFrame, Receive, Carries, Good;
    InvGood(w);
    if i == |ps| {
      assert ps[..i] == ps && ps[i..] == [];
      w' := w;
    } else {
      var p, rest := ps[i], ps[i + 1..];
      assert ps[i..][1..] == rest;
      assert EncodeAll(ps[i..]) == Encode(p) + EncodeAll(rest);
      ArrivesSplit(input, pos, Encode(p), EncodeAll(rest));
      var w1 := OneReceived(w, input, pos, ps, i);
      w' := DataReceived(w1, input, pos + |Encode(p)|, ps, i + 1);
    }
  }

  lemma OneReceived(w: World, input: seq<Event>, pos: nat, ps: seq<Packet>, i: nat) returns (w': World)
    requires Carries(ps, w.session.totalFileSize) && i < |ps|
    requires Inv(w) && w.session.state == BUSY && Agreeing(w) && w.accepted == ps[..i]
    requires Arrives(input, pos, Encode(ps[i]))
    ensures Inv(w') && w'.session.state == BUSY && Agreeing(w') && w'.accepted == ps[..i + 1]
    ensures w'.session.totalFileSize == w.session.totalFileSize && pos + |Encode(ps[i])| <= |input|
    ensures Good(w) && Good(w') && Receive(w, input, pos) == Receive(w', input, pos + |Encode(ps[i])|)
  {
    hide Inv, Handle, RecvPacket, Encode, Agreeing, ParseDataFrame, Receive;
    InvGood(w);
    var p, next := ps[i], pos + |Encode(ps[i])|;
    PacketArrives(input, pos, p);
    RoomLeft(w, ps, i);
    HandleData(w, p, next);
    w' := ParseDataFrame(w, p).0;
    InvOpen(w');
    ReceiveStep(w, input, pos, Got(p, next));
    assert ps[..i] + [p] == ps[..i + 1];
  }

  lemma InvOpen(w: World)
    requires Inv(w)
    ensures Good(w) && !w.session.isFileEnd
  {
  }

  lemma {:induction false} PayloadsGrow(ps: seq<Packet>, i: nat)
    requires i <= |ps|
    ensures |Payloads(ps[..i])| <= |Payloads(ps)|
  {
    if i < |ps| {
      PayloadsGrow(ps[..|ps| - 1], i);
      assert ps[..|ps| - 1][..i] == ps[..i];
    } else {
      assert ps[..i] == ps;
    }
  }

  /** Before the last packet the file is not complete. */
  lemma RoomLeft(w: World, ps: seq<Packet>, i: nat)
    requires Carries(ps, w.session.totalFileSize) && i < |ps|
    requires Inv(w) && w.session.state == BUSY && Agreeing(w) && w.accepted == ps[..i]
    ensures w.session.curFileSize < w.session.totalFileSize && ps[i].seqNo == w.session.seqNo
  {
    hide Payloads;
    var init := ps[..|ps| - 1];
    PayloadsGrow(init, i);
    assert init[..i] == ps[..i];
  }

  /** The end of the file is acknowledged and the session starts over. */
  lemma EndReceived(w: World, input: seq<Event>, pos: nat)
    requires Inv(w) && w.session.state == BUSY && Agreeing(w) && |FileBytes(w)| == w.session.totalFileSize
    requires Arrives(input, pos, [YMODEM_EOT])
    ensures var w' := Send(w, [YMODEM_ACK, YMODEM_C]).(session := FreshSession());
            Inv(w') && Receive(w, input, pos) == Receive(w', input, pos + 1)
  {
    hide FileBytes, Numbered;
    ArrivesFirst(input, pos, [YMODEM_EOT]);
    var r := RecvPacket(input, pos);
    assert r == Got(Packet(YMODEM_EOT, 0, 0, [], 0, 0), pos + 1);
    HandleKeeps(w, r);
    HandleGood(w, r);
    hide Inv, Good;
  }

  /** The empty control frame ends the call with success. */
  lemma LastReceived(w: World, input: seq<Event>, pos: nat, last: Packet)
    requires Inv(w) && w.session.state == IDLE && Arrives(input, pos, Encode(last))
    requires Sound(last) && last.seqNo == 0 && last.data[0] == 0
    ensures var out := Receive(w, input, pos);
            out.Returned? && out.status == StatusOk && out.world.sink == w.sink && out.world.info == w.info
  {
    hide Accepts, Complete, Encode;
    PacketArrives(input, pos, last);
    hide RecvPacket;
  }

  /**
   Round trip: a wanted file of less than 10^9 bytes, sent by any protocol-conforming choice of packets, is received
   with success and is in the sink byte for byte.
   */
  lemma FileRoundTrip(w: World, input: seq<Event>, control: Packet, ps: seq<Packet>, last: Packet, name: seq<U8>,
                      file: seq<U8>)
    requires Starting(w) && FileName(name) && SameName(w.info.name, name) && 0 < |file| < 1_000_000_000
    requires Sound(control) && control.kind == YMODEM_SOH && control.seqNo == 0 && Announces(control.data, name, |file|)
    requires Carries(ps, |file|) && Cut(Payloads(ps), |file|) == file
    requires Sound(last) && last.seqNo == 0 && last.data[0] == 0
    requires Arrives(input, 0, Transmission(control, ps, last))
    ensures var out := Receive(w, input, 0);
            && out.Returned? && out.status == StatusOk
            && out.world.sink.usedSize == |file| <= |out.world.sink.data| && out.world.sink.data[..|file|] == file
  {
    hide Inv, Handle, RecvPacket, Encode, EncodeAll, Agreeing, ParseControlFrame, Carries, Announces, Payloads;
    var a, b, c := Encode(control), EncodeAll(ps), [YMODEM_EOT];
    ArrivesSplit(input, 0, a + b + c, Encode(last));
    ArrivesSplit(input, 0, a + b, c);
    ArrivesSplit(input, 0, a, b);
    StartingInv(w);
    PacketArrives(input, 0, control);
    AnnouncementAccepted(w, control.data, name, |file|);
    var w1 := ControlReceived(w, input, control);
    assert ps[0..] == ps;
    var w2 := DataReceived(w1, input, |a|, ps, 0);
    FileInSink(w2, file);
    EndReceived(w2, input, |a| + |b|);
    var w3 := Send(w2, [YMODEM_ACK, YMODEM_C]).(session := FreshSession());
    LastReceived(w3, input, |a| + |b| + 1, last);
  }

  lemma ControlReceived(w: World, input: seq<Event>, control: Packet) returns (w': World)
    requires Starting(w) && Sound(control) && control.kind == YMODEM_SOH && control.seqNo == 0
    requires Arrives(input, 0, Encode(control)) && RecvPacket(input, 0) == Got(control, |Encode(control)|)
    requires ParseControlFrame(w, control.data).1 == StatusOk && Inv(ParseControlFrame(w, control.data).0)
    ensures w' == ParseControlFrame(w, control.data).0 && Good(w')
    ensures |Encode(control)| <= |input| && Receive(w, input, 0) == Receive(w', input, |Encode(control)|)
  {
    hide RecvPacket, Accepts, ParseControlFrame, Encode;
    w' := ParseControlFrame(w, control.data).0;
    InvOpen(w');
    var r := Got(control, |Encode(control)|);
    assert Handle(w, r) == (w', StatusOk);
    ReceiveStep(w, input, 0, r);
  }

  lemma FileInSink(w: World, file: seq<U8>)
    requires Agreeing(w) && w.session.totalFileSize == |file| && Cut(Payloads(w.accepted), |file|) == file
    ensures |FileBytes(w)| == w.session.totalFileSize
    ensures w.sink.usedSize == |file| <= |w.sink.data| && w.sink.data[..|file|] == file
  {
    hide Payloads;
  }

  // ---- A size with a minus sign ----

  const NEGATIVE: seq<U8> := [0x61, 0, 0x2D, 0x31, 0x20] + seq(123, _ => 0)

  lemma NegativeParses()
    ensures |NEGATIVE| == 128 && NEGATIVE[0] != 0 && Until(NEGATIVE, 0, NAME_MAX) == [0x61]
    ensures SizeText(NEGATIVE) == [0x2D, 0x31] && CString(SizeText(NEGATIVE)) == [0x2D, 0x31]
    ensures ScanUnsignedLong([0x2D, 0x31]) == Some(U64_SIZE - 1) && Negative([0x2D, 0x31])
  {
    hide Until, CString;
    var zeros: seq<U8> := seq(123, _ => 0);
    UntilPrefix([0x61], 0, [0x2D, 0x31, 0x20] + zeros, NAME_MAX);
    assert NEGATIVE == [0x61] + [0] + ([0x2D, 0x31, 0x20] + zeros);
    UntilPrefix([0x2D, 0x31], 0x20, zeros, SIZE_MAX);
    assert NEGATIVE[2..] == [0x2D, 0x31] + [0x20] + zeros;
    NoNul([0x2D, 0x31]);
    var t: seq<U8> := [0x2D, 0x31];
    assert Spaces(t) == 0 && t[0..] == t && t[1..] == [0x31];
    assert Digits([0x31]) == 1 by { assert Digits([]) == 0; }
    assert [0x31][..1] == [0x31] && Decimal([0x31]) == 1 by { assert [0x31][..0] == [] && Decimal([]) == 0; }
  }

  lemma {:induction false} NoNul(s: seq<U8>)
    requires forall i :: 0 <= i < |s| ==> s[i] != 0
    ensures CString(s) == s
  {
    if s != [] {
      NoNul(s[1..]);
      assert [s[0]] + s[1..] == s;
    }
  }

  /**
   The size -1 for the wanted file is accepted. The 64-bit store fills the declared size and the count behind it, and
   the session counts 2^32 - 1 bytes of which the sink holds none.
   */
  lemma NegativeSizeAccepted(w: World)
    requires Starting(w) && w.info.name == [0x61]
    ensures var (w', status) := ParseControlFrame(w, NEGATIVE);
            && status == StatusOk && w'.session.totalFileSize == w'.session.curFileSize == U32_SIZE - 1
            && w'.info.curFileLen == w'.sink.usedSize == 0 && !Agreeing(w')
  {
    hide ScanUnsignedLong, Until, CString, SizeText, Negative;
    NegativeParses();
    var name := [0x61] + w.session.fileName[1..];
    assert CString(name) == [0x61] by {
      CStringPrefix([0x61], w.session.fileName[1..]);
    }
    SizeMinusOne();
  }

  lemma SizeMinusOne()
    ensures (U64_SIZE - 1) % U32_SIZE == (U64_SIZE - 1) / U32_SIZE % U32_SIZE == U32_SIZE - 1
  {
  }
}
