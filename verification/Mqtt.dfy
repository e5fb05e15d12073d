/** The MQTT framing of testsuites/iot-ota-test/host_iot_ota_server.py over a stream that recv may cut anywhere. */
module Mqtt {
  import opened Bits
  import opened Options

  datatype Packet = Packet(kind: nat, payload: seq<U8>)
  datatype Parsed<+T> = Parsed(value: T, rest: seq<U8>)

  // ---- The remaining length, section 2.2.3 of MQTT 3.1.1 ----

  function EncodeRemaining(n: nat): seq<U8>
  {
    if n < 128 then [n] else [n % 128 + 128] + EncodeRemaining(n / 128)
  }

  /** The length at the front of `s`, unless the stream ends inside it. */
  function DecodeRemaining(s: seq<U8>): Option<Parsed<nat>>
  {
    if s == [] then None
    else
      var digit: nat := s[0];
      if digit < 128 then Some(Parsed(digit, s[1..]))
      else
        match DecodeRemaining(s[1..])
        case None => None
        case Some(p) => Some(Parsed(digit - 128 + 128 * p.value, p.rest))
  }

  method MqttEncodeRemaining(length: nat) returns (out: seq<U8>)
    ensures out == EncodeRemaining(length)
  {
    hide Bitwise;
    out := [];
    var left, again := length, true;
    while again
      invariant out + (if again then EncodeRemaining(left) else []) == EncodeRemaining(length)
      decreases if again then left + 1 else 0
    {
      Associate(out, [left % 128 + 128], EncodeRemaining(left / 128));
      var digit := left % 128;
      left := left / 128;
      if left != 0 {
        SetTopBit(digit);
        digit := Or(digit, 0x80);
      }
      out := out + [digit];
      again := left != 0;
    }
  }

  lemma Associate(a: seq<U8>, b: seq<U8>, c: seq<U8>)
    ensures (a + b) + c == a + (b + c)
  {
  }

  lemma SetTopBit(digit: nat)
    requires digit < 128
    ensures Or(digit, 0x80) == digit + 128
  {
    hide Bitwise;
    assert Pow2(7) == 128;
    OrAdd(1, digit, 7, 128);
  }

  /** Every length reads back, whatever follows it. */
  lemma {:induction false} RemainingRoundTrip(n: nat, rest: seq<U8>)
    ensures DecodeRemaining(EncodeRemaining(n) + rest) == Some(Parsed(n, rest))
  {
    if n < 128 {
      assert ([n] + rest)[1..] == rest;
    } else {
      RemainingRoundTrip(n / 128, rest);
      var tail := EncodeRemaining(n / 128) + rest;
      assert EncodeRemaining(n) + rest == [n % 128 + 128] + tail;
      assert ([n % 128 + 128] + tail)[1..] == tail;
    }
  }

  /** The encoding is the shortest: its last byte is a digit that is not zero, unless it is the only one. */
  lemma {:induction false} RemainingShortest(n: nat)
    ensures var e := EncodeRemaining(n);
            && |e| > 0 && e[|e| - 1] < 128 && (|e| > 1 ==> e[|e| - 1] != 0)
            && forall i :: 0 <= i < |e| - 1 ==> e[i] >= 128
  {
    if n >= 128 {
      RemainingShortest(n / 128);
    }
  }

  /** No encoding is the beginning of another: a stream determines the length and what follows it. */
  lemma RemainingPrefixFree(m: nat, a: seq<U8>, n: nat, b: seq<U8>)
    requires EncodeRemaining(m) + a == EncodeRemaining(n) + b
    ensures m == n && a == b
  {
    RemainingRoundTrip(m, a);
    RemainingRoundTrip(n, b);
  }

  // ---- Packets ----

  /** The bytes mqtt_send_packet sends; it raises ValueError when the first does not fit a byte. */
  function SendPacket(kind: nat, flags: nat, payload: seq<U8>): Option<seq<U8>>
  {
    if Or(16 * kind, flags) > 255 then None
    else Some([Or(16 * kind, flags)] + EncodeRemaining(|payload|) + payload)
  }

  function ReadPacket(s: seq<U8>): Option<Parsed<Packet>>
  {
    if s == [] then None
    else
      var first: nat := s[0];
      match DecodeRemaining(s[1..])
      case None => None
      case Some(p) =>
        if |p.rest| < p.value then None
        else Some(Parsed(Packet(first / 16, p.rest[..p.value]), p.rest[p.value..]))
  }

  lemma FirstByte(kind: nat, flags: nat)
    ensures Or(16 * kind, flags) / 16 == Or(kind, flags / 16)
    ensures flags < 16 ==> Or(16 * kind, flags) == 16 * kind + flags && Or(kind, flags / 16) == kind
  {
    hide Bitwise;
    assert Pow2(4) == 16;
    BitwiseSplitAt(OrOp, kind, 0, flags / 16, flags % 16, 4, 16);
    BitwiseZero(OrOp, flags % 16);
    BitwiseZero(OrOp, kind);
  }

  /** A packet reads back with its payload; its type comes back exactly when the flags stay out of the type's bits. */
  lemma {:induction false} PacketRoundTrip(kind: nat, flags: nat, payload: seq<U8>, rest: seq<U8>)
    requires SendPacket(kind, flags, payload).Some?
    ensures ReadPacket(SendPacket(kind, flags, payload).value + rest)
            == Some(Parsed(Packet(Or(kind, flags / 16), payload), rest))
    ensures ReadPacket(SendPacket(kind, flags, payload).value + rest) == Some(Parsed(Packet(kind, payload), rest))
            <==> Or(kind, flags / 16) == kind
  {
    hide Bitwise, DecodeRemaining, EncodeRemaining;
    FirstByte(kind, flags);
    var first := Or(16 * kind, flags);
    var body := EncodeRemaining(|payload|) + (payload + rest);
    RemainingRoundTrip(|payload|, payload + rest);
    assert SendPacket(kind, flags, payload).value + rest == [first] + body;
    assert ([first] + body)[1..] == body;
    assert (payload + rest)[..|payload|] == payload && (payload + rest)[|payload|..] == rest;
  }

  lemma OneOrTwo()
    ensures Or(1, 2) == 3 && Or(16, 0x20) == 0x30
  {
    hide Bitwise;
    assert Pow2(1) == 2 && Pow2(5) == 0x20;
    OrAdd(1, 1, 1, 2);
    OrAdd(1, 16, 5, 0x20);
    BitwiseCommutes(OrOp, 16, 0x20);
  }

  /** Flags of 0x20 turn type 1 into type 3. */
  lemma FlagsChangeType(payload: seq<U8>)
    ensures SendPacket(1, 0x20, payload).Some?
    ensures ReadPacket(SendPacket(1, 0x20, payload).value) == Some(Parsed(Packet(3, payload), []))
  {
    hide Bitwise, ReadPacket;
    OneOrTwo();
    FirstByte(1, 0x20);
    PacketRoundTrip(1, 0x20, payload, []);
    assert SendPacket(1, 0x20, payload).value + [] == SendPacket(1, 0x20, payload).value;
  }

  /** A packet as its sender gives it. */
  datatype Sent = Sent(kind: nat, flags: nat, payload: seq<U8>)

  ghost predicate Nibbles(sent: seq<Sent>)
  {
    forall i :: 0 <= i < |sent| ==> sent[i].kind < 16 && sent[i].flags < 16
  }

  ghost function Wire(sent: seq<Sent>): seq<U8>
    requires Nibbles(sent)
  {
    if sent == [] then [] else
      FirstByte(sent[0].kind, sent[0].flags);
      SendPacket(sent[0].kind, sent[0].flags, sent[0].payload).value + Wire(sent[1..])
  }

  function Packets(sent: seq<Sent>): seq<Packet>
  {
    seq(|sent|, i requires 0 <= i < |sent| => Packet(sent[i].kind, sent[i].payload))
  }

  /** The receiving end of a connection: the bytes still to come, and the sizes in which recv will hand them out. */
  class Connection {
    var incoming: seq<U8>
    var cuts: seq<nat>

    constructor (stream: seq<U8>, sizes: seq<nat>)
      ensures incoming == stream && cuts == sizes
    {
      incoming, cuts := stream, sizes;
    }

    /** At least one and at most `size` of the bytes to come, or nothing once the peer has closed. */
    method Recv(size: nat) returns (chunk: seq<U8>)
      requires size > 0
      modifies this
      ensures |chunk| <= size && old(incoming) == chunk + incoming
      ensures chunk == [] <==> old(incoming) == []
    {
      var n := if cuts == [] || cuts[0] == 0 then 1 else cuts[0];
      n := if n > size then size else n;
      n := if n > |incoming| then |incoming| else n;
      chunk, incoming := incoming[..n], incoming[n..];
      cuts := if cuts == [] then [] else cuts[1..];
    }

    /** None is the ConnectionError. */
    method ReadFull(size: nat) returns (r: Option<seq<U8>>)
      modifies this
      ensures |old(incoming)| >= size ==> r == Some(old(incoming)[..size]) && incoming == old(incoming)[size..]
      ensures |old(incoming)| < size ==> r == None && incoming == []
    {
      var data: seq<U8> := [];
      while |data| < size
        invariant |data| <= size && old(incoming) == data + incoming
        decreases size - |data|
      {
        var chunk := Recv(size - |data|);
        if chunk == [] {
          return None;
        }
        data := data + chunk;
      }
      r := Some(data);
    }

    /** The digits of the remaining length. */
    method ReadRemaining() returns (r: Option<nat>)
      modifies this
      ensures DecodeRemaining(old(incoming)) == None <==> r == None
      ensures r.Some? ==> DecodeRemaining(old(incoming)) == Some(Parsed(r.value, incoming))
    {
      hide DecodeRemaining, Finish;
      var multiplier: nat, remaining: nat := 1, 0;
      FinishStart(DecodeRemaining(incoming));
      while true
        invariant DecodeRemaining(old(incoming)) == Finish(remaining, multiplier, DecodeRemaining(incoming))
        decreases |incoming|
      {
        DigitStep(remaining, multiplier, incoming);
        var one := ReadFull(1);
        if one == None {
          return None;
        }
        var digit: nat := one.value[0];
        remaining := remaining + digit % 128 * multiplier;
        if digit < 128 {
          return Some(remaining);
        }
        multiplier := multiplier * 128;
      }
    }

    method MqttReadPacket() returns (r: Option<Packet>)
      modifies this
      ensures r == None <==> ReadPacket(old(incoming)) == None
      ensures r.Some? ==> ReadPacket(old(incoming)) == Some(Parsed(r.value, incoming))
    {
      var first := ReadFull(1);
      if first == None {
        return None;
      }
      var remaining := ReadRemaining();
      if remaining == None {
        return None;
      }
      var payload: Option<seq<U8>> := Some([]);
      if remaining.value != 0 {
        payload := ReadFull(remaining.value);
      }
      if payload == None {
        return None;
      }
      var kind: nat := first.value[0];
      r := Some(Packet(kind / 16, payload.value));
    }

    /** However recv cuts the stream, reading as many packets as were sent gives exactly those packets. */
    method ReadPackets(count: nat, ghost sent: seq<Sent>, ghost tail: seq<U8>) returns (packets: seq<Packet>)
      requires |sent| == count && Nibbles(sent) && incoming == Wire(sent) + tail
      modifies this
      ensures packets == Packets(sent) && incoming == tail
    {
      packets := [];
      for i := 0 to count
        invariant incoming == Wire(sent[i..]) + tail && packets == Packets(sent[..i])
      {
        WireFront(sent[i..], tail);
        var p := MqttReadPacket();
        packets := packets + [p.value];
        assert sent[i..][1..] == sent[i + 1..];
      }
      assert sent[..count] == sent && sent[count..] == [];
    }
  }

  /** The length once the digits still to come add `multiplier` times what they stand for. */
  ghost function Finish(remaining: nat, multiplier: nat, p: Option<Parsed<nat>>): Option<Parsed<nat>>
  {
    match p
    case None => None
    case Some(p) => Some(Parsed(remaining + multiplier * p.value, p.rest))
  }

  lemma FinishStart(p: Option<Parsed<nat>>)
    ensures Finish(0, 1, p) == p
  {
  }

  lemma {:induction false} DigitStep(remaining: nat, multiplier: nat, s: seq<U8>)
    ensures s == [] ==> Finish(remaining, multiplier, DecodeRemaining(s)) == None
    ensures s != [] ==>
              var digit: nat := s[0];
              var sum := remaining + digit % 128 * multiplier;
              Finish(remaining, multiplier, DecodeRemaining(s))
              == if digit < 128 then Some(Parsed(sum, s[1..]))
                 else Finish(sum, multiplier * 128, DecodeRemaining(s[1..]))
  {
    if s != [] {
      var digit: nat := s[0];
      if digit < 128 {
        NextDigit(multiplier, digit, 0);
      } else if DecodeRemaining(s[1..]).Some? {
        NextDigit(multiplier, digit - 128, DecodeRemaining(s[1..]).value.value);
      }
    }
  }

  lemma NextDigit(multiplier: nat, digit: nat, value: nat)
    ensures multiplier * (digit + 128 * value) == digit * multiplier + multiplier * 128 * value
  {
  }

  lemma {:induction false} WireFront(sent: seq<Sent>, tail: seq<U8>)
    requires sent != [] && Nibbles(sent)
    ensures ReadPacket(Wire(sent) + tail) == Some(Parsed(Packet(sent[0].kind, sent[0].payload), Wire(sent[1..]) + tail))
  {
    hide Bitwise, ReadPacket;
    var s := sent[0];
    FirstByte(s.kind, s.flags);
    PacketRoundTrip(s.kind, s.flags, s.payload, Wire(sent[1..]) + tail);
    Associate(SendPacket(s.kind, s.flags, s.payload).value, Wire(sent[1..]), tail);
  }
}
