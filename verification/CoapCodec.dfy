/** The option format of section 3.1 of RFC 7252, written as an encoder, and the parser against it. */
module CoapCodec {
  import opened Bits
  import opened Options
  import opened Coap

  // ---- The encoder ----

  const LARGEST: nat := 65804

  /** The four bits that stand for a delta or a length. */
  function Nibble(v: nat): nat
  {
    if v < 13 then v else if v < 269 then 13 else 14
  }

  /** The extension bytes: none, one byte less 13, or two bytes less 269, high byte first. */
  function Extension(v: nat): seq<U8>
    requires v <= LARGEST
  {
    if v < 13 then [] else if v < 269 then [v - 13] else [(v - 269) / 256, (v - 269) % 256]
  }

  function EncodeOption(delta: nat, value: seq<U8>): seq<U8>
    requires delta <= LARGEST && |value| <= LARGEST
  {
    [16 * Nibble(delta) + Nibble(|value|)] + (Extension(delta) + (Extension(|value|) + value))
  }

  /** Numbers do not decrease, and deltas and lengths have a form. */
  predicate Encodes(options: seq<Opt>, number: nat)
  {
    options == [] ||
    (&& number <= options[0].number <= number + LARGEST && |options[0].value| <= LARGEST
     && Encodes(options[1..], options[0].number))
  }

  function EncodeOptions(options: seq<Opt>, number: nat): seq<U8>
    requires Encodes(options, number)
  {
    if options == [] then []
    else EncodeOption(options[0].number - number, options[0].value) + EncodeOptions(options[1..], options[0].number)
  }

  /** Version and type in the high bits of the first byte, the token's length in the low ones. */
  function Datagram(first: nat, code: U8, mid: U16, token: seq<U8>, options: seq<Opt>, rest: seq<U8>): seq<U8>
    requires first < 16 && |token| < 16 && Encodes(options, 0)
  {
    [16 * first + |token|, code, mid / 256, mid % 256] + (token + (EncodeOptions(options, 0) + rest))
  }

  /** Nothing follows the options, or the payload marker does. */
  predicate Ends(rest: seq<U8>)
  {
    rest == [] || rest[0] == 0xFF
  }

  // ---- The parser reads it back ----

  lemma ExtensionReads(v: nat, more: seq<U8>)
    requires v <= LARGEST
    ensures Extended(Nibble(v), Extension(v) + more) == Some(Field(v, |Extension(v)|))
    ensures (Extension(v) + more)[|Extension(v)|..] == more
  {
  }

  lemma HeadReads(delta: nat, value: seq<U8>, rest: seq<U8>)
    requires delta <= LARGEST && |value| <= LARGEST
    ensures var t, head := EncodeOption(delta, value) + rest, 1 + |Extension(delta)| + |Extension(|value|)|;
            && t[0] != 0xFF && ParseHead(t) == Some(Head(delta, head, |value|))
            && t[head..head + |value|] == value && t[head + |value|..] == rest
  {
    hide Extension, Extended;
    var d, l := Extension(delta), Extension(|value|);
    var t := EncodeOption(delta, value) + rest;
    var b: nat := t[0];
    assert b == 16 * Nibble(delta) + Nibble(|value|) && b / 16 == Nibble(delta) && b % 16 == Nibble(|value|);
    var tail := l + (value + rest);
    assert t[1..] == d + tail;
    ExtensionReads(delta, tail);
    assert t[1 + |d|..] == t[1..][|d|..] == tail;
    ExtensionReads(|value|, value + rest);
    assert t[1 + |d| + |l|..] == tail[|l|..] == value + rest;
    assert |t| == 1 + |d| + |l| + |value| + |rest|;
  }

  lemma {:induction false} OptionReads(delta: nat, value: seq<U8>, rest: seq<U8>, number: nat)
    requires delta <= LARGEST && |value| <= LARGEST
    ensures ParseOptions(EncodeOption(delta, value) + rest, number)
            == Cons(Opt(number + delta, value), ParseOptions(rest, number + delta))
  {
    hide ParseHead, EncodeOption, Extension;
    HeadReads(delta, value, rest);
  }

  lemma {:induction false} OptionsRead(options: seq<Opt>, number: nat, rest: seq<U8>)
    requires Encodes(options, number) && Ends(rest)
    ensures ParseOptions(EncodeOptions(options, number) + rest, number) == Some(options)
    decreases |options|
  {
    hide ParseOptions, EncodeOption;
    if options == [] {
      assert EncodeOptions(options, number) + rest == rest;
      EndOfOptions(rest, 0, number);
      assert rest[0..] == rest;
    } else {
      var o, more := options[0], options[1..];
      var tail := EncodeOptions(more, o.number) + rest;
      OptionsRead(more, o.number, rest);
      OptionReads(o.number - number, o.value, tail, number);
      assert EncodeOptions(options, number) + rest == EncodeOption(o.number - number, o.value) + tail;
      assert [o] + more == options;
    }
  }

  /** Every list of options that the format can express reads back, behind any token and before any payload. */
  lemma DatagramReads(first: nat, code: U8, mid: U16, token: seq<U8>, options: seq<Opt>, rest: seq<U8>)
    requires first < 16 && |token| < 16 && Encodes(options, 0) && Ends(rest)
    ensures Parse(Datagram(first, code, mid, token, options, rest)) == Some(options)
  {
    hide ParseOptions, EncodeOptions;
    var data := Datagram(first, code, mid, token, options, rest);
    var b: nat := data[0];
    assert b % 16 == |token|;
    assert data[4 + |token|..] == EncodeOptions(options, 0) + rest;
    OptionsRead(options, 0, rest);
  }

  // ---- Where it fails ----

  /** The number of extension bytes a nibble calls for. */
  function Needs(nibble: nat): nat
  {
    if nibble == 13 then 1 else if nibble == 14 then 2 else 0
  }

  /**
   The parser runs off the end exactly when the extension bytes of an option are cut off; a value may be cut short.
   */
  lemma HeadFails(t: seq<U8>)
    requires t != []
    ensures var b: nat := t[0];
            var head := 1 + Needs(b / 16) + Needs(b % 16);
            && (ParseHead(t).None? <==> |t| < head)
            && (ParseHead(t).Some? ==> ParseHead(t).value.head == head)
            && (|t| >= head && b % 16 !in {13, 14} ==> ParseHead(t).value.length == Min(b % 16, |t| - head))
  {
  }

  // ---- Requests ----

  /** The fixed header: version 1, confirmable, no token, then the code and the message id as coap_mid reads it. */
  lemma HeaderReads(code: U8, mid: nat, segs: seq<seq<U8>>, payload: seq<U8>)
    requires AllAscii(segs)
    ensures var data := Request(code, mid, segs, payload);
            && |data| >= 4 && data[0] == 0x40 && data[1] == code
            && 256 * data[2] as int + data[3] as int == mid % 0x1_0000
  {
    hide PathOptions;
    var data := Request(code, mid, segs, payload);
    assert data[..4] == Header(code, mid);
    assert data[0] == data[..4][0] && data[1] == data[..4][1] && data[2] == data[..4][2] && data[3] == data[..4][3];
    MidBytes(mid);
  }

  lemma MidBytes(mid: nat)
    ensures 256 * (mid / 256 % 256) + mid % 256 == mid % 0x1_0000
  {
    var h, q := mid / 256, mid / 256 / 256;
    assert mid == 256 * h + mid % 256 && h == 256 * q + h % 256;
    RemainderIs(mid, 0x1_0000, q, 256 * (h % 256) + mid % 256);
  }
}
