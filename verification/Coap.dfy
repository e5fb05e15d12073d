/** The CoAP requests of testsuites/iot-ota-test/host_iot_ota_server.py and the parser of the same file. */
module Coap {
  import opened Bits
  import opened Options

  const MARKER: U8 := 0xFF

  datatype Opt = Opt(number: nat, value: seq<U8>)

  // ---- Parsing, section 3.1 of RFC 7252 ----

  datatype Field = Field(value: nat, head: nat)

  /**
   The option delta or length that a nibble stands for, and how many extension bytes of `s` it takes. None is the
   IndexError.
   */
  function Extended(nibble: nat, s: seq<U8>): Option<Field>
  {
    if nibble == 13 then
      if |s| < 1 then None else Some(Field(s[0] as int + 13, 1))
    else if nibble == 14 then
      if |s| < 2 then None else Some(Field(s[0] as int * 256 + s[1] as int + 269, 2))
    else
      Some(Field(nibble, 0))
  }

  function Min(a: nat, b: nat): nat
  {
    if a < b then a else b
  }

  /**
   One option: its delta, how many bytes precede its value, and how many bytes its value has; a value may be cut short
   by the end.
   */
  datatype Head = Head(delta: nat, head: nat, length: nat)

  function ParseHead(t: seq<U8>): (r: Option<Head>)
    requires t != []
    ensures r.Some? ==> 1 <= r.value.head && r.value.head + r.value.length <= |t|
  {
    var b: nat := t[0];
    match Extended(b / 16, t[1..])
    case None => None
    case Some(d) =>
      match Extended(b % 16, t[1 + d.head..])
      case None => None
      case Some(l) => Some(Head(d.value, 1 + d.head + l.head, Min(l.value, |t| - 1 - d.head - l.head)))
  }

  function Cons(o: Opt, r: Option<seq<Opt>>): Option<seq<Opt>>
  {
    if r.None? then None else Some([o] + r.value)
  }

  function ParseOptions(t: seq<U8>, number: nat): Option<seq<Opt>>
    decreases |t|
  {
    if t == [] || t[0] == MARKER then Some([])
    else
      match ParseHead(t)
      case None => None
      case Some(h) =>
        Cons(Opt(number + h.delta, t[h.head..h.head + h.length]),
             ParseOptions(t[h.head + h.length..], number + h.delta))
  }

  /** Skips the fixed header and the token. */
  function Parse(data: seq<U8>): Option<seq<Opt>>
  {
    if data == [] then None
    else
      var first: nat := data[0];
      ParseOptions(data[Min(4 + first % 16, |data|)..], 0)
  }

  function GetPayload(data: seq<U8>): seq<U8>
  {
    if data == [] then [] else if data[0] == MARKER then data[1..] else GetPayload(data[1..])
  }

  // ---- Requests ----

  function Split(path: string): (r: seq<string>)
    ensures |r| > 0
  {
    if path == [] then [[]]
    else
      var rest := Split(path[1..]);
      if path[0] == '/' then [[]] + rest else [[path[0]] + rest[0]] + rest[1..]
  }

  function Join(segments: seq<string>): string
    requires |segments| > 0
  {
    if |segments| == 1 then segments[0] else segments[0] + "/" + Join(segments[1..])
  }

  /** The segments are what lies between the slashes: joined they are the path, and none holds a slash. */
  lemma {:induction false} SplitJoins(path: string)
    ensures Join(Split(path)) == path
    ensures forall i :: 0 <= i < |Split(path)| ==> '/' !in Split(path)[i]
  {
    if path != [] {
      SplitJoins(path[1..]);
      var rest, all := Split(path[1..]), Split(path);
      assert path == [path[0]] + path[1..];
      if path[0] == '/' {
        assert all[1..] == rest;
      } else {
        assert all[1..] == rest[1..];
        assert |rest| > 1
          ==> [path[0]] + (rest[0] + "/" + Join(rest[1..])) == [path[0]] + rest[0] + "/" + Join(rest[1..]);
      }
    }
  }

  predicate Encodable(segment: string)
  {
    |segment| < 256 && forall i :: 0 <= i < |segment| ==> segment[i] as nat < 128
  }

  function Bytes(segment: string): (r: seq<U8>)
    requires Encodable(segment)
    ensures |r| == |segment| && Ascii(r)
  {
    seq(|segment|, i requires 0 <= i < |segment| => segment[i] as nat)
  }

  predicate AllEncodable(segments: seq<string>)
  {
    forall i :: 0 <= i < |segments| ==> Encodable(segments[i])
  }

  predicate Ascii(seg: seq<U8>)
  {
    |seg| < 256 && forall i :: 0 <= i < |seg| ==> seg[i] < 128
  }

  function ByteSegments(segments: seq<string>): (r: seq<seq<U8>>)
    requires AllEncodable(segments)
    ensures |r| == |segments| && AllAscii(r)
  {
    seq(|segments|, i requires 0 <= i < |segments| => Bytes(segments[i]))
  }

  predicate AllAscii(segs: seq<seq<U8>>)
  {
    forall i :: 0 <= i < |segs| ==> Ascii(segs[i])
  }

  function Delta(first: bool): nat
  {
    if first then 11 else 0
  }

  function PathByte(first: bool, length: nat): (r: U8)
    requires length < 256
  {
    PathByteFits(first, length);
    Or(16 * Delta(first), length)
  }

  lemma PathByteFits(first: bool, length: nat)
    requires length < 256
    ensures Or(16 * Delta(first), length) < 256
  {
    hide Bitwise;
    assert Pow2(8) == 256;
    BitwiseBound(OrOp, 16 * Delta(first), length, 8);
  }

  function PathOptions(segs: seq<seq<U8>>, first: bool): seq<U8>
    requires AllAscii(segs)
  {
    if segs == [] then [] else [PathByte(first, |segs[0]|)] + segs[0] + PathOptions(segs[1..], false)
  }

  function Header(code: U8, mid: nat): seq<U8>
  {
    [0x40, code, mid / 256 % 256, mid % 256]
  }

  function FormatOption(payload: seq<U8>): seq<U8>
  {
    if payload == [] then [] else [0x11, 0x00]
  }

  function Marked(payload: seq<U8>): seq<U8>
  {
    if payload == [] then [] else [MARKER] + payload
  }

  function Request(code: U8, mid: nat, segs: seq<seq<U8>>, payload: seq<U8>): seq<U8>
    requires AllAscii(segs)
  {
    Header(code, mid) + (PathOptions(segs, true) + FormatOption(payload) + Marked(payload))
  }

  /** What a request is meant to say: the segments as Uri-Path, and content format 0 exactly when there is a payload. */
  function Meant(segs: seq<seq<U8>>, payload: seq<U8>): seq<Opt>
  {
    seq(|segs|, i requires 0 <= i < |segs| => Opt(11, segs[i])) + if payload == [] then [] else [Opt(12, [0])]
  }

  method CoapAddUriPath(buf: seq<U8>, path: string) returns (r: Option<seq<U8>>)
    ensures r == if AllEncodable(Split(path)) then Some(buf + PathOptions(ByteSegments(Split(path)), true)) else None
    ensures r.Some? <==> forall i :: 0 <= i < |Split(path)| ==>
                           var segment := Split(path)[i];
                           |segment| < 256 && forall j :: 0 <= j < |segment| ==> segment[j] as nat < 128
  {
    hide Split, PathByte;
    var segments, first, out := Split(path), true, buf;
    if AllEncodable(segments) {
      ghost var segs := ByteSegments(segments);
      assert segs[0..] == segs && segs[|segments|..] == [];
    }
    for i := 0 to |segments|
      invariant AllEncodable(segments[..i]) && first == (i == 0)
      invariant AllEncodable(segments) ==>
                  out + PathOptions(ByteSegments(segments)[i..], first)
                    == buf + PathOptions(ByteSegments(segments), true)
    {
      var segment := segments[i];
      if !Encodable(segment) {
        return None;
      }
      var data := Bytes(segment);
      if AllEncodable(segments) {
        Unfold(ByteSegments(segments), i, first, out);
      }
      out := out + [PathByte(first, |data|)] + data;
      first := false;
    }
    assert segments[..|segments|] == segments;
    assert out + [] == out;
    r := Some(out);
  }

  lemma Unfold(segs: seq<seq<U8>>, i: nat, first: bool, out: seq<U8>)
    requires AllAscii(segs) && i < |segs|
    ensures out + PathOptions(segs[i..], first)
            == out + [PathByte(first, |segs[i]|)] + segs[i] + PathOptions(segs[i + 1..], false)
  {
    assert segs[i..][0] == segs[i] && segs[i..][1..] == segs[i + 1..];
  }

  method CoapSendRequest(code: U8, mid: nat, path: string, payload: seq<U8>) returns (r: Option<seq<U8>>)
    ensures r == if AllEncodable(Split(path)) then Some(Request(code, mid, ByteSegments(Split(path)), payload))
            else None
  {
    hide Split, PathOptions;
    r := CoapAddUriPath([0x40, code, mid / 256 % 256, mid % 256], path);
    if r.Some? && payload != [] {
      var req := r.value + [0x11, 0x00];
      req := req + [MARKER];
      r := Some(req + payload);
    }
    if AllEncodable(Split(path)) {
      Grouping(Header(code, mid), PathOptions(ByteSegments(Split(path)), true), payload);
    }
  }

  lemma Grouping(header: seq<U8>, options: seq<U8>, payload: seq<U8>)
    ensures header + (options + FormatOption(payload) + Marked(payload))
            == if payload == [] then header + options else header + options + [0x11, 0x00] + [MARKER] + payload
  {
  }

  // ---- The parser's loop ----

  method CoapParseOptions(data: seq<U8>) returns (r: Option<seq<Opt>>)
    ensures r == Parse(data)
  {
    hide ParseOptions, ParseHead, Extended;
    if data == [] {
      return None;
    }
    var first: nat := data[0];
    var pos: nat, number: nat, options: seq<Opt> := 4 + first % 16, 0, [];
    PrependNothing(Parse(data));
    while pos < |data| && data[pos] != MARKER
      invariant Parse(data) == Prepend(options, ParseOptions(data[Min(pos, |data|)..], number))
      decreases |data| - pos
    {
      ghost var t := data[pos..];
      ParseStep(t, number, options);
      var b: nat := data[pos];
      var delta := Extension(data, pos + 1, b / 16);
      HeadParts(t);
      if delta == None {
        return None;
      }
      assert t[1..] == data[pos + 1..] && t[1 + delta.value.head..] == data[pos + 1 + delta.value.head..];
      var length := Extension(data, pos + 1 + delta.value.head, b % 16);
      if length == None {
        return None;
      }
      ghost var h := ParseHead(t).value;
      SliceOfSuffix(data, pos, h.head, h.head + h.length);
      pos := pos + 1 + delta.value.head + length.value.head;
      number := number + delta.value.value;
      var value := data[pos..Min(pos + length.value.value, |data|)];
      pos := pos + length.value.value;
      options := options + [Opt(number, value)];
    }
    EndOfOptions(data, pos, number);
    assert options + [] == options;
    r := Some(options);
  }

  /** The two extension forms, at `pos`. */
  method Extension(data: seq<U8>, pos: nat, nibble: nat) returns (r: Option<Field>)
    requires pos <= |data|
    ensures r == Extended(nibble, data[pos..])
    ensures r.Some? ==> pos + r.value.head <= |data|
  {
    if nibble == 13 {
      if pos >= |data| {
        return None;
      }
      var low: nat := data[pos];
      return Some(Field(low + 13, 1));
    } else if nibble == 14 {
      if pos + 1 >= |data| {
        return None;
      }
      var high: nat, low: nat := data[pos], data[pos + 1];
      return Some(Field(high * 256 + low + 269, 2));
    }
    r := Some(Field(nibble, 0));
  }

  lemma SliceOfSuffix(data: seq<U8>, pos: nat, i: nat, j: nat)
    requires pos + j <= |data| && i <= j
    ensures data[pos..][i..j] == data[pos + i..pos + j] && data[pos..][j..] == data[pos + j..]
  {
  }

  lemma PrependNothing(r: Option<seq<Opt>>)
    ensures Prepend([], r) == r
  {
    if r.Some? {
      assert [] + r.value == r.value;
    }
  }

  lemma HeadParts(t: seq<U8>)
    requires t != []
    ensures var b: nat := t[0];
            var d := Extended(b / 16, t[1..]);
            if d == None then ParseHead(t) == None else
              && 1 + d.value.head <= |t|
              && var l := Extended(b % 16, t[1 + d.value.head..]);
                 if l == None then ParseHead(t) == None else
                   && 1 + d.value.head + l.value.head <= |t|
                   && ParseHead(t) == Some(Head(d.value.value, 1 + d.value.head + l.value.head,
                                                Min(l.value.value, |t| - 1 - d.value.head - l.value.head)))
  {
  }

  lemma ParseStep(t: seq<U8>, number: nat, options: seq<Opt>)
    requires t != [] && t[0] != MARKER
    ensures ParseHead(t) == None ==> Prepend(options, ParseOptions(t, number)) == None
    ensures ParseHead(t).Some? ==>
              var h := ParseHead(t).value;
              Prepend(options, ParseOptions(t, number))
              == Prepend(options + [Opt(number + h.delta, t[h.head..h.head + h.length])],
                         ParseOptions(t[h.head + h.length..], number + h.delta))
  {
    hide ParseHead;
    if ParseHead(t).Some? {
      var h := ParseHead(t).value;
      var r := ParseOptions(t[h.head + h.length..], number + h.delta);
      if r.Some? {
        var o := Opt(number + h.delta, t[h.head..h.head + h.length]);
        assert options + ([o] + r.value) == (options + [o]) + r.value;
      }
    }
  }

  lemma EndOfOptions(data: seq<U8>, pos: nat, number: nat)
    requires pos >= |data| || data[pos] == MARKER
    ensures ParseOptions(data[Min(pos, |data|)..], number) == Some([])
  {
  }

  ghost function Prepend(options: seq<Opt>, r: Option<seq<Opt>>): Option<seq<Opt>>
  {
    if r.None? then None else Some(options + r.value)
  }
}
