/** When a request reads back as it was meant: the exact condition on the path, and on the header for its payload. */
module CoapTheorems {
  import opened Bits
  import opened Options
  import opened Coap

  /** The lengths that one option byte expresses to the parser, which takes 15 literally. */
  predicate Plain(seg: seq<U8>)
  {
    |seg| <= 12 || |seg| == 15
  }

  predicate AllPlain(segs: seq<seq<U8>>)
  {
    forall i :: 0 <= i < |segs| ==> Plain(segs[i])
  }

  lemma PathByteSmall(first: bool, length: nat)
    requires length < 16
    ensures PathByte(first, length) == 16 * Delta(first) + length
  {
    hide Bitwise;
    assert Pow2(4) == 16;
    OrAdd(Delta(first), length, 4, 16);
  }

  // ---- Plain paths read back ----

  function PathMeant(segs: seq<seq<U8>>): seq<Opt>
  {
    seq(|segs|, i requires 0 <= i < |segs| => Opt(11, segs[i]))
  }

  lemma PlainHead(first: bool, seg: seq<U8>, rest: seq<U8>)
    requires Plain(seg)
    ensures var t := [PathByte(first, |seg|)] + seg + rest;
            && t[0] != MARKER && ParseHead(t) == Some(Head(Delta(first), 1, |seg|))
            && t[1..1 + |seg|] == seg && t[1 + |seg|..] == rest
  {
    hide PathByte;
    PathByteSmall(first, |seg|);
  }

  lemma {:induction false} PathReads(segs: seq<seq<U8>>, first: bool, tail: seq<U8>)
    requires AllAscii(segs) && AllPlain(segs) && (first ==> segs != [])
    ensures ParseOptions(PathOptions(segs, first) + tail, if first then 0 else 11)
            == Prepend(PathMeant(segs), ParseOptions(tail, 11))
  {
    hide ParseHead, PathByte, ParseOptions;
    if segs == [] {
      assert PathOptions(segs, first) + tail == tail;
      PrependNothing(ParseOptions(tail, 11));
    } else {
      var seg, more := segs[0], segs[1..];
      PathReads(more, false, tail);
      SegmentReads(first, seg, PathOptions(more, false) + tail);
      assert PathOptions(segs, first) + tail == [PathByte(first, |seg|)] + seg + (PathOptions(more, false) + tail);
      assert PathMeant(segs) == [Opt(11, seg)] + PathMeant(more);
      ConsPrepend(Opt(11, seg), PathMeant(more), ParseOptions(tail, 11));
    }
  }

  lemma {:induction false} SegmentReads(first: bool, seg: seq<U8>, rest: seq<U8>)
    requires Plain(seg)
    ensures ParseOptions([PathByte(first, |seg|)] + seg + rest, if first then 0 else 11)
            == Cons(Opt(11, seg), ParseOptions(rest, 11))
  {
    hide ParseHead, PathByte;
    PlainHead(first, seg, rest);
  }

  lemma ConsPrepend(o: Opt, options: seq<Opt>, r: Option<seq<Opt>>)
    ensures Cons(o, Prepend(options, r)) == Prepend([o] + options, r)
  {
    if r.Some? {
      assert [o] + (options + r.value) == ([o] + options) + r.value;
    }
  }

  lemma TailReads(payload: seq<U8>)
    ensures ParseOptions(FormatOption(payload) + Marked(payload), 11)
            == Some(if payload == [] then [] else [Opt(12, [0])])
  {
    if payload != [] {
      var t := FormatOption(payload) + Marked(payload);
      assert t[1..2] == [0] && t[2..] == [MARKER] + payload;
      assert ParseHead(t) == Some(Head(1, 1, 1));
      assert ParseOptions(t, 11) == Cons(Opt(12, t[1..2]), ParseOptions(t[2..], 12));
      assert [Opt(12, [0])] + [] == [Opt(12, [0])];
    }
  }

  // ---- Only plain paths read back ----

  /** The bytes that options of these values need at least. */
  function Size(options: seq<Opt>): nat
  {
    if options == [] then 0 else 1 + |options[0].value| + Size(options[1..])
  }

  predicate Unmarked(s: seq<U8>)
  {
    forall i :: 0 <= i < |s| ==> s[i] != MARKER
  }

  /** Options of a request: numbers up to 12, and no marker in a value. */
  predicate Modest(options: seq<Opt>)
  {
    forall i :: 0 <= i < |options| ==> options[i].number <= 12 && Unmarked(options[i].value)
  }

  /** Nothing or a marker follows; a marker follows the content format or its end. */
  predicate Ending(a: seq<U8>, z: seq<U8>)
  {
    z == [] || (z[0] == MARKER && (a == [] || a == [0] || (|a| >= 2 && a[|a| - 2..] == [0x11, 0])))
  }

  /**
   What a head says about the first byte: a delta of at most 12 and a head of one byte are written in it literally.
   */
  lemma {:induction false} HeadNibbles(t: seq<U8>, h: Head)
    requires t != [] && ParseHead(t) == Some(h) && h.delta <= 12
    ensures var b: nat := t[0];
            && (h.head == 1 ==> h.length <= b % 16 && b % 16 != 13 && b % 16 != 14)
            && (h.head == 2 ==> b % 16 == 13) && (h.head == 3 ==> b % 16 == 14) && h.head <= 3
  {
    var b: nat := t[0];
    assert b / 16 != 13 && b / 16 != 14;
  }

  /**
   Before a marker the head ends with the options, since neither byte of the content format option has an extension.
   */
  lemma {:induction false} HeadEnds(a: seq<U8>, z: seq<U8>, h: Head)
    requires Ending(a, z) && a != [] && z != [] && ParseHead(a + z) == Some(h) && h.delta <= 12
    ensures h.head <= |a|
  {
    hide ParseHead, Extended;
    HeadNibbles(a + z, h);
    var b: nat := a[0];
    assert (a + z)[0] == b;
    assert h.head <= 3 && (h.head == 2 ==> b % 16 == 13) && (h.head == 3 ==> b % 16 == 14);
    if |a| == 1 {
      assert b == 0 && b % 16 == 0;
    } else if |a| == 2 {
      assert b == a[|a| - 2..][0] == 0x11 && b % 16 == 1;
    }
  }

  /** An option that comes out modest lies wholly in front of the marker. */
  lemma HeadWithin(a: seq<U8>, z: seq<U8>, h: Head)
    requires Ending(a, z) && a != [] && ParseHead(a + z) == Some(h) && h.delta <= 12
    requires Unmarked((a + z)[h.head..h.head + h.length])
    ensures h.head + h.length <= |a| && Ending(a[h.head + h.length..], z)
    ensures (a + z)[h.head + h.length..] == a[h.head + h.length..] + z
  {
    hide ParseHead;
    var t, n := a + z, h.head + h.length;
    if z != [] {
      HeadEnds(a, z, h);
      ValueEnds(t, h.head, n, |a|);
      EndingSuffix(a, z, n);
    }
    assert t[n..] == a[n..] + z;
  }

  lemma ValueEnds(t: seq<U8>, from: nat, to: nat, at: nat)
    requires from <= to <= |t| && from <= at < |t| && t[at] == MARKER && Unmarked(t[from..to])
    ensures to <= at
  {
    assert forall i :: from <= i < to ==> t[i] == t[from..to][i - from];
  }

  lemma EndingSuffix(a: seq<U8>, z: seq<U8>, n: nat)
    requires Ending(a, z) && n <= |a|
    ensures Ending(a[n..], z)
  {
    if |a| - n >= 2 {
      assert a[n..][|a| - n - 2..] == a[|a| - 2..];
    } else if |a| - n == 1 {
      assert |a| >= 2 ==> a[|a| - 1] == a[|a| - 2..][1];
      assert a[n..] == [a[|a| - 1]];
    }
  }

  lemma FirstOption(t: seq<U8>, number: nat, options: seq<Opt>)
    requires ParseOptions(t, number) == Some(options) && options != []
    ensures t != [] && t[0] != MARKER && ParseHead(t).Some?
    ensures var h := ParseHead(t).value;
            && options[0] == Opt(number + h.delta, t[h.head..h.head + h.length])
            && ParseOptions(t[h.head + h.length..], number + h.delta) == Some(options[1..])
  {
    hide ParseHead;
    var h := ParseHead(t).value;
    var r := ParseOptions(t[h.head + h.length..], number + h.delta);
    assert options == [Opt(number + h.delta, t[h.head..h.head + h.length])] + r.value;
  }

  /** Modest options need as many bytes in front of the marker as their size, and more if any has a longer head. */
  lemma {:induction false} SizeFits(a: seq<U8>, z: seq<U8>, number: nat, options: seq<Opt>)
    requires Ending(a, z) && Modest(options) && ParseOptions(a + z, number) == Some(options)
    ensures Size(options) <= |a|
    decreases |a|
  {
    hide ParseHead, ParseOptions, Unmarked;
    if options != [] {
      FirstOption(a + z, number, options);
      var h := ParseHead(a + z).value;
      HeadWithin(a, z, h);
      SizeFits(a[h.head + h.length..], z, number + h.delta, options[1..]);
    }
  }

  /** With exactly as many bytes as the options' size, the first head is one byte long. */
  lemma NoSlack(a: seq<U8>, z: seq<U8>, number: nat, options: seq<Opt>) returns (next: nat)
    requires Ending(a, z) && Modest(options) && ParseOptions(a + z, number) == Some(options)
    requires Size(options) == |a| && options != []
    ensures |a| >= 1 + |options[0].value| && options[0].value == a[1..1 + |options[0].value|]
    ensures var b: nat := a[0]; |options[0].value| <= b % 16 && b % 16 != 13 && b % 16 != 14
    ensures ParseOptions(a[1 + |options[0].value|..] + z, next) == Some(options[1..])
    ensures Ending(a[1 + |options[0].value|..], z)
  {
    hide ParseHead, ParseOptions, Unmarked, Ending;
    FirstOption(a + z, number, options);
    var h := ParseHead(a + z).value;
    HeadWithin(a, z, h);
    HeadNibbles(a + z, h);
    assert (a + z)[0] == a[0];
    assert (a + z)[h.head..h.head + h.length] == a[h.head..h.head + h.length];
    SizeFits(a[h.head + h.length..], z, number + h.delta, options[1..]);
    assert h.head == 1;
    next := number + h.delta;
  }

  lemma {:induction false} OnlyPlain(segs: seq<seq<U8>>, first: bool, f: seq<U8>, z: seq<U8>, number: nat,
                                     last: seq<Opt>)
    requires AllAscii(segs) && Modest(last) && Size(last) == |f| && Ending(PathOptions(segs, first) + f, z)
    requires ParseOptions(PathOptions(segs, first) + f + z, number) == Some(PathMeant(segs) + last)
    ensures AllPlain(segs)
    decreases |segs|
  {
    hide ParseOptions, ParseHead, PathByte, PathOptions, Ending, Unmarked;
    if segs != [] {
      var seg, more := segs[0], segs[1..];
      var a, options := PathOptions(segs, first) + f, PathMeant(segs) + last;
      PathHead(segs, first, f);
      assert options[0] == Opt(11, seg) && options[1..] == PathMeant(more) + last;
      MeantModest(segs, last);
      MeantSize(segs, first, last);
      var next := NoSlack(a, z, number, options);
      PathByteSmall(first, |seg|);
      OnlyPlain(more, false, f, z, next, last);
      assert segs == [seg] + more;
    }
  }

  lemma {:induction false} PathHead(segs: seq<seq<U8>>, first: bool, f: seq<U8>)
    requires AllAscii(segs) && segs != []
    ensures var a := PathOptions(segs, first) + f;
            && |a| > |segs[0]| && a[0] == PathByte(first, |segs[0]|)
            && a[1 + |segs[0]|..] == PathOptions(segs[1..], false) + f
  {
    hide PathByte;
    var head, more := [PathByte(first, |segs[0]|)] + segs[0], PathOptions(segs[1..], false);
    assert PathOptions(segs, first) == head + more;
    assert (head + more) + f == head + (more + f);
    assert (head + (more + f))[|head|..] == more + f;
  }

  lemma MeantModest(segs: seq<seq<U8>>, last: seq<Opt>)
    requires AllAscii(segs) && Modest(last)
    ensures Modest(PathMeant(segs) + last)
  {
  }

  lemma {:induction false} MeantSize(segs: seq<seq<U8>>, first: bool, last: seq<Opt>)
    requires AllAscii(segs)
    ensures Size(PathMeant(segs) + last) == |PathOptions(segs, first)| + Size(last)
  {
    var options := PathMeant(segs) + last;
    if segs == [] {
      assert options == last;
    } else {
      MeantSize(segs[1..], false, last);
      assert options[0] == Opt(11, segs[0]) && options[1..] == PathMeant(segs[1..]) + last;
    }
  }

  /**
   The request says what it is meant to say, segment for segment and with the content format exactly when
   there is a payload, if and only if every segment is at most 12 or exactly 15 bytes long.
   */
  lemma RequestReadsBack(code: U8, mid: nat, segs: seq<seq<U8>>, payload: seq<U8>)
    requires AllAscii(segs) && segs != []
    ensures Parse(Request(code, mid, segs, payload)) == Some(Meant(segs, payload)) <==> AllPlain(segs)
  {
    hide ParseOptions, PathOptions;
    var last := if payload == [] then [] else [Opt(12, [0])];
    var path, f, z := PathOptions(segs, true), FormatOption(payload), Marked(payload);
    var data := Request(code, mid, segs, payload);
    assert data[4..] == path + f + z && data[0] == 0x40;
    assert Meant(segs, payload) == PathMeant(segs) + last;
    if AllPlain(segs) {
      PathReads(segs, true, f + z);
      TailReads(payload);
      assert path + f + z == path + (f + z);
    }
    if Parse(data) == Some(Meant(segs, payload)) {
      assert payload != [] ==> (path + f)[|path + f| - 2..] == [0x11, 0];
      assert Size(last) == |f|;
      OnlyPlain(segs, true, f, z, 0, last);
    }
  }

  /** A single segment of 13 bytes reads back as something else. */
  lemma ThirteenMisread(code: U8, mid: nat, seg: seq<U8>, payload: seq<U8>)
    requires Ascii(seg) && |seg| == 13
    ensures AllAscii([seg]) && Parse(Request(code, mid, [seg], payload)) != Some(Meant([seg], payload))
  {
    hide Parse, Request, Meant;
    var segs := [seg];
    assert !Plain(segs[0]);
    RequestReadsBack(code, mid, segs, payload);
  }

  // ---- The payload ----

  lemma {:induction false} PayloadAfter(a: seq<U8>, data: seq<U8>)
    requires Unmarked(a)
    ensures GetPayload(a + data) == GetPayload(data)
  {
    if a == [] {
      assert a + data == data;
    } else {
      assert (a + data)[1..] == a[1..] + data;
      PayloadAfter(a[1..], data);
    }
  }

  lemma {:induction false} PayloadEarly(data: seq<U8>, k: nat)
    requires k <= |data| && !Unmarked(data[..k])
    ensures |GetPayload(data)| >= |data| - k
  {
    if data[0] != MARKER {
      assert data[1..][..k - 1] == data[..k][1..];
      PayloadEarly(data[1..], k - 1);
    }
  }

  /** None of the option bytes of a path looks like the payload marker. */
  predicate NoMarkerByte(segs: seq<seq<U8>>, first: bool)
    requires AllAscii(segs)
  {
    forall i :: 0 <= i < |segs| ==> PathByte(first && i == 0, |segs[i]|) != MARKER
  }

  lemma NibbleMarker(hi: nat)
    requires hi < 16
    ensures Or(11, hi) == 15 <==> And(hi, 4) == 4
  {
    hide Bitwise;
    var h := hi / 4;
    BitwiseStep(OrOp, 11, hi);
    BitwiseStep(OrOp, 5, hi / 2);
    BitwiseStep(OrOp, 2, h);
    BitwiseStep(OrOp, 1, h / 2);
    BitwiseZero(OrOp, 0);
    assert Or(11, hi) == 11 + 4 * (h % 2);
    BitwiseStep(AndOp, hi, 4);
    BitwiseStep(AndOp, hi / 2, 2);
    BitwiseStep(AndOp, h, 1);
    BitwiseZero(AndOp, h / 2);
    assert And(hi, 4) == 4 * (h % 2);
  }

  /**
   The lengths whose option byte is the marker: those with all bits of 0x4F for the first segment, 255 for a later
   one.
   */
  lemma MarkerLengths(first: bool, length: nat)
    requires length < 256
    ensures PathByte(first, length) == MARKER <==> if first then And(length, 0x4F) == 0x4F else length == 255
  {
    hide Bitwise;
    assert Pow2(4) == 16;
    var hi, lo := length / 16, length % 16;
    if first {
      BitwiseSplitAt(OrOp, 11, 0, hi, lo, 4, 16);
      BitwiseSplitAt(AndOp, hi, lo, 4, 15, 4, 16);
      AndLowMask(lo, 4);
      BitwiseZero(OrOp, lo);
      NibbleMarker(hi);
    } else {
      BitwiseZero(OrOp, length);
    }
  }

  lemma {:induction false} PathUnmarked(segs: seq<seq<U8>>, first: bool)
    requires AllAscii(segs) && NoMarkerByte(segs, first)
    ensures Unmarked(PathOptions(segs, first))
  {
    hide PathByte;
    if segs != [] {
      var more := segs[1..];
      assert PathByte(first && 0 == 0, |segs[0]|) != MARKER;
      forall i | 0 <= i < |more| ensures PathByte(false && i == 0, |more[i]|) != MARKER {
        assert PathByte(first && i + 1 == 0, |segs[i + 1]|) != MARKER;
      }
      PathUnmarked(more, false);
      assert Ascii(segs[0]);
    }
  }

  /** A marker among the option bytes of a path stands in front of its segment, so before the end of the path. */
  lemma {:induction false} PathMarked(segs: seq<seq<U8>>, first: bool) returns (k: nat)
    requires AllAscii(segs) && !NoMarkerByte(segs, first)
    ensures k < |PathOptions(segs, first)| && !Unmarked(PathOptions(segs, first)[..k])
  {
    hide PathByte;
    var seg, more := segs[0], segs[1..];
    var path := PathOptions(segs, first);
    if PathByte(first, |seg|) == MARKER {
      PathByteSmall(first, 0);
      k := 1;
      assert path[..1][0] == MARKER;
    } else {
      assert !NoMarkerByte(more, false) by {
        var i :| 0 <= i < |segs| && PathByte(first && i == 0, |segs[i]|) == MARKER;
        assert PathByte(false && i - 1 == 0, |more[i - 1]|) == MARKER;
      }
      var j := PathMarked(more, false);
      k := 1 + |seg| + j;
      assert path[..k] == [PathByte(first, |seg|)] + seg + PathOptions(more, false)[..j];
      var rest := PathOptions(more, false)[..j];
      var u :| 0 <= u < |rest| && rest[u] == MARKER;
      assert path[..k][1 + |seg| + u] == MARKER;
    }
  }

  predicate HeaderUnmarked(code: U8, mid: nat)
  {
    code != MARKER && mid / 256 % 256 != 0xFF && mid % 256 != 0xFF
  }

  /**
   The payload of a request, which may itself hold marker bytes, reads back if and only if no byte of the header
   and no option byte of the path is a marker: the search starts at the code, not behind the options.
   */
  lemma PayloadReadsBack(code: U8, mid: nat, segs: seq<seq<U8>>, payload: seq<U8>)
    requires AllAscii(segs) && segs != []
    ensures GetPayload(Request(code, mid, segs, payload)) == payload
            <==> HeaderUnmarked(code, mid) && NoMarkerByte(segs, true)
  {
    hide GetPayload, PathByte, PathOptions, NoMarkerByte;
    var header, path, f, z := Header(code, mid), PathOptions(segs, true), FormatOption(payload), Marked(payload);
    var data := Request(code, mid, segs, payload);
    assert data == header + path + f + z && |path| > 0 by { PathNotEmpty(segs); }
    assert Unmarked(header) <==> header[1] != MARKER && header[2] != MARKER && header[3] != MARKER;
    if !Unmarked(header) {
      assert data[..4] == header;
      PayloadEarly(data, 4);
    } else if NoMarkerByte(segs, true) {
      PathUnmarked(segs, true);
      PayloadAfter(header + path + f, z);
      PayloadOf(payload);
    } else {
      var k := PathMarked(segs, true);
      var u :| 0 <= u < k && path[..k][u] == MARKER;
      assert data[..4 + k][4 + u] == MARKER;
      PayloadEarly(data, 4 + k);
    }
  }

  lemma PathNotEmpty(segs: seq<seq<U8>>)
    requires AllAscii(segs) && segs != []
    ensures |PathOptions(segs, true)| > 0
  {
  }

  /** On a path that reads back it is the header alone that decides. */
  lemma PlainPayloadReadsBack(code: U8, mid: nat, segs: seq<seq<U8>>, payload: seq<U8>)
    requires AllAscii(segs) && AllPlain(segs) && segs != []
    ensures GetPayload(Request(code, mid, segs, payload)) == payload <==> HeaderUnmarked(code, mid)
  {
    hide GetPayload, PathByte;
    PayloadReadsBack(code, mid, segs, payload);
    forall i | 0 <= i < |segs| ensures PathByte(true && i == 0, |segs[i]|) != MARKER {
      PathByteSmall(true && i == 0, |segs[i]|);
    }
  }

  /** A first segment of 79 bytes loses the payload although no header byte is a marker. */
  lemma LongSegmentLosesPayload(seg: seq<U8>, payload: seq<U8>)
    requires Ascii(seg) && |seg| == 79
    ensures HeaderUnmarked(1, 0) && AllAscii([seg]) && GetPayload(Request(1, 0, [seg], payload)) != payload
  {
    hide GetPayload, PathByte, Request;
    assert And(79, 0x4F) == 0x4F;
    MarkerLengths(true, 79);
    var segs := [seg];
    assert PathByte(true && 0 == 0, |segs[0]|) == MARKER;
    PayloadReadsBack(1, 0, segs, payload);
  }

  lemma PayloadOf(payload: seq<U8>)
    ensures GetPayload(Marked(payload)) == payload
  {
  }
}
