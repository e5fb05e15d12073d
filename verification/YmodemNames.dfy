/**
 Which files the YMODEM receiver takes. The name of a control frame is copied over what an earlier, refused control
 frame of the session left in the name buffer, without a terminator, and the buffer is what the callback compares.
 */
module YmodemNames {
  import opened Bits
  import opened Options
  import opened Crc
  import opened Ymodem
  import opened YmodemTheorems
  import opened YmodemRoundTrip
  import opened YmodemAnswers

  // ---- Names ----

  predicate CasePair(upper: U8, lower: U8)
  {
    0x41 <= upper <= 0x5A && lower == upper + 0x20
  }

  predicate SameIgnoringCase(a: seq<U8>, b: seq<U8>)
  {
    |a| == |b| && forall i :: 0 <= i < |a| ==> a[i] == b[i] || CasePair(a[i], b[i]) || CasePair(b[i], a[i])
  }

  lemma SameNameIs(a: seq<U8>, b: seq<U8>)
    ensures SameName(a, b) <==> SameIgnoringCase(a, b)
  {
    if |a| == |b| {
      forall i | 0 <= i < |a|
        ensures Lower(a[i]) == Lower(b[i]) <==> a[i] == b[i] || CasePair(a[i], b[i]) || CasePair(b[i], a[i])
      {
      }
    }
  }

  /** The name in a control frame: the bytes before the first zero, at most 64. */
  function FrameName(data: seq<U8>): (name: seq<U8>)
    ensures |name| <= 64
  {
    Until(data, 0, 64)
  }

  /** The buffer once the name of a frame was copied to its front. */
  function Over(buffer: seq<U8>, data: seq<U8>): (r: seq<U8>)
    requires |buffer| == 65
    ensures |r| == 65
  {
    FrameName(data) + buffer[|FrameName(data)|..]
  }

  /** What the callback sees is the frame's own name exactly when nothing is left behind it in the buffer. */
  lemma ShownIsName(buffer: seq<U8>, data: seq<U8>)
    requires |buffer| == 65
    ensures CString(Over(buffer, data)) == FrameName(data) <==> buffer[|FrameName(data)|] == 0
  {
    hide CString;
    var name := FrameName(data);
    var tail := buffer[|name|..];
    CStringAppend(name, tail);
    assert tail[0] == buffer[|name|];
    CStringEmpty(tail);
    assert name + CString(tail) == name <==> CString(tail) == [];
  }

  lemma {:induction false} CStringAppend(s: seq<U8>, tail: seq<U8>)
    requires forall i :: 0 <= i < |s| ==> s[i] != 0
    ensures CString(s + tail) == s + CString(tail)
  {
    if s == [] {
      assert s + tail == tail;
    } else {
      assert (s + tail)[1..] == s[1..] + tail;
      CStringAppend(s[1..], tail);
    }
  }

  lemma CStringEmpty(s: seq<U8>)
    requires s != []
    ensures CString(s) == [] <==> s[0] == 0
  {
  }

  // ---- One control frame ----

  function FrameSize(data: seq<U8>): Option<nat>
    requires |data| >= 128
  {
    ScanUnsignedLong(CString(SizeText(data)))
  }

  /**
   A control frame with a name opens a file exactly when its size can be read and is not zero in 32 bits, and the name
   shown is the wanted one, ignoring case, and short enough. Without a size it is refused and asked for again; otherwise
   the callback's refusal leaves sink and download info as they were.
   */
  lemma ControlVerdict(w: World, data: seq<U8>)
    requires Good(w) && |data| >= 128 && data[0] != 0
    ensures var (w', status) := ParseControlFrame(w, data);
            var shown, size := CString(Over(w.session.fileName, data)), FrameSize(data);
            && (status == StatusOk <==>
                  size.Some? && size.value % U32_SIZE != 0 && SameIgnoringCase(w.info.name, shown) && |shown| < 64)
            && (status == StatusInvalidData <==> size.None?)
            && (status == StatusOk || status == StatusInvalidData || status == StatusCallbackErr)
            && w'.info.name == w.info.name
            && (status == StatusOk ==> w'.info.totalFileLen == size.value % U32_SIZE && w'.sink.usedSize == 0)
            && (status != StatusOk ==> w'.info == w.info && w'.sink == w.sink && w'.session.state == w.session.state)
            && w'.session.fileName == Over(w.session.fileName, data)
  {
    hide ScanUnsignedLong, CString, SizeText, SameIgnoringCase, SameName, Until;
    SameNameIs(w.info.name, CString(Over(w.session.fileName, data)));
  }

  /** A control frame as the session takes it. */
  predicate NamedFrame(r: Receipt)
  {
    r.Got? && DataPacket(r.packet) && r.packet.seqNo == 0 && r.packet.data[0] != 0
  }

  /**
   A file with another name is refused: sink and info stay, the answer is CAN CAN, and the call ends with the
   callback's error.
   */
  lemma OtherNameRefused(w: World, input: seq<Event>, pos: nat)
    requires Inv(w) && w.session.state == IDLE && pos <= |input| && NamedFrame(RecvPacket(input, pos))
    requires var data := RecvPacket(input, pos).packet.data;
             FrameSize(data).Some? && !SameIgnoringCase(w.info.name, CString(Over(w.session.fileName, data)))
    ensures var out := Receive(w, input, pos);
            && out.Returned? && out.status == StatusCallbackErr
            && out.world.sink == w.sink && out.world.info == w.info && out.world.sent == w.sent + [0x18, 0x18]
  {
    hide ScanUnsignedLong, CString, SizeText, SameIgnoringCase, ParseControlFrame, Accepts, Over, FrameSize, RecvPacket;
    var r := RecvPacket(input, pos);
    ControlVerdict(w, r.packet.data);
    NoOther(w, r.packet);
    FailureAnswers(w, r);
  }

  // ---- Every stream ----

  /** Receipts of the stream at these places, one behind the other and in front of `pos`, that are control frames. */
  ghost predicate Trail(input: seq<Event>, places: seq<nat>, pos: nat)
  {
    forall i :: 0 <= i < |places| ==>
      && places[i] <= |input| && NamedFrame(RecvPacket(input, places[i]))
      && RecvPacket(input, places[i]).next <= PlaceAfter(places, i, pos)
  }

  function Frame(input: seq<Event>, at: nat): seq<U8>
    requires at <= |input| && RecvPacket(input, at).Got?
  {
    RecvPacket(input, at).packet.data
  }

  /** What these frames leave in the name buffer of a session, one copied over the other. */
  ghost function Buffer(input: seq<Event>, places: seq<nat>, pos: nat): (b: seq<U8>)
    requires Trail(input, places, pos)
    ensures |b| == 65
    decreases |places|
  {
    if places == [] then seq(65, _ => 0)
    else
      var n := |places| - 1;
      TrailInit(input, places, pos);
      Over(Buffer(input, places[..n], places[n]), Frame(input, places[n]))
  }

  lemma TrailInit(input: seq<Event>, places: seq<nat>, pos: nat)
    requires Trail(input, places, pos) && places != []
    ensures Trail(input, places[..|places| - 1], places[|places| - 1])
  {
    hide RecvPacket, Accepts;
    var n := |places| - 1;
    var init := places[..n];
    forall i | 0 <= i < n ensures RecvPacket(input, init[i]).next <= PlaceAfter(init, i, places[n]) {
      assert RecvPacket(input, places[i]).next <= PlaceAfter(places, i, pos);
    }
  }

  lemma TrailSnoc(input: seq<Event>, places: seq<nat>, pos: nat)
    requires pos <= |input| && Trail(input, places, pos) && NamedFrame(RecvPacket(input, pos))
    ensures Trail(input, places + [pos], RecvPacket(input, pos).next)
    ensures Buffer(input, places + [pos], RecvPacket(input, pos).next)
            == Over(Buffer(input, places, pos), Frame(input, pos))
  {
    hide RecvPacket, Accepts, Over;
    var all, next := places + [pos], RecvPacket(input, pos).next;
    forall i | 0 <= i < |places| ensures RecvPacket(input, all[i]).next <= PlaceAfter(all, i, next) {
      assert RecvPacket(input, places[i]).next <= PlaceAfter(places, i, pos);
    }
    assert all[..|all| - 1] == places;
  }

  lemma {:induction false} TrailLater(input: seq<Event>, places: seq<nat>, pos: nat, later: nat)
    requires Trail(input, places, pos) && pos <= later
    ensures Trail(input, places, later) && Buffer(input, places, later) == Buffer(input, places, pos)
  {
    hide RecvPacket, Accepts, Over;
    forall i | 0 <= i < |places| ensures RecvPacket(input, places[i]).next <= PlaceAfter(places, i, later) {
      assert RecvPacket(input, places[i]).next <= PlaceAfter(places, i, pos);
    }
  }

  /** The sizes of the frames up to `n` cannot be read. */
  ghost predicate Unreadable(input: seq<Event>, places: seq<nat>, pos: nat, n: nat)
    requires Trail(input, places, pos) && n <= |places|
  {
    forall i :: 0 <= i < n ==> FrameSize(Frame(input, places[i])).None?
  }

  /**
   The last of these frames opened the file: its size is the declared one, and the wanted name is what it and the
   frames refused before it in the session leave in the buffer.
   */
  ghost predicate Opened(input: seq<Event>, places: seq<nat>, pos: nat, info: Info)
  {
    && places != [] && Trail(input, places, pos) && Unreadable(input, places, pos, |places| - 1)
    && FrameSize(Frame(input, places[|places| - 1])).Some?
    && info.totalFileLen == FrameSize(Frame(input, places[|places| - 1])).value % U32_SIZE
    && SameIgnoringCase(info.name, CString(Buffer(input, places, pos)))
  }

  ghost predicate Tracks(w: World, input: seq<Event>, pos: nat, refused: seq<nat>, opening: seq<nat>)
  {
    && Trail(input, refused, pos) && Unreadable(input, refused, pos, |refused|)
    && (w.session.state == IDLE ==> w.session.fileName == Buffer(input, refused, pos))
    && (w.info.totalFileLen > 0 ==> Opened(input, opening, pos, w.info))
  }

  lemma OpenedLater(input: seq<Event>, places: seq<nat>, pos: nat, later: nat, info: Info, info': Info)
    requires Opened(input, places, pos, info) && pos <= later
    requires info'.name == info.name && info'.totalFileLen == info.totalFileLen
    ensures Opened(input, places, later, info')
  {
    hide RecvPacket, Accepts, FrameSize, SameIgnoringCase, CString, Buffer;
    TrailLater(input, places, pos, later);
  }

  /** Everything but a control frame with a name leaves the name buffer, the wanted name and the declared size alone. */
  lemma HandleKeepsNames(w: World, r: Receipt)
    requires Inv(w) && Real(r) && !(w.session.state == IDLE && NamedFrame(r))
    ensures var w' := Handle(w, r).0;
            && w'.info.name == w.info.name && w'.info.totalFileLen == w.info.totalFileLen
            && w'.session.fileName == w.session.fileName
            && (!w'.session.isFileEnd && w'.session.state == IDLE ==> w.session.state == IDLE)
  {
    hide Accepts, ScanUnsignedLong, CString, SameName, SizeText, Store, Complete, Busy;
  }

  lemma HandleNamed(w: World, r: Receipt)
    requires Inv(w) && Real(r) && w.session.state == IDLE && NamedFrame(r)
    ensures var (w', status) := Handle(w, r);
            var size, over := FrameSize(r.packet.data), Over(w.session.fileName, r.packet.data);
            && w'.info.name == w.info.name
            && (size.None?
              ==> w'.info == w.info && !w'.session.isFileEnd && w'.session.state == IDLE && w'.session.fileName == over)
            && (size.Some? && status == StatusOk ==>
                  && w'.info.totalFileLen == size.value % U32_SIZE && SameIgnoringCase(w.info.name, CString(over))
                  && !w'.session.isFileEnd && w'.session.state == BUSY)
            && (size.Some? && status != StatusOk
              ==> w'.info == w.info && w'.session.isFileEnd && w'.session.state == DONE)
  {
    hide ScanUnsignedLong, CString, SizeText, SameIgnoringCase, SameName, Accepts, Over, FrameSize, Complete, Busy;
    ControlVerdict(w, r.packet.data);
    NoOther(w, r.packet);
    ControlKeeps(w, r.packet.data);
    NamedOutcome(w, r);
  }

  lemma NamedOutcome(w: World, r: Receipt)
    requires Inv(w) && Real(r) && w.session.state == IDLE && NamedFrame(r)
    ensures var (v, status) := ParseControlFrame(w, r.packet.data);
            && Handle(w, r).1 == status && Handle(w, r).0 == HandleError(v, status)
            && (status == StatusOk ==> v.session.state == BUSY)
            && v.session.errCnt == w.session.errCnt && v.session.isFileEnd == w.session.isFileEnd
  {
    hide ScanUnsignedLong, CString, SizeText, SameName, Accepts, Complete, Busy;
    NoOther(w, r.packet);
  }

  /** One receipt of the stream. */
  lemma HandleTracks(w: World, input: seq<Event>, pos: nat, refused: seq<nat>, opening: seq<nat>)
    returns (refused': seq<nat>, opening': seq<nat>)
    requires Inv(w) && pos <= |input| && Tracks(w, input, pos, refused, opening) && !RecvPacket(input, pos).Starved?
    ensures var r := RecvPacket(input, pos);
            var w' := Handle(w, r).0;
            && (!w'.session.isFileEnd ==> Tracks(w', input, r.next, refused', opening'))
            && (w'.session.isFileEnd ==> Tracks(w'.(session := FreshSession()), input, r.next, [], opening'))
            && (w'.info.totalFileLen > 0 ==> Opened(input, opening', r.next, w'.info))
  {
    hide RecvPacket, Handle, Accepts, Buffer, Over, FrameSize, CString, SameIgnoringCase, Inv;
    InvGood(w);
    var r := RecvPacket(input, pos);
    var w' := Handle(w, r).0;
    refused', opening' := refused, opening;
    if w.session.state == IDLE && NamedFrame(r) {
      HandleNamed(w, r);
      TrailSnoc(input, refused, pos);
      UnreadableSnoc(input, refused, pos);
      if FrameSize(Frame(input, pos)).None? {
        refused' := refused + [pos];
      } else if Handle(w, r).1 == StatusOk {
        opening' := refused + [pos];
      }
    } else {
      HandleKeepsNames(w, r);
    }
    TrailLater(input, refused, pos, r.next);
    if w.info.totalFileLen > 0 && opening' == opening && w'.info.totalFileLen == w.info.totalFileLen {
      OpenedLater(input, opening, pos, r.next, w.info, w'.info);
    }
    FreshTracks(input, r.next);
  }

  lemma UnreadableSnoc(input: seq<Event>, places: seq<nat>, pos: nat)
    requires pos <= |input| && Trail(input, places, pos) && NamedFrame(RecvPacket(input, pos))
    requires Unreadable(input, places, pos, |places|)
    ensures var next := RecvPacket(input, pos).next;
            && Trail(input, places + [pos], next) && Unreadable(input, places + [pos], next, |places|)
            && (FrameSize(Frame(input, pos)).None? ==> Unreadable(input, places + [pos], next, |places| + 1))
  {
    hide RecvPacket, Accepts, FrameSize, Buffer, Over;
    TrailSnoc(input, places, pos);
  }

  lemma FreshTracks(input: seq<Event>, pos: nat)
    ensures Trail(input, [], pos) && Unreadable(input, [], pos, 0) && FreshSession().fileName == Buffer(input, [], pos)
  {
  }

  /** Through every stream the file that was announced last came in a control frame with the wanted name. */
  lemma {:induction false} AnnouncedInStream(w: World, input: seq<Event>, pos: nat, refused: seq<nat>,
                                             opening: seq<nat>)
    returns (places: seq<nat>)
    requires Inv(w) && Good(w) && pos <= |input| && Tracks(w, input, pos, refused, opening)
    ensures var info := Receive(w, input, pos).world.info;
            info.totalFileLen > 0 ==> Opened(input, places, |input|, info)
    decreases |input| - pos
  {
    hide RecvPacket, Handle, Inv, Opened, Trail, Unreadable, Buffer;
    var r := RecvPacket(input, pos);
    if r.Starved? {
      places := opening;
      if w.info.totalFileLen > 0 {
        OpenedLater(input, opening, pos, |input|, w.info, w.info);
      }
    } else {
      HandleKeeps(w, r);
      HandleGood(w, r);
      var w' := Handle(w, r).0;
      var refused', opening' := HandleTracks(w, input, pos, refused, opening);
      if !w'.session.isFileEnd {
        places := AnnouncedInStream(w', input, r.next, refused', opening');
      } else if w'.session.state != DONE {
        places := AnnouncedInStream(w'.(session := FreshSession()), input, r.next, [], opening');
      } else {
        places := opening';
        if w'.info.totalFileLen > 0 {
          OpenedLater(input, opening', r.next, |input|, w'.info, w'.info);
        }
      }
    }
  }

  /**
   After a call that announced a file, the stream holds the control frame that opened it: its size is the declared
   one, and where no frame was refused before it in its session its name is the wanted one, ignoring case.
   */
  lemma WantedFileAnnounced(w: World, input: seq<Event>) returns (places: seq<nat>)
    requires Starting(w) && Receive(w, input, 0).world.info.totalFileLen > 0
    ensures Opened(input, places, |input|, Receive(w, input, 0).world.info)
    ensures |places| == 1 ==>
              SameIgnoringCase(Receive(w, input, 0).world.info.name, FrameName(Frame(input, places[0])))
  {
    hide RecvPacket, Receive, Inv, FrameSize, SameIgnoringCase, CString, FrameName;
    StartingInv(w);
    FreshTracks(input, 0);
    places := AnnouncedInStream(w, input, 0, [], []);
    if |places| == 1 {
      OneFrame(input, places, |input|);
    }
  }

  lemma OneFrame(input: seq<Event>, places: seq<nat>, pos: nat)
    requires |places| == 1 && Trail(input, places, pos)
    ensures CString(Buffer(input, places, pos)) == FrameName(Frame(input, places[0]))
  {
    hide RecvPacket, CString, FrameName;
    var zeros: seq<U8> := seq(65, _ => 0);
    assert places[..0] == [] && places == [] + [places[0]];
    TrailInit(input, places, pos);
    assert Buffer(input, [], places[0]) == zeros;
    assert Buffer(input, places, pos) == Over(zeros, Frame(input, places[0]));
    ShownIsName(zeros, Frame(input, places[0]));
  }

  // ---- A name left over ----

  const NO_SIZE: seq<U8> := [0x61, 0x62] + seq(126, _ => 0)
  const SIZE_FIVE: seq<U8> := [0x78, 0, 0x35, 0x20] + seq(124, _ => 0)

  lemma NoSizeParses()
    ensures |NO_SIZE| == 128 && NO_SIZE[0] != 0 && FrameName(NO_SIZE) == [0x61, 0x62] && FrameSize(NO_SIZE) == None
  {
    hide CString, ScanUnsignedLong, Until;
    var zeros: seq<U8> := seq(125, _ => 0);
    assert NO_SIZE == [0x61, 0x62] + [0] + zeros;
    UntilPrefix([0x61, 0x62], 0, zeros, 64);
    var text := SizeText(NO_SIZE);
    assert NO_SIZE[3..] == zeros;
    assert text == zeros[..|text|];
    EmptyText(text);
  }

  lemma EmptyText(text: seq<U8>)
    requires text == [] || text[0] == 0
    ensures CString(text) == [] && ScanUnsignedLong([]) == None
  {
    assert Spaces([]) == 0 && Digits([]) == 0;
  }

  lemma SizeFiveParses()
    ensures |SIZE_FIVE| == 128 && SIZE_FIVE[0] != 0 && FrameName(SIZE_FIVE) == [0x78] && FrameSize(SIZE_FIVE) == Some(5)
  {
    hide CString, ScanUnsignedLong, Until;
    var zeros: seq<U8> := seq(124, _ => 0);
    assert SIZE_FIVE == [0x78] + [0] + ([0x35, 0x20] + zeros);
    UntilPrefix([0x78], 0, [0x35, 0x20] + zeros, 64);
    assert SIZE_FIVE[2..] == [0x35] + [0x20] + zeros;
    UntilPrefix([0x35], 0x20, zeros, 9);
    NoNul([0x35]);
    ScanFive();
  }

  lemma ScanFive()
    ensures ScanUnsignedLong([0x35]) == Some(5)
  {
    hide ScanUnsignedLong;
    ScanReads([], [], [0x35], []);
    assert [] + ([] + ([0x35] + [])) == [0x35];
    assert Decimal([0x35]) == 5 by { assert [0x35][..0] == [] && Decimal([]) == 0; }
  }

  /** A frame for "ab" without a size, then one for "x": it opens the wanted file "xb". */
  lemma LeftOverName(w: World)
    requires Starting(w) && w.info.name == [0x78, 0x62]
    ensures var (w1, status) := ParseControlFrame(w, NO_SIZE);
            && status == StatusInvalidData && Good(w1) && ParseControlFrame(w1, SIZE_FIVE).1 == StatusOk
            && FrameName(SIZE_FIVE) == [0x78] && !SameIgnoringCase(w1.info.name, FrameName(SIZE_FIVE))
  {
    hide ParseControlFrame, FrameName, FrameSize;
    NoSizeParses();
    SizeFiveParses();
    ControlVerdict(w, NO_SIZE);
    ControlGood(w, NO_SIZE);
    var w1 := ParseControlFrame(w, NO_SIZE).0;
    ControlVerdict(w1, SIZE_FIVE);
    var buffer := Over(w1.session.fileName, SIZE_FIVE);
    var rest := buffer[2..];
    assert buffer == [0x78, 0x62] + rest && rest[0] == 0;
    CStringPrefix([0x78, 0x62], rest);
  }
}
