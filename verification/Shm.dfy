/**
 The shared-memory channel of demos/ascend310b/bsp/shm_pub.c: shm_write on one side, shm_read
 triggered by an inter-processor interrupt on the other, interleaved step by step. Every access
 to the shared header, every copied byte and every change of the state word is a step of its own.
 */
module Shm {
  import opened Bits
  import opened Options

  datatype OpType = OpStart | ReadyToRead | ReadEnd

  /** The size of the data area and the messages the writer sends, one shm_write each. */
  datatype Channel = Channel(maxSize: nat, msgs: seq<seq<U8>>)

  /** Where shm_write stands; `off` is the part of the message already handed over. */
  datatype WriterPc = Wait | SetSize | Copy(j: nat) | Publish | SendIpi
  datatype Writer = Start | Sending(off: nat, pc: WriterPc)

  /** Where shm_read stands; `i`, `tmp` and `cnt` are the loop counter, the bytes left and the number of rounds. */
  datatype Reader =
    | Idle
    | ReadLen
    | ShortWait
    | ShortCopy(n: nat, j: nat)
    | ShortEnd
    | LongWait(i: nat, tmp: nat, cnt: nat)
    | LongCopy(i: nat, tmp: nat, cnt: nat, n: nat, j: nat)
    | LongEnd(i: nat, tmp: nat, cnt: nat)

  /**
   `k` counts finished shm_write calls, `received` holds the buffers of finished shm_read calls and `out` that of the
   current one. `pubMsg` and `pubOff` record which part was published last; no step looks at them.
   */
  datatype State = State(
    op: OpType, used: nat, data: seq<U8>, ipis: nat,
    k: nat, writer: Writer,
    reader: Reader, out: seq<U8>, received: seq<seq<U8>>,
    pubMsg: nat, pubOff: nat)

  function Byte(data: seq<U8>, j: nat): U8
  {
    if j < |data| then data[j] else 0
  }

  function Min(a: nat, b: nat): nat { if a < b then a else b }

  // ---- The two programs ----

  /** Where a signed 32-bit number turns negative. */
  const S32_LIMIT: nat := 0x8000_0000

  /** An unsigned 32-bit number as the `int` it is converted to. */
  function Signed(x: nat): int
  {
    if x < S32_LIMIT then x else x - U32_SIZE
  }

  /** The number of bytes raw_memcpy copies, whose count is an `int`. */
  function CopyCount(n: nat): nat
  {
    if n < S32_LIMIT then n else 0
  }

  function WriterStep(c: Channel, s: State): Option<State>
  {
    if s.k >= |c.msgs| then None
    else
      var msg := c.msgs[s.k];
      match s.writer
      case Start => Some(s.(writer := Sending(0, Wait)))
      case Sending(off, pc) =>
        if off > |msg| then None else
        var rem := |msg| - off;
        var short := |msg| < c.maxSize;
        match pc
        case Wait =>
          if s.op == ReadyToRead then None
          else Some(s.(writer := Sending(off, if short then SetSize else Copy(0))))
        case SetSize =>
          Some(s.(used := |msg|, writer := Sending(off, if short then Copy(0) else SendIpi)))
        case Copy(j) =>
          if j < CopyCount(Min(rem, c.maxSize)) && j < |s.data|
          then Some(s.(data := s.data[j := msg[off + j]], writer := Sending(off, Copy(j + 1))))
          else Some(s.(writer := Sending(off, Publish)))
        case Publish =>
          var t := s.(op := ReadyToRead, pubMsg := s.k, pubOff := off);
          if short then Some(t.(writer := Sending(off, SendIpi)))
          else if rem > c.maxSize then
            Some(t.(writer := if off == 0 then Sending(off, SetSize) else Sending(off + c.maxSize, Wait)))
          else Some(t.(writer := Start, k := s.k + 1))
        case SendIpi =>
          var t := s.(ipis := s.ipis + 1);
          if short then Some(t.(writer := Start, k := s.k + 1))
          else Some(t.(writer := Sending(off + c.maxSize, Wait)))
  }

  /** The number of rounds shm_read computes: an unsigned quotient, converted to `int`. */
  function LoopCount(c: Channel, len: nat): int
    requires c.maxSize > 0
  {
    Signed((len + c.maxSize - 1) % U32_SIZE / c.maxSize)
  }

  function ReaderStep(c: Channel, s: State): Option<State>
    requires c.maxSize > 0
  {
    match s.reader
    case Idle =>
      if s.ipis == 0 then None else Some(s.(ipis := s.ipis - 1, reader := ReadLen, out := []))
    case ReadLen =>
      if s.used <= c.maxSize then Some(s.(reader := ShortWait))
      else if LoopCount(c, s.used) <= 0 then Some(s.(reader := Idle, received := s.received + [s.out]))
      else Some(s.(reader := LongWait(0, s.used, LoopCount(c, s.used))))
    case ShortWait =>
      if s.op != ReadyToRead then None else Some(s.(reader := ShortCopy(s.used, 0)))
    case ShortCopy(n, j) =>
      if j < CopyCount(n) then Some(s.(out := s.out + [Byte(s.data, j)], reader := ShortCopy(n, j + 1)))
      else Some(s.(reader := ShortEnd))
    case ShortEnd =>
      Some(s.(op := ReadEnd, reader := Idle, received := s.received + [s.out]))
    case LongWait(i, tmp, cnt) =>
      if s.op != ReadyToRead then None else Some(s.(reader := LongCopy(i, tmp, cnt, Min(tmp, c.maxSize), 0)))
    case LongCopy(i, tmp, cnt, n, j) =>
      if j < CopyCount(n) then Some(s.(out := s.out + [Byte(s.data, j)], reader := LongCopy(i, tmp, cnt, n, j + 1)))
      else Some(s.(reader := LongEnd(i, tmp, cnt)))
    case LongEnd(i, tmp, cnt) =>
      var tmp' := (tmp + U32_SIZE - c.maxSize) % U32_SIZE;
      if i + 1 < cnt then Some(s.(op := ReadEnd, reader := LongWait(i + 1, tmp', cnt)))
      else Some(s.(op := ReadEnd, reader := Idle, received := s.received + [s.out]))
  }

  predicate Initial(c: Channel, s: State)
  {
    && s.op != ReadyToRead && |s.data| == c.maxSize && s.ipis == 0 && s.k == 0
    && s.writer == Start && s.reader == Idle && s.received == []
  }

  /** One step of either side; a side that waits does not move. */
  ghost predicate Next(c: Channel, s: State, s': State)
    requires c.maxSize > 0
  {
    WriterStep(c, s) == Some(s') || ReaderStep(c, s) == Some(s')
  }

  ghost predicate IsRun(c: Channel, run: seq<State>)
    requires c.maxSize > 0
  {
    |run| > 0 && Initial(c, run[0]) && forall i :: 0 < i < |run| ==> Next(c, run[i - 1], run[i])
  }

  // ---- Chunks ----

  /** The number of parts a length is cut into. */
  function Parts(c: Channel, len: nat): nat
    requires c.maxSize > 0
    decreases len
  {
    if len == 0 then 0 else if len <= c.maxSize then 1 else 1 + Parts(c, len - c.maxSize)
  }

  lemma {:induction false} PartsIsQuotient(c: Channel, len: nat)
    requires c.maxSize > 0
    ensures Parts(c, len) == (len + c.maxSize - 1) / c.maxSize
    decreases len
  {
    var m := c.maxSize;
    if len == 0 {
      RemainderIs(m - 1, m, 0, m - 1);
    } else if len <= m {
      RemainderIs(len + m - 1, m, 1, len - 1);
    } else {
      PartsIsQuotient(c, len - m);
      var x := len - 1;
      assert x == x / m * m + x % m;
      MulStep(x / m, m);
      RemainderIs(x + m, m, x / m + 1, x % m);
    }
  }

  /** The lengths whose parts both sides copy and count: copies are below 2^31 bytes, and so is the number of rounds. */
  predicate Counted(c: Channel, len: nat)
  {
    if len <= c.maxSize then len < S32_LIMIT
    else len + c.maxSize - 1 < U32_SIZE && (c.maxSize > 1 || len < S32_LIMIT)
  }

  /**
   Reader and writer agree on the number of parts exactly as long as the reader's sum does not overflow and, with
   one byte to a part, the count stays positive. Otherwise the reader makes too few rounds.
   */
  lemma LoopCountIsParts(c: Channel, len: nat)
    requires 0 < c.maxSize < U32_SIZE && c.maxSize < len < U32_SIZE
    ensures LoopCount(c, len) == Parts(c, len) <==> Counted(c, len)
    ensures LoopCount(c, len) <= Parts(c, len)
  {
    hide Parts;
    PartsIsQuotient(c, len);
    var m, x := c.maxSize, len + c.maxSize - 1;
    if x >= U32_SIZE {
      assert x % U32_SIZE == x - U32_SIZE;
      OneMoreQuotient(x - U32_SIZE, x, m);
    } else if m > 1 {
      FewRounds(x, m);
    }
  }

  lemma FewRounds(x: nat, m: nat)
    requires m > 1 && x < U32_SIZE
    ensures x / m < S32_LIMIT
  {
    var y := x / m;
    MulGap(1, m, y);
    assert y * m <= x;
  }

  /** A message of 2^31 single bytes: the count is negative, and the reader leaves without a round. */
  lemma NegativeLoopCount(c: Channel)
    requires c.maxSize == 1
    ensures LoopCount(c, 0x8000_0000) == -0x8000_0000 && Parts(c, 0x8000_0000) == 0x8000_0000
  {
    hide Parts;
    PartsIsQuotient(c, 0x8000_0000);
  }

  /** A message of two parts whose sum wraps: the count is zero. */
  lemma WrappedLoopCount(c: Channel)
    requires c.maxSize == 0x8000_0000
    ensures LoopCount(c, 0xFFFF_FFFF) == 0 && Parts(c, 0xFFFF_FFFF) == 2
  {
    hide Parts;
    PartsIsQuotient(c, 0xFFFF_FFFF);
  }

  /** The parts but the last hold less than the whole. */
  lemma PartsTight(c: Channel, len: nat)
    requires c.maxSize > 0 && len > 0
    ensures Parts(c, len) > 0 && (Parts(c, len) - 1) * c.maxSize < len
  {
    hide Parts;
    PartsIsQuotient(c, len);
    var m, x := c.maxSize, len - 1;
    MulStep(x / m, m);
    RemainderIs(x + m, m, x / m + 1, x % m);
  }

  lemma OneMoreQuotient(y: nat, x: nat, m: nat)
    requires m > 0 && y + m <= x
    ensures y / m < x / m
  {
    MulStep(y / m, m);
    RemainderIs(y + m, m, y / m + 1, y % m);
    QuotientGrows(y + m, x, m);
  }

  lemma QuotientGrows(x: nat, y: nat, b: nat)
    requires b > 0 && x <= y
    ensures x / b <= y / b
  {
    if y / b < x / b {
      MulGap(y / b, x / b, b);
    }
  }

  // ---- The invariant ----

  /** A message that shm_write announces, and whose length both sides can count. */
  predicate Announced(c: Channel, msg: seq<U8>)
  {
    |msg| != c.maxSize && Counted(c, |msg|)
  }

  /** The data area and all messages have a length of 32 bits. */
  predicate Lengths(c: Channel)
  {
    0 < c.maxSize < U32_SIZE && forall i :: 0 <= i < |c.msgs| ==> |c.msgs[i]| < U32_SIZE
  }

  /** The messages before `q` are announced; message `q`, if there is one, is the first that is not. */
  predicate AnnouncedUpTo(c: Channel, q: nat)
  {
    && Lengths(c) && q <= |c.msgs|
    && (forall i :: 0 <= i < q ==> Announced(c, c.msgs[i]))
    && (q < |c.msgs| ==> !Announced(c, c.msgs[q]))
  }

  /** The part of message `m` that starts at `off`. */
  function Part(c: Channel, m: nat, off: nat): seq<U8>
    requires m < |c.msgs| && off <= |c.msgs[m]|
  {
    c.msgs[m][off..off + Min(|c.msgs[m]| - off, c.maxSize)]
  }

  /** A part that can be copied is at the front of the data area. */
  predicate InData(data: seq<U8>, part: seq<U8>)
  {
    |part| < S32_LIMIT ==> part <= data
  }

  predicate PartOf(c: Channel, m: nat, off: nat)
  {
    m < |c.msgs| && (if |c.msgs[m]| < c.maxSize then off == 0 else off < |c.msgs[m]|)
  }

  predicate LastPart(c: Channel, m: nat, off: nat)
    requires PartOf(c, m, off)
  {
    |c.msgs[m]| - off <= c.maxSize
  }

  /** The writer is between publishing the first part and its interrupt. */
  predicate Announcing(c: Channel, s: State)
  {
    s.writer.Sending? && s.k < |c.msgs|
    && (s.writer.pc == SendIpi || (s.writer.pc == SetSize && |c.msgs[s.k]| >= c.maxSize))
  }

  predicate WriterOk(c: Channel, s: State)
  {
    s.writer.Sending? ==>
      && PartOf(c, s.k, s.writer.off)
      && (match s.writer.pc
         case Wait => true
         case SetSize => s.writer.off == 0 && |c.msgs[s.k]| != c.maxSize
         case Copy(j) => j <= CopyCount(|Part(c, s.k, s.writer.off)|) && InData(s.data, Part(c, s.k, s.writer.off)[..j])
         case Publish => InData(s.data, Part(c, s.k, s.writer.off))
         case SendIpi => s.writer.off == 0 && |c.msgs[s.k]| != c.maxSize && s.used == |c.msgs[s.k]|)
      && (|c.msgs[s.k]| < c.maxSize && s.writer.pc !in {Wait, SetSize} ==> s.used == |c.msgs[s.k]|)
  }

  predicate Resting(s: State, m: nat)
  {
    s.reader == Idle && s.ipis == 0 && |s.received| == m
  }

  predicate LongOk(c: Channel, s: State, m: nat, off: nat, i: nat, tmp: nat, cnt: nat, got: nat)
    requires m < |c.msgs| && c.maxSize > 0
  {
    && c.maxSize < |c.msgs[m]| && Counted(c, |c.msgs[m]|)
    && tmp == |c.msgs[m]| - off && i < cnt && cnt - i == Parts(c, tmp)
    && off + got <= |c.msgs[m]| && s.out == c.msgs[m][..off + got]
  }

  /** The reader works on the part of message `m` at `off`, which is in the data area. */
  predicate Reading(c: Channel, s: State, m: nat, off: nat)
    requires c.maxSize > 0 && PartOf(c, m, off)
  {
    var n := |Part(c, m, off)|;
    && s.ipis == 0 && |s.received| == m
    && match s.reader
       case Idle => false
       case ReadLen => off == 0 && s.out == [] && s.used == |c.msgs[m]|
       case ShortWait => off == 0 && s.out == [] && s.used == n == |c.msgs[m]|
       case ShortCopy(n', j) => off == 0 && n' == n == |c.msgs[m]| && j <= CopyCount(n) && s.out == c.msgs[m][..j]
       case ShortEnd => off == 0 && n == |c.msgs[m]| && s.out == c.msgs[m][..CopyCount(n)]
       case LongWait(i, tmp, cnt) => LongOk(c, s, m, off, i, tmp, cnt, 0)
       case LongCopy(i, tmp, cnt, n', j) => n' == n && j <= n && LongOk(c, s, m, off, i, tmp, cnt, j)
       case LongEnd(i, tmp, cnt) => LongOk(c, s, m, off, i, tmp, cnt, n)
  }

  /** A part is published and not yet read. */
  predicate FullOk(c: Channel, s: State)
    requires c.maxSize > 0
  {
    var m, off := s.pubMsg, s.pubOff;
    && PartOf(c, m, off) && |c.msgs[m]| != c.maxSize
    && InData(s.data, Part(c, m, off))
    && if Announcing(c, s) then s.k == m && off == 0 && Resting(s, m)
       else
         && (if LastPart(c, m, off) then s.k == m + 1 && s.writer in {Start, Sending(0, Wait)}
             else s.k == m && s.writer == Sending(off + c.maxSize, Wait))
         && (Reading(c, s, m, off)
             || (off == 0 && s.reader == Idle && s.ipis == 1 && |s.received| == m && s.used == |c.msgs[m]|))
  }

  /** Everything published has been read. */
  predicate EmptyOk(c: Channel, s: State)
    requires c.maxSize > 0
  {
    && !Announcing(c, s)
    && if s.writer == Start || s.writer.off == 0 then Resting(s, s.k)
       else
         && s.ipis == 0 && |s.received| == s.k && s.k < |c.msgs|
         && s.reader.LongWait? && s.writer.off <= |c.msgs[s.k]|
         && LongOk(c, s, s.k, s.writer.off, s.reader.i, s.reader.tmp, s.reader.cnt, 0)
  }

  /**
   `q` bounds the messages the writer has got to; only a message that was handed over and not yet read may be `q`
   itself.
   */
  predicate Inv(c: Channel, q: nat, s: State)
    requires c.maxSize > 0
  {
    && |s.data| == c.maxSize
    && (s.k <= q || (s.k == q + 1 && s.op == ReadyToRead && s.pubMsg == q))
    && |s.received| <= |c.msgs| && s.received == c.msgs[..|s.received|]
    && WriterOk(c, s)
    && if s.op == ReadyToRead then FullOk(c, s) else EmptyOk(c, s)
  }

  /** A message of exactly `maxSize` bytes was written and never announced: nothing can move any more. */
  predicate Jammed(c: Channel, q: nat, s: State)
  {
    && s.op == ReadyToRead && s.k == q + 1 && s.writer in {Start, Sending(0, Wait)}
    && s.reader == Idle && s.ipis == 0 && q < |c.msgs| && s.received == c.msgs[..q]
    && |c.msgs[q]| == c.maxSize
  }

  /** The reader is in a loop for message `q` that will end with fewer bytes than were sent. */
  predicate TooShort(c: Channel, q: nat, s: State)
    requires q < |c.msgs|
  {
    var len := |c.msgs[q]|;
    match s.reader
    case LongWait(i, tmp, cnt) => i < cnt && |s.out| + (cnt - i) * c.maxSize < len
    case LongCopy(i, tmp, cnt, n, j) =>
      i < cnt && j <= n <= c.maxSize && |s.out| + (n - j) + (cnt - i - 1) * c.maxSize < len
    case LongEnd(i, tmp, cnt) => i < cnt && |s.out| + (cnt - i - 1) * c.maxSize < len
    case _ => false
  }

  /** Message `q` was received with bytes missing, or is about to be. */
  predicate Lost(c: Channel, q: nat, s: State)
  {
    && q < |c.msgs| && |c.msgs[q]| != c.maxSize
    && if |s.received| > q then |s.received[q]| < |c.msgs[q]| else |s.received| == q && TooShort(c, q, s)
  }

  lemma LostKeeps(c: Channel, q: nat, s: State, s': State)
    requires c.maxSize > 0 && Lost(c, q, s) && Next(c, s, s')
    ensures Lost(c, q, s')
  {
    if |s.received| == q {
      match s.reader {
        case LongWait(i, tmp, cnt) => MulStep(cnt - i - 1, c.maxSize);
        case _ =>
      }
    }
  }

  lemma WriterKeeps(c: Channel, q: nat, s: State, s': State)
    requires AnnouncedUpTo(c, q)
    requires Inv(c, q, s) && WriterStep(c, s) == Some(s')
    ensures Inv(c, q, s') || Jammed(c, q, s')
  {
    hide Parts;
    if s.writer.Sending? {
      match s.writer.pc {
        case Wait =>
        case SetSize =>
        case Copy(j) => CopyKeeps(c, q, s, s', j);
        case Publish => PublishKeeps(c, q, s, s');
        case SendIpi =>
      }
    }
  }

  lemma CopyKeeps(c: Channel, q: nat, s: State, s': State, j: nat)
    requires AnnouncedUpTo(c, q) && Inv(c, q, s) && WriterStep(c, s) == Some(s')
    requires s.writer.Sending? && s.writer.pc == Copy(j)
    ensures Inv(c, q, s')
  {
    hide Parts, Reading;
    var part := Part(c, s.k, s.writer.off);
    if j < |part| {
      assert s'.data[..j] == s.data[..j];
      assert part[..j + 1] == part[..j] + [part[j]];
    } else {
      assert part[..j] == part;
    }
  }

  lemma PublishKeeps(c: Channel, q: nat, s: State, s': State)
    requires AnnouncedUpTo(c, q)
    requires Inv(c, q, s) && WriterStep(c, s) == Some(s')
    requires s.writer.Sending? && s.writer.pc == Publish
    ensures Inv(c, q, s') || Jammed(c, q, s')
  {
    hide Parts;
  }

  lemma ReaderKeeps(c: Channel, q: nat, s: State, s': State)
    requires AnnouncedUpTo(c, q)
    requires Inv(c, q, s) && ReaderStep(c, s) == Some(s')
    ensures Inv(c, q, s') || Lost(c, q, s')
  {
    hide Parts, TooShort;
    match s.reader {
      case Idle =>
      case ReadLen => ReadLenKeeps(c, q, s, s');
      case ShortWait =>
      case ShortCopy(n, j) => ReadCopyKeeps(c, q, s, s');
      case ShortEnd => ShortEndKeeps(c, q, s, s');
      case LongWait(i, tmp, cnt) =>
      case LongCopy(i, tmp, cnt, n, j) => ReadCopyKeeps(c, q, s, s');
      case LongEnd(i, tmp, cnt) => LongEndKeeps(c, q, s, s');
    }
  }

  lemma ReadLenKeeps(c: Channel, q: nat, s: State, s': State)
    requires AnnouncedUpTo(c, q) && Inv(c, q, s) && ReaderStep(c, s) == Some(s')
    requires s.reader == ReadLen
    ensures Inv(c, q, s') || Lost(c, q, s')
  {
    hide LoopCount, Parts, TooShort, Counted;
    var len := |c.msgs[s.pubMsg]|;
    if len > c.maxSize {
      LoopCountIsParts(c, len);
      PartsPositive(c, len);
      if !Counted(c, len) {
        assert s.pubMsg == q;
        MiscountLoses(c, q, s, s');
      }
    }
  }

  lemma MiscountLoses(c: Channel, q: nat, s: State, s': State)
    requires Lengths(c) && q < |c.msgs| && c.maxSize < |c.msgs[q]| && !Counted(c, |c.msgs[q]|)
    requires s.reader == ReadLen && s.used == |c.msgs[q]| && s.out == [] && |s.received| == q
    requires ReaderStep(c, s) == Some(s')
    ensures Lost(c, q, s')
  {
    hide LoopCount, Parts, Counted;
    var len, m := |c.msgs[q]|, c.maxSize;
    LoopCountIsParts(c, len);
    PartsTight(c, len);
    if LoopCount(c, len) > 0 {
      var cnt: nat, p: nat := LoopCount(c, len), Parts(c, len) - 1;
      if cnt < p {
        MulGap(cnt, p, m);
      }
    }
  }

  lemma ShortEndKeeps(c: Channel, q: nat, s: State, s': State)
    requires AnnouncedUpTo(c, q) && Inv(c, q, s) && ReaderStep(c, s) == Some(s')
    requires s.reader == ShortEnd
    ensures Inv(c, q, s') || Lost(c, q, s')
  {
    hide Parts;
    var m := s.pubMsg;
    if Announced(c, c.msgs[m]) {
      assert s.out == c.msgs[m];
      MessageEnds(c, q, s, s');
    } else {
      assert m == q;
    }
  }

  lemma PartsPositive(c: Channel, len: nat)
    requires c.maxSize > 0 && len > 0
    ensures Parts(c, len) > 0
    ensures Parts(c, len) == if len <= c.maxSize then 1 else 1 + Parts(c, len - c.maxSize)
    ensures len > c.maxSize ==> Parts(c, len) > 1
  {
  }

  /** One byte of a copy, or its end. */
  lemma ReadCopyKeeps(c: Channel, q: nat, s: State, s': State)
    requires AnnouncedUpTo(c, q) && Inv(c, q, s) && ReaderStep(c, s) == Some(s')
    requires s.reader.ShortCopy? || s.reader.LongCopy?
    ensures Inv(c, q, s')
  {
    hide Parts, WriterOk, Reading, LongOk, Part;
    SidesApart(c, s, s');
    SameWriterOk(c, s, s');
    NotResting(c, s);
    CopyReads(c, s, s');
  }

  lemma NotResting(c: Channel, s: State)
    requires c.maxSize > 0 && (if s.op == ReadyToRead then FullOk(c, s) else EmptyOk(c, s))
    requires s.reader.ShortCopy? || s.reader.LongCopy?
    ensures s.op == ReadyToRead && !Announcing(c, s) && PartOf(c, s.pubMsg, s.pubOff)
            && Reading(c, s, s.pubMsg, s.pubOff)
  {
    hide Parts, Reading, LongOk;
  }

  lemma CopyReads(c: Channel, s: State, s': State)
    requires c.maxSize > 0 && ReaderStep(c, s) == Some(s') && (s.reader.ShortCopy? || s.reader.LongCopy?)
    requires PartOf(c, s.pubMsg, s.pubOff) && Reading(c, s, s.pubMsg, s.pubOff)
    requires InData(s.data, Part(c, s.pubMsg, s.pubOff))
    ensures s' == s.(out := s'.out, reader := s'.reader) && Reading(c, s', s.pubMsg, s.pubOff)
  {
    hide Parts;
    var m, off, j := s.pubMsg, s.pubOff, s.reader.j;
    var part := Part(c, m, off);
    if j < CopyCount(|part|) {
      assert s.data[j] == part[j] == c.msgs[m][off + j];
      assert c.msgs[m][..off + j + 1] == c.msgs[m][..off + j] + [c.msgs[m][off + j]];
    }
  }

  lemma SameWriterOk(c: Channel, s: State, s': State)
    requires s'.writer == s.writer && s'.k == s.k && s'.data == s.data && s'.used == s.used && WriterOk(c, s)
    ensures WriterOk(c, s')
  {
  }

  lemma MessageEnds(c: Channel, q: nat, s: State, s': State)
    requires AnnouncedUpTo(c, q) && Inv(c, q, s) && s.op == ReadyToRead && !Announcing(c, s)
    requires Reading(c, s, s.pubMsg, s.pubOff) && LastPart(c, s.pubMsg, s.pubOff)
    requires s.out == c.msgs[s.pubMsg]
    requires s' == s.(op := ReadEnd, reader := Idle, received := s.received + [s.out])
    ensures Inv(c, q, s')
  {
    hide Parts;
    assert c.msgs[..s.pubMsg + 1] == c.msgs[..s.pubMsg] + [c.msgs[s.pubMsg]];
  }

  lemma LongEndKeeps(c: Channel, q: nat, s: State, s': State)
    requires AnnouncedUpTo(c, q) && Inv(c, q, s) && ReaderStep(c, s) == Some(s')
    requires s.reader.LongEnd?
    ensures Inv(c, q, s')
  {
    hide Parts;
    var m, off := s.pubMsg, s.pubOff;
    var len := |c.msgs[m]|;
    PartsPositive(c, len - off);
    if LastPart(c, m, off) {
      assert Parts(c, len - off) == 1;
      assert c.msgs[m][..len] == c.msgs[m];
      MessageEnds(c, q, s, s');
    } else {
      assert Announced(c, c.msgs[m]);
    }
  }

  lemma JammedKeeps(c: Channel, q: nat, s: State, s': State)
    requires c.maxSize > 0 && Jammed(c, q, s) && Next(c, s, s')
    ensures Jammed(c, q, s')
  {
  }

  lemma InitialInv(c: Channel, q: nat, s: State)
    requires AnnouncedUpTo(c, q) && Initial(c, s)
    ensures Inv(c, q, s)
  {
  }

  // ---- Every run ----

  /** All messages are such that both sides can copy and count their parts. */
  predicate Countable(c: Channel)
  {
    Lengths(c) && forall i :: 0 <= i < |c.msgs| ==> Counted(c, |c.msgs[i]|)
  }

  function FirstBad(c: Channel, i: nat): (q: nat)
    requires i <= |c.msgs|
    ensures i <= q <= |c.msgs|
    ensures forall j :: i <= j < q ==> Announced(c, c.msgs[j])
    ensures q < |c.msgs| ==> !Announced(c, c.msgs[q])
    decreases |c.msgs| - i
  {
    if i == |c.msgs| || !Announced(c, c.msgs[i]) then i else FirstBad(c, i + 1)
  }

  lemma {:induction false} RunInv(c: Channel, run: seq<State>, i: nat)
    requires Lengths(c) && IsRun(c, run) && i < |run|
    ensures var q := FirstBad(c, 0);
            AnnouncedUpTo(c, q) && (Inv(c, q, run[i]) || Jammed(c, q, run[i]) || Lost(c, q, run[i]))
  {
    hide Inv, Jammed, Lost, WriterStep, ReaderStep, Initial, Announced;
    var q := FirstBad(c, 0);
    if i == 0 {
      InitialInv(c, q, run[0]);
    } else {
      RunInv(c, run, i - 1);
      var s, s' := run[i - 1], run[i];
      assert Next(c, s, s');
      if Jammed(c, q, s) {
        JammedKeeps(c, q, s, s');
      } else if Lost(c, q, s) {
        LostKeeps(c, q, s, s');
      } else if WriterStep(c, s) == Some(s') {
        WriterKeeps(c, q, s, s');
      } else {
        ReaderKeeps(c, q, s, s');
      }
    }
  }

  /** Under every interleaving the finished reads are the first messages, whole and in order. */
  lemma ReceivedInOrder(c: Channel, run: seq<State>)
    requires Countable(c) && IsRun(c, run)
    ensures var r := run[|run| - 1].received; r <= c.msgs
  {
    RunInv(c, run, |run| - 1);
  }

  /** The data area is written only when it holds nothing unread and nobody copies out of it. */
  lemma NeverOverwritten(c: Channel, run: seq<State>)
    requires Countable(c) && IsRun(c, run)
    ensures var s := run[|run| - 1];
            s.writer.Sending? && s.writer.pc.Copy? ==>
              s.op != ReadyToRead && !s.reader.ShortCopy? && !s.reader.LongCopy?
  {
    RunInv(c, run, |run| - 1);
  }

  /** When neither side can move, everything has been delivered or a message filled the data area exactly. */
  lemma NotStuck(c: Channel, run: seq<State>)
    requires Countable(c) && IsRun(c, run)
    ensures var s := run[|run| - 1];
            WriterStep(c, s).None? && ReaderStep(c, s).None? ==>
              s.received == c.msgs || exists i :: 0 <= i < |c.msgs| && |c.msgs[i]| == c.maxSize
  {
    RunInv(c, run, |run| - 1);
    var s, q := run[|run| - 1], FirstBad(c, 0);
    if q == |c.msgs| && WriterStep(c, s).None? && ReaderStep(c, s).None? {
      QuietIsDone(c, q, s);
    }
  }

  lemma QuietIsDone(c: Channel, q: nat, s: State)
    requires AnnouncedUpTo(c, q) && q == |c.msgs| && Inv(c, q, s)
    requires WriterStep(c, s).None? && ReaderStep(c, s).None?
    ensures s.received == c.msgs
  {
    hide Parts;
  }

  // ---- Every run comes to an end ----

  /** Steps the writer needs from the wait before the part at which `rem` bytes are left. */
  function PartsWork(c: Channel, rem: nat): nat
    requires c.maxSize > 0
    decreases rem
  {
    if rem <= c.maxSize then rem + 3 else c.maxSize + 3 + PartsWork(c, rem - c.maxSize)
  }

  function MessageWork(c: Channel, len: nat): nat
    requires c.maxSize > 0
  {
    PartsWork(c, len) + 3
  }

  function WorkFrom(c: Channel, k: nat): nat
    requires c.maxSize > 0
    decreases |c.msgs| - k
  {
    if k >= |c.msgs| then 0 else MessageWork(c, |c.msgs[k]|) + WorkFrom(c, k + 1)
  }

  /** Steps left to the writer. */
  function WriterWork(c: Channel, s: State): nat
    requires c.maxSize > 0
  {
    if s.k >= |c.msgs| then 0
    else
      var len, later := |c.msgs[s.k]|, WorkFrom(c, s.k + 1);
      match s.writer
      case Start => MessageWork(c, len) + later
      case Sending(off, pc) =>
        if off > len then 0 else
        var rem := len - off;
        var extra := if off > 0 then 0 else if len < c.maxSize then 1 else 2;
        match pc
        case Wait => PartsWork(c, rem) + (if off == 0 then 2 else 0) + later
        case SetSize => if len < c.maxSize then rem + 4 + later else RestWork(c, rem) + 2 + later
        case Copy(j) => Min(rem, c.maxSize) + 2 - Min(j, Min(rem, c.maxSize)) + RestWork(c, rem) + extra + later
        case Publish => 1 + RestWork(c, rem) + extra + later
        case SendIpi => 1 + RestWork(c, rem) + later
  }

  function RestWork(c: Channel, rem: nat): nat
    requires c.maxSize > 0
  {
    if rem <= c.maxSize then 0 else PartsWork(c, rem - c.maxSize)
  }

  lemma WriterWorks(c: Channel, s: State, s': State)
    requires c.maxSize > 0 && WriterOk(c, s) && WriterStep(c, s) == Some(s')
    ensures WriterWork(c, s') < WriterWork(c, s)
  {
    hide WorkFrom, PartsWork;
    LaterWork(c, s.k + 1);
    if s.writer.Sending? {
      var rem := |c.msgs[s.k]| - s.writer.off;
      PartsWorkStep(c, rem);
      match s.writer.pc {
        case Wait =>
        case SetSize =>
        case Copy(j) =>
        case Publish =>
        case SendIpi =>
      }
    }
  }

  lemma PartsWorkStep(c: Channel, rem: nat)
    requires c.maxSize > 0
    ensures PartsWork(c, rem) == Min(rem, c.maxSize) + 3 + RestWork(c, rem)
  {
  }

  lemma LaterWork(c: Channel, k: nat)
    requires c.maxSize > 0
    ensures WorkFrom(c, k) == if k >= |c.msgs| then 0 else MessageWork(c, |c.msgs[k]|) + WorkFrom(c, k + 1)
  {
  }

  function ReadFrom(c: Channel, m: nat): nat
    requires c.maxSize > 0
    decreases |c.msgs| - m
  {
    if m >= |c.msgs| then 0 else 2 + PartsWork(c, |c.msgs[m]|) + ReadFrom(c, m + 1)
  }

  /** Steps left to the reader. */
  function ReaderWork(c: Channel, s: State): nat
    requires c.maxSize > 0
  {
    var m := |s.received|;
    if s.reader == Idle || m >= |c.msgs| then ReadFrom(c, m)
    else
      var later := ReadFrom(c, m + 1);
      match s.reader
      case ReadLen => 1 + PartsWork(c, |c.msgs[m]|) + later
      case ShortWait => PartsWork(c, |c.msgs[m]|) + later
      case ShortCopy(n, j) => n - Min(j, n) + 2 + later
      case ShortEnd => 1 + later
      case LongWait(i, tmp, cnt) => PartsWork(c, tmp) + later
      case LongCopy(i, tmp, cnt, n, j) => n - Min(j, n) + 2 + RestWork(c, tmp) + later
      case LongEnd(i, tmp, cnt) => 1 + RestWork(c, tmp) + later
  }

  /** What the invariant says about the reader's own variables. */
  predicate ReaderSound(c: Channel, s: State)
    requires c.maxSize > 0
  {
    s.reader != Idle ==>
      && |s.received| < |c.msgs|
      && var len := |c.msgs[|s.received|]|;
         match s.reader
         case ReadLen => s.used == len
         case ShortWait => s.used == len <= c.maxSize
         case ShortCopy(n, j) => j <= n
         case LongWait(i, tmp, cnt) => true
         case LongCopy(i, tmp, cnt, n, j) => j <= n
         case LongEnd(i, tmp, cnt) => 0 < tmp < U32_SIZE && c.maxSize < U32_SIZE && cnt == i + Parts(c, tmp)
         case _ => true
  }

  lemma InvReaderSound(c: Channel, q: nat, s: State)
    requires AnnouncedUpTo(c, q) && (Inv(c, q, s) || Jammed(c, q, s))
    ensures ReaderSound(c, s)
    ensures ReaderStep(c, s).Some? ==> |s.received| < |c.msgs|
  {
    hide Parts, WriterOk;
    if Inv(c, q, s) && s.reader.LongEnd? {
      assert Announced(c, c.msgs[s.pubMsg]);
    }
  }

  lemma ReaderWorks(c: Channel, s: State, s': State)
    requires c.maxSize > 0 && ReaderSound(c, s) && |s.received| < |c.msgs| && ReaderStep(c, s) == Some(s')
    ensures ReaderWork(c, s') < ReaderWork(c, s)
  {
    hide PartsWork, ReadFrom, Parts, LoopCount;
    var m := |s.received|;
    LaterReads(c, m);
    match s.reader {
      case Idle =>
      case ReadLen =>
      case ShortWait => PartsWorkStep(c, |c.msgs[m]|);
      case ShortCopy(n, j) =>
      case ShortEnd =>
      case LongWait(i, tmp, cnt) => PartsWorkStep(c, tmp);
      case LongCopy(i, tmp, cnt, n, j) =>
      case LongEnd(i, tmp, cnt) => PartsPositive(c, tmp);
    }
  }

  lemma LaterReads(c: Channel, m: nat)
    requires c.maxSize > 0
    ensures ReadFrom(c, m) == if m >= |c.msgs| then 0 else 2 + PartsWork(c, |c.msgs[m]|) + ReadFrom(c, m + 1)
  {
  }

  function Work(c: Channel, s: State): nat
    requires c.maxSize > 0
  {
    WriterWork(c, s) + ReaderWork(c, s)
  }

  /** A step of one side leaves the other side's work alone. */
  lemma WorksApart(c: Channel, s: State, s': State)
    requires c.maxSize > 0
    ensures WriterStep(c, s) == Some(s') ==> ReaderWork(c, s') == ReaderWork(c, s)
    ensures ReaderStep(c, s) == Some(s') ==> WriterWork(c, s') == WriterWork(c, s)
  {
    hide PartsWork, ReadFrom, WorkFrom, ReaderWork, WriterWork, LoopCount;
    SidesApart(c, s, s');
    assert s.reader == s'.reader && s.received == s'.received ==> ReaderWork(c, s') == ReaderWork(c, s) by {
      SameReaderWork(c, s, s');
    }
    assert s.writer == s'.writer && s.k == s'.k ==> WriterWork(c, s') == WriterWork(c, s) by {
      SameWriterWork(c, s, s');
    }
  }

  lemma SidesApart(c: Channel, s: State, s': State)
    requires c.maxSize > 0
    ensures WriterStep(c, s) == Some(s') ==> s'.reader == s.reader && s'.received == s.received
    ensures ReaderStep(c, s) == Some(s') ==> s'.writer == s.writer && s'.k == s.k
  {
    hide LoopCount;
  }

  lemma SameReaderWork(c: Channel, s: State, s': State)
    requires c.maxSize > 0
    ensures s.reader == s'.reader && s.received == s'.received ==> ReaderWork(c, s') == ReaderWork(c, s)
  {
    hide PartsWork, ReadFrom;
  }

  lemma SameWriterWork(c: Channel, s: State, s': State)
    requires c.maxSize > 0
    ensures s.writer == s'.writer && s.k == s'.k ==> WriterWork(c, s') == WriterWork(c, s)
  {
    hide PartsWork, WorkFrom;
  }

  lemma StepWorks(c: Channel, q: nat, s: State, s': State)
    requires AnnouncedUpTo(c, q) && (Inv(c, q, s) || Jammed(c, q, s)) && Next(c, s, s')
    ensures Work(c, s') < Work(c, s)
  {
    hide WriterWork, ReaderWork, ReaderStep, Reading, LongOk, ReaderSound, Inv;
    WorksApart(c, s, s');
    if WriterStep(c, s) == Some(s') {
      InvWriterOk(c, q, s);
      WriterWorks(c, s, s');
    } else {
      InvReaderSound(c, q, s);
      ReaderWorks(c, s, s');
    }
  }

  lemma InvWriterOk(c: Channel, q: nat, s: State)
    requires c.maxSize > 0 && (Inv(c, q, s) || Jammed(c, q, s)) && WriterStep(c, s).Some?
    ensures WriterOk(c, s)
  {
  }

  /** No run is longer than the work it started with, so every run ends, and it ends where `NotStuck` says. */
  lemma {:induction false} RunsEnd(c: Channel, run: seq<State>, i: nat)
    requires Countable(c) && IsRun(c, run) && i < |run|
    ensures Work(c, run[i]) + i <= Work(c, run[0])
  {
    hide Work, WriterStep, ReaderStep, Inv, Jammed, Initial;
    if i > 0 {
      RunsEnd(c, run, i - 1);
      RunInv(c, run, i - 1);
      assert Next(c, run[i - 1], run[i]);
      StepWorks(c, FirstBad(c, 0), run[i - 1], run[i]);
    }
  }

  // ---- Exactly when everything is delivered ----

  lemma {:induction false} Drain(c: Channel, run: seq<State>) returns (full: seq<State>)
    requires Countable(c) && IsRun(c, run) && forall i :: 0 <= i < |c.msgs| ==> |c.msgs[i]| != c.maxSize
    ensures IsRun(c, full) && run <= full && full[|full| - 1].received == c.msgs
    decreases Work(c, run[|run| - 1])
  {
    hide Work, Inv, Jammed, Initial;
    var s := run[|run| - 1];
    if WriterStep(c, s).None? && ReaderStep(c, s).None? {
      NotStuck(c, run);
      full := run;
    } else {
      var s' := if WriterStep(c, s).Some? then WriterStep(c, s).value else ReaderStep(c, s).value;
      RunInv(c, run, |run| - 1);
      StepWorks(c, FirstBad(c, 0), s, s');
      full := Drain(c, run + [s']);
    }
  }

  lemma NeverAll(c: Channel, run: seq<State>)
    requires Lengths(c) && IsRun(c, run) && FirstBad(c, 0) < |c.msgs|
    ensures run[|run| - 1].received != c.msgs
  {
    hide WriterStep, ReaderStep, Announced, TooShort;
    RunInv(c, run, |run| - 1);
  }

  /**
   A channel can deliver all its messages exactly when none is as long as the data area, the copies are below 2^31
   bytes, and the reader's number of rounds neither wraps nor turns negative.
   */
  lemma DeliveredExactlyWhen(c: Channel)
    requires Lengths(c)
    ensures (exists run: seq<State> :: IsRun(c, run) && run[|run| - 1].received == c.msgs)
            <==> forall i :: 0 <= i < |c.msgs| ==> |c.msgs[i]| != c.maxSize && Counted(c, |c.msgs[i]|)
  {
    hide WriterStep, ReaderStep, Counted;
    if forall i :: 0 <= i < |c.msgs| ==> |c.msgs[i]| != c.maxSize && Counted(c, |c.msgs[i]|) {
      var s := State(OpStart, 0, seq(c.maxSize, _ => 0), 0, 0, Start, Idle, [], [], 0, 0);
      var full := Drain(c, [s]);
    } else {
      forall run: seq<State> | IsRun(c, run) ensures run[|run| - 1].received != c.msgs {
        NeverAll(c, run);
      }
    }
  }

  /** Two bytes through a data area of two bytes are never delivered. */
  lemma FullMessageLost(x: U8, y: U8, run: seq<State>)
    requires IsRun(Channel(2, [[x, y]]), run)
    ensures run[|run| - 1].received != [[x, y]]
  {
    hide WriterStep, ReaderStep, Counted;
    var c := Channel(2, [[x, y]]);
    assert |c.msgs[0]| == c.maxSize;
    NeverAll(c, run);
  }
}
