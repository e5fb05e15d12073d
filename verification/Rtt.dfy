/** The RTT terminal of demos/m4/bsp/rtt_viewer.c: one ring the target fills and one it empties. */
module Rtt {
  import opened Bits
  import opened Options

  const OS_OK: U32 := 0
  const OS_ERROR: U32 := 0xFFFF_FFFF
  const RTT_VIEWER_MODE_NO_BLOCK_SKIP: U32 := 0
  const RTT_VIEWER_MODE_NO_BLOCK_TRIM: U32 := 1
  const RTT_VIEWER_MODE_BLOCK_IF_FIFO_FULL: U32 := 2
  const RTT_VIEWER_WB_MAX_NUM: nat := 1
  const RTT_VIEWER_RB_MAX_NUM: nat := 1
  const RTT_VIEWER_WB_BUFFER_SIZE: nat := 1024
  const RTT_VIEWER_RB_BUFFER_SIZE: nat := 16

  function Min(a: nat, b: nat): nat
  {
    if a < b then a else b
  }

  /** a - b on unsigned 32-bit words. */
  function Minus(a: U32, b: U32): U32
  {
    (a + U32_SIZE - b) % U32_SIZE
  }

  lemma MinusIs(a: U32, b: U32)
    ensures Minus(a, b) == if b <= a then a - b else a + U32_SIZE - b
  {
  }

  // ---- The queue a ring stands for ----

  function Advance(i: nat, k: nat, size: nat): nat
    requires i + k < 2 * size
  {
    if i + k < size then i + k else i + k - size
  }

  function Used(r: nat, w: nat, size: nat): (n: nat)
    requires r < size && w < size
    ensures n < size
  {
    if r <= w then w - r else size - r + w
  }

  function Queue(buf: seq<U8>, r: nat, w: nat): (q: seq<U8>)
    requires r < |buf| && w < |buf|
    ensures |q| == Used(r, w, |buf|)
  {
    seq(Used(r, w, |buf|), i requires 0 <= i < |buf| => buf[Advance(r, i, |buf|)])
  }

  function Splice(buf: seq<U8>, at: nat, data: seq<U8>): (r: seq<U8>)
    requires at + |data| <= |buf|
    ensures |r| == |buf|
  {
    seq(|buf|, i requires 0 <= i < |buf| => if at <= i < at + |data| then data[i - at] else buf[i])
  }

  /** Moving the read index takes bytes off the front. */
  lemma QueueDrop(buf: seq<U8>, r: nat, w: nat, k: nat)
    requires r < |buf| && w < |buf| && k <= Used(r, w, |buf|)
    ensures Advance(r, k, |buf|) < |buf|
    ensures Queue(buf, Advance(r, k, |buf|), w) == Queue(buf, r, w)[k..]
  {
  }

  /** The bytes in front of the wrap are the front of the queue. */
  lemma QueueFront(buf: seq<U8>, r: nat, w: nat, k: nat)
    requires r < |buf| && w < |buf| && k <= Used(r, w, |buf|) && r + k <= |buf|
    ensures buf[r..r + k] == Queue(buf, r, w)[..k]
    ensures Advance(r, k, |buf|) < |buf|
    ensures Queue(buf, r, w) == buf[r..r + k] + Queue(buf, Advance(r, k, |buf|), w)
  {
    QueueDrop(buf, r, w, k);
    var q := Queue(buf, r, w);
    assert buf[r..r + k] == q[..k];
    assert q == q[..k] + q[k..];
  }

  /** Where in the data the byte comes from that a write at `w`, running over the end, puts into cell `p`. */
  function Source(p: nat, w: nat, size: nat): nat
    requires p < size && w < size
  {
    if w <= p then p - w else p + size - w
  }

  function Written(buf: seq<U8>, w: nat, data: seq<U8>): (r: seq<U8>)
    requires w < |buf|
    ensures |r| == |buf|
  {
    seq(|buf|, p requires 0 <= p < |buf| => if Source(p, w, |buf|) < |data| then data[Source(p, w, |buf|)] else buf[p])
  }

  lemma OnePiece(buf: seq<U8>, w: nat, data: seq<U8>)
    requires w < |buf| && w + |data| <= |buf|
    ensures Splice(buf, w, data) == Written(buf, w, data)
  {
  }

  lemma TwoPieces(buf: seq<U8>, w: nat, data: seq<U8>)
    requires w < |buf| && |buf| - w <= |data| <= |buf|
    ensures var rem := |buf| - w; Splice(Splice(buf, w, data[..rem]), 0, data[rem..]) == Written(buf, w, data)
  {
  }

  lemma WrittenAgain(buf: seq<U8>, w: nat, data: seq<U8>)
    requires w < |buf|
    ensures Written(Written(buf, w, data), w, data) == Written(buf, w, data)
  {
  }

  /** Bytes put behind the write index stay invisible while the index stands still. */
  lemma QueueHidden(buf: seq<U8>, r: nat, w: nat, data: seq<U8>)
    requires r < |buf| && w < |buf| && Used(r, w, |buf|) + |data| < |buf|
    ensures Queue(Written(buf, w, data), r, w) == Queue(buf, r, w)
  {
    assert forall i :: 0 <= i < Used(r, w, |buf|) ==> Source(Advance(r, i, |buf|), w, |buf|) >= |data|;
  }

  /** Once the index moves past them they are the back of the queue. */
  lemma QueueAppend(buf: seq<U8>, r: nat, w: nat, data: seq<U8>)
    requires r < |buf| && w < |buf| && Used(r, w, |buf|) + |data| < |buf|
    ensures Advance(w, |data|, |buf|) < |buf|
    ensures Queue(Written(buf, w, data), r, Advance(w, |data|, |buf|)) == Queue(buf, r, w) + data
  {
    var n, size := Used(r, w, |buf|), |buf|;
    assert Used(r, Advance(w, |data|, size), size) == n + |data|;
    assert forall i :: 0 <= i < n ==> Source(Advance(r, i, size), w, size) >= |data|;
    assert forall i :: n <= i < n + |data| ==> Source(Advance(r, i, size), w, size) == i - n;
  }

  /** With more data than fits, the unread bytes are overwritten and all that is left is the end of the data. */
  lemma QueueOverrun(buf: seq<U8>, r: nat, w: nat, data: seq<U8>)
    requires r < |buf| && w < |buf| && Used(r, w, |buf|) + |data| >= |buf| >= |data|
    ensures Advance(w, |data|, |buf|) < |buf|
    ensures Queue(Written(buf, w, data), r, Advance(w, |data|, |buf|)) == data[|buf| - Used(r, w, |buf|)..]
  {
    var n, size := Used(r, w, |buf|), |buf|;
    assert Used(r, Advance(w, |data|, size), size) == n + |data| - size;
    assert forall i :: 0 <= i < n + |data| - size ==> Source(Advance(r, i, size), w, size) == size - n + i;
  }

  /** The front of the queue, where it may run over the wrap. */
  lemma QueueSplit(buf: seq<U8>, r: nat, w: nat, k: nat)
    requires r < |buf| && w < |buf| && k <= Used(r, w, |buf|) && r + k > |buf|
    ensures buf[r..] + buf[..r + k - |buf|] == Queue(buf, r, w)[..k]
  {
  }

  /** The host has `taken` and the ring holds `had`; one more round takes `more`, adds `part` and leaves `now`. */
  lemma Regroup(base: seq<U8>, sent: seq<U8>, taken: seq<U8>, had: seq<U8>, more: seq<U8>, part: seq<U8>, now: seq<U8>)
    requires taken + had == base + sent && more + now == had + part
    ensures (taken + more) + now == base + (sent + part)
  {
    assert (taken + more) + now == taken + (had + part);
    assert taken + (had + part) == (base + sent) + part;
  }

  lemma Associate(a: seq<U8>, b: seq<U8>, c: seq<U8>)
    ensures (a + b) + c == a + (b + c)
  {
  }

  /** What each write mode adds to a queue with `free` bytes left. */
  function Accepted(mode: U32, free: nat, data: seq<U8>): seq<U8>
    requires mode != RTT_VIEWER_MODE_BLOCK_IF_FIFO_FULL
  {
    if mode == RTT_VIEWER_MODE_NO_BLOCK_SKIP then
      if |data| <= free then data else []
    else if mode == RTT_VIEWER_MODE_NO_BLOCK_TRIM then
      data[..Min(free, |data|)]
    else
      []
  }

  /** By mode: skip takes all or nothing, trim as much of the front as fits, and an unknown mode nothing. */
  lemma AcceptedIs(mode: U32, free: nat, data: seq<U8>)
    requires mode != 2
    ensures Accepted(mode, free, data) <= data && |Accepted(mode, free, data)| <= free
    ensures mode == 0 ==> Accepted(mode, free, data) == data || (Accepted(mode, free, data) == [] && |data| > free)
    ensures mode == 1 ==> Accepted(mode, free, data) == data || |Accepted(mode, free, data)| == free
    ensures mode > 2 ==> Accepted(mode, free, data) == []
  {
  }

  /**
   How many bytes the host takes before the writer looks at the read index, after its first look, and between its
   copy and its publication.
   */
  datatype HostTurn = HostTurn(before: nat, between: nat, during: nat)

  /** The read index after the host took up to `most` bytes. */
  function Taken(r: nat, w: nat, size: nat, most: nat): (r': nat)
    requires r < size && w < size
    ensures r' < size
  {
    Advance(r, Min(most, Used(r, w, size)), size)
  }

  /** The two looks of GetAvailWriteSpace at the read index see it on different sides of the wrap. */
  predicate Torn(r: nat, w: nat, size: nat, turn: HostTurn)
    requires r < size && w < size
  {
    Taken(r, w, size, turn.before) > w && Taken(r, w, size, turn.before + turn.between) <= w
  }

  /** The space that is free at the second look. */
  function Free(r: nat, w: nat, size: nat, turn: HostTurn): nat
    requires r < size && w < size
  {
    size - 1 - Used(r, w, size) + Min(turn.before + turn.between, Used(r, w, size))
  }

  /**
   A ring of 1024 bytes with 624 unread: the host passes the wrap between the two looks, 523 bytes are free, and a
   skipping write of 1000 bytes goes ahead. It should add nothing to the 500 unread bytes, and leaves 476 others.
   */
  lemma TornSkip(data: seq<U8>)
    requires |data| == 1000
    ensures Torn(900, 500, 1024, HostTurn(0, 124, 0)) && Free(900, 500, 1024, HostTurn(0, 124, 0)) == 523
    ensures Accepted(RTT_VIEWER_MODE_NO_BLOCK_SKIP, 523, data) == []
    ensures Used(Taken(900, 500, 1024, 124), 500, 1024) == 500 && |data[523 + 1..]| == 476
  {
  }

  function FirstTurn(turns: seq<HostTurn>): HostTurn
  {
    if turns == [] then HostTurn(0, 0, 0) else turns[0]
  }

  class Ring {
    const buffer: array<U8>
    var wIdx: U32
    var rIdx: U32

    ghost predicate Valid()
      reads this
    {
      0 < buffer.Length < U32_SIZE && wIdx < buffer.Length && rIdx < buffer.Length
    }

    ghost function Contents(): (s: seq<U8>)
      requires Valid()
      reads this, buffer
      ensures |s| < buffer.Length
    {
      Queue(buffer[..], rIdx, wIdx)
    }

    constructor (size: U32)
      requires size > 0
      ensures Valid() && fresh(buffer) && buffer.Length == size && Contents() == []
    {
      buffer := new U8[size](_ => 0);
      wIdx, rIdx := 0, 0;
    }

    /**
     The source reads the index of the host twice. The result is the space free at the second look exactly when the
     index did not pass the wrap in between.
     */
    method GetAvailWriteSpace(between: nat) returns (freeSize: U32, taken: seq<U8>)
      requires Valid()
      modifies this`rIdx
      ensures Valid() && old(Contents()) == taken + Contents() && |taken| == Min(between, |old(Contents())|)
      ensures rIdx == Taken(old(rIdx), wIdx, buffer.Length, between)
      ensures freeSize == buffer.Length - 1 - |Contents()| <==> !(old(rIdx) > wIdx && rIdx <= wIdx)
      ensures old(rIdx) > wIdx && rIdx <= wIdx ==> freeSize >= U32_SIZE - buffer.Length
    {
      hide Queue, Minus;
      var first := rIdx;
      taken := HostTake(between);
      if first <= wIdx {
        freeSize := buffer.Length - 1 - wIdx + rIdx;
      } else {
        MinusIs(rIdx, wIdx);
        MinusIs(Minus(rIdx, wIdx), 1);
        freeSize := Minus(Minus(rIdx, wIdx), 1);
      }
    }

    method CopyIn(at: nat, data: seq<U8>)
      requires at + |data| <= buffer.Length
      modifies buffer
      ensures buffer[..] == Splice(old(buffer[..]), at, data)
    {
      for i := 0 to |data|
        invariant forall j :: 0 <= j < buffer.Length ==>
                    buffer[j] == if at <= j < at + i then data[j - at] else old(buffer[j])
      {
        buffer[at + i] := data[i];
      }
    }

    /** Copies the data behind the write index, in one or two pieces, without publishing it. */
    method CopyRound(data: seq<U8>) returns (next: U32)
      requires Valid() && |data| <= buffer.Length
      modifies buffer
      ensures buffer[..] == Written(old(buffer[..]), wIdx, data) && next == Advance(wIdx, |data|, buffer.Length)
    {
      hide Splice, Written;
      var rem := buffer.Length - wIdx;
      ghost var b := buffer[..];
      if rem > |data| {
        OnePiece(b, wIdx, data);
        CopyIn(wIdx, data);
        next := wIdx + |data|;
      } else {
        TwoPieces(b, wIdx, data);
        CopyIn(wIdx, data[..rem]);
        CopyIn(0, data[rem..]);
        next := |data| - rem;
      }
    }

    /**
     The host sees the data behind what it has not read yet, if all of it fits; otherwise the data overruns its tail.
     */
    method RingBufferPush(data: seq<U8>, during: nat) returns (taken: seq<U8>)
      requires Valid() && |data| <= buffer.Length
      modifies this, buffer
      ensures Valid()
      ensures |old(Contents())| + |data| < buffer.Length ==> taken + Contents() == old(Contents()) + data
      ensures |old(Contents())| + |data| >= buffer.Length && during == 0 ==>
                taken == [] && Contents() == data[buffer.Length - |old(Contents())|..]
    {
      hide Queue, Written;
      ghost var b, r, c := buffer[..], rIdx, Contents();
      var next := CopyRound(data);
      WrittenAgain(b, wIdx, data);
      if |c| + |data| < buffer.Length {
        QueueHidden(b, r, wIdx, data);
      } else {
        QueueOverrun(b, r, wIdx, data);
      }
      taken := HostTake(during);
      ghost var rest := Contents();
      if |c| + |data| < buffer.Length {
        QueueAppend(buffer[..], rIdx, wIdx, data);
        Associate(taken, rest, data);
      }
      wIdx := next;
    }

    /** RttViewerWrite in one of the modes that do not block, under its lock. */
    method WriteSome(mode: U32, data: seq<U8>, turn: HostTurn) returns (taken: seq<U8>)
      requires Valid() && |data| <= buffer.Length && 2 * buffer.Length < U32_SIZE
      requires mode == RTT_VIEWER_MODE_NO_BLOCK_SKIP || mode == RTT_VIEWER_MODE_NO_BLOCK_TRIM
      modifies this, buffer
      ensures Valid()
      ensures var free := Free(old(rIdx), old(wIdx), buffer.Length, turn);
              !Torn(old(rIdx), old(wIdx), buffer.Length, turn) || |data| <= free ==>
                taken + Contents() == old(Contents()) + Accepted(mode, free, data)
      ensures var free := Free(old(rIdx), old(wIdx), buffer.Length, turn);
              Torn(old(rIdx), old(wIdx), buffer.Length, turn) && |data| > free && turn.during == 0 ==>
                Contents() == data[free + 1..]
    {
      hide Queue, Torn, Free;
      ghost var c := Contents();
      var freeSize, early := LookForSpace(turn);
      ghost var e := Contents();
      var late: seq<U8> := [];
      var part: seq<U8> := if mode == RTT_VIEWER_MODE_NO_BLOCK_TRIM then data[..Min(freeSize, |data|)]
      else if freeSize >= |data| then data else [];
      if mode == RTT_VIEWER_MODE_NO_BLOCK_TRIM || freeSize >= |data| {
        late := RingBufferPush(part, turn.during);
      }
      taken := early + late;
      if late + Contents() == e + part {
        Regroup(c, [], early, e, late, part, Contents());
      }
    }

    /** The host's moves up to the second look at its index, and what the writer makes of them. */
    method LookForSpace(turn: HostTurn) returns (freeSize: U32, taken: seq<U8>)
      requires Valid() && 2 * buffer.Length < U32_SIZE
      modifies this`rIdx
      ensures Valid() && old(Contents()) == taken + Contents()
      ensures |Contents()| == buffer.Length - 1 - Free(old(rIdx), wIdx, buffer.Length, turn)
      ensures if Torn(old(rIdx), wIdx, buffer.Length, turn) then freeSize >= buffer.Length
              else freeSize == Free(old(rIdx), wIdx, buffer.Length, turn)
    {
      hide Queue;
      var early := HostTake(turn.before);
      var mid;
      freeSize, mid := GetAvailWriteSpace(turn.between);
      taken := early + mid;
      Associate(early, mid, Contents());
    }

    /** The host end: it takes up to `most` bytes off the front. */
    method HostTake(most: nat) returns (taken: seq<U8>)
      requires Valid()
      modifies this`rIdx
      ensures Valid() && old(Contents()) == taken + Contents()
      ensures |taken| == Min(most, |old(Contents())|) && rIdx == Taken(old(rIdx), wIdx, buffer.Length, most)
    {
      hide Queue;
      var k := Min(most, Used(rIdx, wIdx, buffer.Length));
      ghost var b, q := buffer[..], Contents();
      QueueDrop(b, rIdx, wIdx, k);
      if rIdx + k <= buffer.Length {
        QueueFront(b, rIdx, wIdx, k);
        taken := buffer[rIdx..rIdx + k];
      } else {
        QueueSplit(b, rIdx, wIdx, k);
        taken := buffer[rIdx..] + buffer[..rIdx + k - buffer.Length];
      }
      assert taken == q[..k] && q == q[..k] + q[k..];
      rIdx := Advance(rIdx, k, buffer.Length);
    }

    /** The bytes of RttViewerRead in front of the wrap. */
    method ReadHead(numBytes: nat) returns (out: seq<U8>, r: U32)
      requires Valid()
      ensures r < buffer.Length && |out| <= numBytes && Contents() == out + Queue(buffer[..], r, wIdx)
      ensures |out| == numBytes || r <= wIdx
      ensures out == [] ==> r == rIdx
    {
      hide Queue;
      out, r := [], rIdx;
      if r > wIdx {
        var numBytesRem := Min(buffer.Length - r, numBytes);
        QueueFront(buffer[..], r, wIdx, numBytesRem);
        out := buffer[r..r + numBytesRem];
        r := r + numBytesRem;
        if r == buffer.Length {
          r := 0;
        }
      }
    }

    /** The bytes of RttViewerRead behind the wrap; the subtraction wraps when the head already filled the request. */
    method ReadTail(from: U32, left: nat) returns (out: seq<U8>, r: U32)
      requires Valid() && from < buffer.Length && (left == 0 || from <= wIdx)
      ensures r < buffer.Length && |out| == Min(|Queue(buffer[..], from, wIdx)|, left)
      ensures Queue(buffer[..], from, wIdx) == out + Queue(buffer[..], r, wIdx)
      ensures out == [] ==> r == from
    {
      hide Queue, Minus;
      out, r := [], from;
      MinusIs(wIdx, r);
      var numBytesRem := Min(Minus(wIdx, r), left);
      if numBytesRem > 0 {
        QueueFront(buffer[..], r, wIdx, numBytesRem);
        out := buffer[r..r + numBytesRem];
        r := r + numBytesRem;
      }
    }

    /** The body of RttViewerRead under its lock. */
    method ReadOut(numBytes: nat) returns (out: seq<U8>)
      requires Valid()
      modifies this`rIdx
      ensures Valid() && old(Contents()) == out + Contents()
      ensures |out| == Min(|old(Contents())|, numBytes)
    {
      hide Queue;
      var head, r := ReadHead(numBytes);
      var tail;
      tail, r := ReadTail(r, numBytes - |head|);
      out := head + tail;
      Associate(head, tail, Queue(buffer[..], r, wIdx));
      if |out| != 0 {
        rIdx := r;
      }
    }

    /** The number of bytes one round of the blocking write may copy: free, contiguous, and still to be sent. */
    method RoundBytes(numBytes: nat) returns (n: nat)
      requires Valid()
      ensures n <= numBytes && wIdx + n <= buffer.Length && |Contents()| + n < buffer.Length
      ensures numBytes > 0 && |Contents()| + 1 < buffer.Length ==> n > 0
    {
      var r := rIdx;
      n := if r > wIdx then r - wIdx - 1 else buffer.Length - (wIdx - r + 1);
      n := Min(n, buffer.Length - wIdx);
      n := Min(n, numBytes);
    }

    /**
     One round of the blocking write, with the host reading before and after the look at its index and after the copy.
     */
    method BlockRound(data: seq<U8>, turn: HostTurn) returns (n: nat, taken: seq<U8>)
      requires Valid()
      modifies this, buffer
      ensures Valid() && n <= |data| && taken + Contents() == old(Contents()) + data[..n]
      ensures turn.before > 0 && buffer.Length > 1 && |data| > 0 ==> n > 0
    {
      hide Queue, Taken;
      ghost var c := Contents();
      var early := HostTake(turn.before);
      n := RoundBytes(|data|);
      var mid := HostTake(turn.between);
      ghost var d := Contents();
      var late := PublishPart(data[..n], turn.during);
      taken := early + mid + late;
      Associate(early, mid, d);
      Regroup(c, [], early + mid, d, late, data[..n], Contents());
    }

    /** The second half of a round: copy, and publish by moving the write index. */
    method PublishPart(part: seq<U8>, during: nat) returns (taken: seq<U8>)
      requires Valid() && wIdx + |part| <= buffer.Length && |Contents()| + |part| < buffer.Length
      modifies this, buffer
      ensures Valid() && taken + Contents() == old(Contents()) + part
    {
      hide Queue, Splice, Written, Taken;
      ghost var b, w := buffer[..], wIdx;
      OnePiece(b, w, part);
      CopyIn(wIdx, part);
      QueueHidden(b, rIdx, w, part);
      taken := HostTake(during);
      Associate(taken, Contents(), part);
      WrittenAgain(b, w, part);
      QueueAppend(buffer[..], rIdx, w, part);
      var next := wIdx + |part|;
      wIdx := if next == buffer.Length then 0 else next;
    }

    /**
     The blocking write, for as many rounds as the host's turns in `turns` last. The host finds the
     old contents followed by the data, in order, whatever it takes and whenever it takes it.
     */
    method RingBufferBlockPush(data: seq<U8>, turns: seq<HostTurn>) returns (numBytesWritten: nat, taken: seq<U8>)
      requires Valid()
      modifies this, buffer
      ensures Valid() && numBytesWritten <= |data|
      ensures taken + Contents() == old(Contents()) + data[..numBytesWritten]
      ensures buffer.Length > 1 && |turns| >= |data| && (forall t :: t in turns ==> t.before > 0)
              ==> numBytesWritten == |data|
    {
      hide Queue;
      numBytesWritten, taken := 0, [];
      var again, round := true, 0;
      while again && round < |turns|
        invariant Valid() && numBytesWritten <= |data| && round <= |turns|
        invariant taken + Contents() == old(Contents()) + data[..numBytesWritten]
        invariant again || numBytesWritten == |data|
        invariant buffer.Length > 1 && (forall t :: t in turns ==> t.before > 0)
                  ==> numBytesWritten >= Min(round, |data|)
        decreases |turns| - round
      {
        ghost var had, sent := Contents(), data[..numBytesWritten];
        var n, more := BlockRound(data[numBytesWritten..], turns[round]);
        assert data[..numBytesWritten + n] == data[..numBytesWritten] + data[numBytesWritten..][..n];
        Regroup(old(Contents()), sent, taken, had, more, data[numBytesWritten..][..n], Contents());
        taken := taken + more;
        numBytesWritten := numBytesWritten + n;
        again := numBytesWritten < |data|;
        round := round + 1;
      }
    }
  }

  class Viewer {
    /** Whether the control block carries its identifier, the two rings and the write mode. */
    var ready: bool
    const up: Ring
    const down: Ring
    var flags: U32

    ghost predicate Valid()
      reads this, up, down
    {
      && up.Valid() && up.buffer.Length == RTT_VIEWER_WB_BUFFER_SIZE
      && down.Valid() && down.buffer.Length == RTT_VIEWER_RB_BUFFER_SIZE
      && up != down && up.buffer != down.buffer
    }

    constructor ()
      ensures Valid() && ready && flags == RTT_VIEWER_MODE_NO_BLOCK_SKIP
      ensures up.Contents() == down.Contents() == []
    {
      up := new Ring(RTT_VIEWER_WB_BUFFER_SIZE);
      down := new Ring(RTT_VIEWER_RB_BUFFER_SIZE);
      ready, flags := true, RTT_VIEWER_MODE_NO_BLOCK_SKIP;
    }

    /** In blocking mode the source spins until the host makes room; `turns` bounds how often it looks. */
    method RttViewerWrite(chn: U32, buffer: Option<seq<U8>>, numBytes: U32, turns: seq<HostTurn>)
      returns (ret: U32, written: nat, taken: seq<U8>)
      requires Valid() && (buffer.Some? ==> numBytes <= |buffer.value|)
      modifies up, up.buffer
      ensures Valid() && (ret == OS_OK || ret == OS_ERROR)
      ensures ret == OS_ERROR <==> !ready || chn >= 1 || buffer == None || numBytes == 0 || numBytes > 1024
      ensures ret != OS_OK ==> taken == [] && up.Contents() == old(up.Contents())
      ensures ret == OS_OK && flags > RTT_VIEWER_MODE_BLOCK_IF_FIFO_FULL ==>
                taken == [] && up.Contents() == old(up.Contents())
      ensures ret == OS_OK && flags in {RTT_VIEWER_MODE_NO_BLOCK_SKIP, RTT_VIEWER_MODE_NO_BLOCK_TRIM} ==>
                var r, w, turn := old(up.rIdx), old(up.wIdx), FirstTurn(turns);
                var free := Free(r, w, RTT_VIEWER_WB_BUFFER_SIZE, turn);
                && (!Torn(r, w, RTT_VIEWER_WB_BUFFER_SIZE, turn) || numBytes <= free ==>
                      taken + up.Contents() == old(up.Contents()) + Accepted(flags, free, buffer.value[..numBytes]))
                && (Torn(r, w, RTT_VIEWER_WB_BUFFER_SIZE, turn) && numBytes > free && turn.during == 0 ==>
                      up.Contents() == buffer.value[free + 1..numBytes])
      ensures ret == OS_OK && flags == RTT_VIEWER_MODE_BLOCK_IF_FIFO_FULL ==>
                written <= numBytes && taken + up.Contents() == old(up.Contents()) + buffer.value[..written]
      ensures ret == OS_OK && flags == RTT_VIEWER_MODE_BLOCK_IF_FIFO_FULL ==>
                |turns| >= numBytes && (forall t :: t in turns ==> t.before > 0) ==> written == numBytes
    {
      written, taken := 0, [];
      if !ready {
        return OS_ERROR, written, taken;
      }
      if chn >= RTT_VIEWER_WB_MAX_NUM || buffer == None || numBytes == 0 || numBytes > RTT_VIEWER_WB_BUFFER_SIZE {
        return OS_ERROR, written, taken;
      }
      var data := buffer.value[..numBytes];
      if flags == RTT_VIEWER_MODE_NO_BLOCK_SKIP || flags == RTT_VIEWER_MODE_NO_BLOCK_TRIM {
        taken := up.WriteSome(flags, data, FirstTurn(turns));
      } else if flags == RTT_VIEWER_MODE_BLOCK_IF_FIFO_FULL {
        written, taken := up.RingBufferBlockPush(data, turns);
      }
      ret := OS_OK;
    }

    /** Reads into `buffer`, of which the first `ret` bytes are written. */
    method RttViewerRead(chn: U32, hasBuffer: bool, numBytes: U32) returns (ret: U32, buffer: seq<U8>)
      requires Valid()
      modifies down`rIdx
      ensures Valid() && old(down.Contents()) == buffer + down.Contents()
      ensures !ready ==> ret == OS_ERROR && buffer == []
      ensures ready && (chn >= 1 || !hasBuffer || numBytes > 16)
              ==> ret == 0 == |buffer|
      ensures ready && chn < 1 && hasBuffer && numBytes <= 16 ==>
                ret == |buffer| == Min(|old(down.Contents())|, numBytes)
    {
      hide Queue;
      buffer := [];
      if !ready {
        return OS_ERROR, buffer;
      }
      if chn >= RTT_VIEWER_RB_MAX_NUM || !hasBuffer || numBytes == 0 || numBytes > RTT_VIEWER_RB_BUFFER_SIZE {
        return 0, buffer;
      }
      buffer := down.ReadOut(numBytes);
      ret := |buffer|;
    }
  }
}
