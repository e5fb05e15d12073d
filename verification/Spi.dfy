/**
 The SPI transfer of demos/ascend310b/bsp/spi_1911_transfer.c, with the transmit line looped back to the receive line.
 */
module Spi {
  import opened Bits

  // ---- Bit order ----

  /** Bit `i` of `x` and all above it. */
  function Above(x: nat, i: nat): nat
  {
    if i == 0 then x else Above(x / 2, i - 1)
  }

  /** The low `k` bits of `x` in the opposite order. */
  function Reverse(k: nat, x: nat): (r: nat)
    ensures r < Pow2(k)
  {
    if k == 0 then 0 else if x % 2 == 1 then Pow2(k - 1) + Reverse(k - 1, x / 2) else Reverse(k - 1, x / 2)
  }

  lemma {:induction false} AboveNext(x: nat, i: nat)
    ensures Above(x, i + 1) == Above(x, i) / 2
  {
    if i > 0 {
      AboveNext(x / 2, i - 1);
    }
  }

  lemma {:induction false} ReverseNext(k: nat, x: nat)
    ensures Reverse(k + 1, x) == 2 * Reverse(k, x) + Above(x, k) % 2
  {
    if k > 0 {
      ReverseNext(k - 1, x / 2);
    }
  }

  /** Bit `i` of the reversed word is bit `k - 1 - i` of the word. */
  lemma {:induction false} ReverseBits(k: nat, x: nat, i: nat)
    requires i < k
    ensures Above(Reverse(k, x), i) % 2 == Above(x, k - 1 - i) % 2
  {
    ReverseNext(k - 1, x);
    if i > 0 {
      ReverseBits(k - 1, x, i - 1);
    }
  }

  lemma {:induction false} ReverseTop(k: nat, top: bool, low: nat)
    requires low < Pow2(k)
    ensures Reverse(k + 1, if top then Pow2(k) + low else low) == 2 * Reverse(k, low) + if top then 1 else 0
  {
    if k > 0 {
      ReverseTop(k - 1, top, low / 2);
      TopHalves(k, low);
    }
  }

  lemma TopHalves(k: nat, low: nat)
    requires k > 0 && low < Pow2(k)
    ensures (Pow2(k) + low) / 2 == Pow2(k - 1) + low / 2 && (Pow2(k) + low) % 2 == low % 2 && low / 2 < Pow2(k - 1)
  {
  }

  /** Reversing twice gives the word back. */
  lemma {:induction false} ReverseInvolution(k: nat, x: nat)
    requires x < Pow2(k)
    ensures Reverse(k, Reverse(k, x)) == x
  {
    if k > 0 {
      ReverseInvolution(k - 1, x / 2);
      ReverseTop(k - 1, x % 2 == 1, Reverse(k - 1, x / 2));
    }
  }

  /** SpiDataConvert8, 16 and 32: the same loop on three word sizes. */
  method SpiDataConvert(width: nat, data: nat) returns (result: nat)
    ensures result == Reverse(width, data)
  {
    var rest := data;
    result := 0;
    for i := 0 to width
      invariant result == Reverse(i, data) && rest == Above(data, i)
    {
      ReverseNext(i, data);
      AboveNext(data, i);
      result := 2 * result;
      if rest % 2 != 0 {
        result := result + 1;
      }
      rest := rest / 2;
    }
  }

  // ---- Words on the line ----

  ghost function Line(width: nat, lsbFirst: bool, x: nat): nat
  {
    if lsbFirst then Reverse(width, x) else x
  }

  function Bit(x: nat, i: nat): nat
  {
    x / Pow2(i) % 2
  }

  /** `y` carries the bits of `x` in the order asked for: as they are, or mirrored when the lowest bit goes first. */
  ghost predicate OnLine(width: nat, lsbFirst: bool, x: nat, y: nat)
  {
    y < Pow2(width) && forall i :: 0 <= i < width ==> Bit(y, i) == Bit(x, if lsbFirst then width - 1 - i else i)
  }

  lemma {:induction false} AboveIsQuotient(x: nat, i: nat)
    ensures Above(x, i) == x / Pow2(i)
  {
    if i > 0 {
      AboveIsQuotient(x / 2, i - 1);
      HalveQuotient(x, Pow2(i - 1));
    }
  }

  lemma LineIsOnLine(width: nat, lsbFirst: bool, x: nat)
    requires x < Pow2(width)
    ensures OnLine(width, lsbFirst, x, Line(width, lsbFirst, x))
  {
    hide Above, Reverse, Pow2;
    if lsbFirst {
      forall i | 0 <= i < width ensures Bit(Reverse(width, x), i) == Bit(x, width - 1 - i) {
        ReverseBits(width, x, i);
        AboveIsQuotient(Reverse(width, x), i);
        AboveIsQuotient(x, width - 1 - i);
      }
    }
  }

  ghost function Lines(width: nat, lsbFirst: bool, xs: seq<nat>): (r: seq<nat>)
    ensures |r| == |xs|
  {
    seq(|xs|, i requires 0 <= i < |xs| => Line(width, lsbFirst, xs[i]))
  }

  function Min(a: nat, b: nat): nat
  {
    if a < b then a else b
  }

  /** What the interrupt status says, and how many words the line moves before each FIFO poll of the two loops. */
  datatype Irq = Irq(rxIrq: bool, txIrq: bool, rxMoves: seq<nat>, txMoves: seq<nat>)

  function Moves(moves: seq<nat>, i: nat): nat
  {
    if i < |moves| then moves[i] else 0
  }

  class Device {
    const width: nat
    const lsbFirst: bool
    const fifoDepth: nat

    /**
     The buffers, word by word; `hasTx` and `hasRx` are false for NULL. The positions are how far the pointers moved.
     */
    const hasTx: bool
    const hasRx: bool
    const txBuf: seq<nat>
    const rxBuf: array<nat>
    var txPos: nat
    var rxPos: nat
    var txCnt: nat
    var rxCnt: nat

    /** The hardware: two FIFOs joined by the looped line, its overflow flag and its enable bit. */
    var txFifo: seq<nat>
    var rxFifo: seq<nat>
    var rxOverflow: bool
    var enabled: bool

    /** Whether the receive FIFO was ever full when a word arrived. */
    ghost var lost: bool

    ghost predicate Shape()
      reads this
    {
      && width in {8, 16, 32}
      && (forall i :: 0 <= i < |txBuf| ==> txBuf[i] < Pow2(width))
      && rxBuf.Length == |txBuf|
      && txPos <= |txBuf| && rxPos <= |txBuf| && |rxFifo| <= fifoDepth
      && (hasTx ==> txCnt == |txBuf| - txPos)
      && (hasRx ==> rxCnt == |txBuf| - rxPos)
    }

    /** Words sent are words received plus words in the FIFOs, in order, and what was stored is what was sent. */
    ghost predicate Conserved()
      requires Shape()
      reads this, rxBuf
    {
      && rxPos <= txPos
      && Lines(width, lsbFirst, txBuf[rxPos..txPos]) == rxFifo + txFifo
      && rxBuf[..rxPos] == txBuf[..rxPos]
    }

    /** Each word in the FIFOs, oldest first, carries the bits of its word of the transmit buffer. */
    ghost predicate InFlight()
      reads this
    {
      && rxPos + |rxFifo| + |txFifo| <= |txBuf|
      && forall k :: 0 <= k < |rxFifo| + |txFifo| ==> OnLine(width, lsbFirst, txBuf[rxPos + k], (rxFifo + txFifo)[k])
    }

    lemma ConservedInFlight()
      requires Shape() && Conserved()
      ensures InFlight()
    {
      hide OnLine, Line, Pow2;
      var sent := txBuf[rxPos..txPos];
      forall k | 0 <= k < |rxFifo| + |txFifo| ensures OnLine(width, lsbFirst, txBuf[rxPos + k], (rxFifo + txFifo)[k]) {
        assert Lines(width, lsbFirst, sent)[k] == Line(width, lsbFirst, sent[k]);
        LineIsOnLine(width, lsbFirst, sent[k]);
      }
    }

    ghost predicate Valid()
      reads this, rxBuf
    {
      && Shape()
      && (!lost ==> Conserved() && !rxOverflow)
      && (!lost && !enabled ==> rxCnt == 0)
    }

    constructor (bits: nat, lsb: bool, depth: nat, tx: seq<nat>, rx: array<nat>, txPresent: bool, rxPresent: bool)
      requires bits in {8, 16, 32} && rx.Length == |tx| && forall i :: 0 <= i < |tx| ==> tx[i] < Pow2(bits)
      ensures Valid() && !lost && enabled && txBuf == tx && rxBuf == rx && hasRx == rxPresent && hasTx == txPresent
      ensures width == bits && lsbFirst == lsb && fifoDepth == depth && txPos == rxPos == 0
    {
      width, lsbFirst, fifoDepth, hasTx, hasRx, txBuf, rxBuf := bits, lsb, depth, txPresent, rxPresent, tx, rx;
      txPos, rxPos, txCnt, rxCnt := 0, 0, |tx|, |tx|;
      txFifo, rxFifo, rxOverflow, enabled, lost := [], [], false, true, false;
    }

    /** The line moves one word, and drops it if the receive FIFO is full. */
    method ShiftOne()
      requires Valid() && txFifo != []
      modifies this`txFifo, this`rxFifo, this`rxOverflow, this`lost
      ensures Valid() && (old(lost) ==> lost) && |txFifo| == old(|txFifo|) - 1
      ensures !old(lost) && |txBuf| <= fifoDepth ==> !lost
    {
      hide Lines, Pow2;
      var word := txFifo[0];
      ghost var flying := rxFifo + txFifo;
      txFifo := txFifo[1..];
      if |rxFifo| < fifoDepth {
        rxFifo := rxFifo + [word];
        assert rxFifo + txFifo == flying;
      } else {
        rxOverflow, lost := true, true;
      }
    }

    /** Up to `k` words move, none once the device is disabled. */
    method Shift(k: nat)
      requires Valid()
      modifies this`txFifo, this`rxFifo, this`rxOverflow, this`lost
      ensures Valid() && (old(lost) ==> lost) && (!old(lost) && |txBuf| <= fifoDepth ==> !lost)
      ensures enabled && k >= old(|txFifo|) ==> txFifo == []
      ensures old(txFifo) == [] ==> txFifo == [] && rxFifo == old(rxFifo)
      ensures |txFifo| <= old(|txFifo|)
    {
      hide Conserved, Shape;
      var i := 0;
      while i < k && enabled && txFifo != []
        invariant i <= k && (txFifo == [] || |txFifo| == old(|txFifo|) - i)
        invariant old(txFifo) == [] ==> txFifo == [] && rxFifo == old(rxFifo)
        invariant Valid() && (old(lost) ==> lost) && (!old(lost) && |txBuf| <= fifoDepth ==> !lost)
      {
        ShiftOne();
        i := i + 1;
      }
    }

    /** One turn of the receive loop. */
    method ReceiveOne()
      requires Valid() && hasRx && rxCnt > 0 && rxFifo != []
      modifies this`rxFifo, this`rxPos, this`rxCnt, rxBuf
      ensures Valid() && rxCnt == old(rxCnt) - 1 && rxPos == old(rxPos) + 1
    {
      hide Reverse, Pow2, Lines;
      var data := rxFifo[0];
      if !lost {
        LineHead(width, lsbFirst, txBuf[rxPos..txPos], rxFifo, txFifo);
        LineBack(width, lsbFirst, txBuf[rxPos]);
      }
      rxFifo := rxFifo[1..];
      if lsbFirst {
        data := SpiDataConvert(width, data);
      }
      rxBuf[rxPos] := data % Pow2(width);
      rxPos, rxCnt := rxPos + 1, rxCnt - 1;
    }

    method SpiRxProc(moves: seq<nat>)
      requires Valid()
      modifies this`txFifo, this`rxFifo, this`rxOverflow, this`lost, this`rxPos, this`rxCnt, rxBuf
      ensures Valid() && (old(lost) ==> lost) && (!old(lost) && |txBuf| <= fifoDepth ==> !lost)
      ensures rxPos >= old(rxPos) && rxPos - old(rxPos) <= Min(old(rxCnt), fifoDepth)
      ensures !hasRx ==> rxCnt == 0 && rxPos == old(rxPos)
      ensures hasRx && old(txFifo) == [] && !lost ==> txFifo == [] && rxPos == txPos
    {
      hide Lines, Pow2;
      if rxCnt == 0 || !hasRx {
        rxCnt := 0;
        return;
      }
      var count, polls := Min(rxCnt, fifoDepth), 0;
      Shift(Moves(moves, polls));
      while rxFifo != [] && count > 0
        invariant Valid() && 0 <= count <= rxCnt && (old(lost) ==> lost)
                  && (!old(lost) && |txBuf| <= fifoDepth ==> !lost)
        invariant rxPos == old(rxPos) + Min(old(rxCnt), fifoDepth) - count
        invariant old(txFifo) == [] ==> txFifo == []
        decreases count
      {
        count, polls := count - 1, polls + 1;
        ReceiveOne();
        Shift(Moves(moves, polls));
      }
    }

    /** One turn of the transmit loop. */
    method SendOne()
      requires Valid() && hasTx && txCnt > 0
      modifies this`txFifo, this`txPos, this`txCnt
      ensures Valid() && txCnt == old(txCnt) - 1 && txPos == old(txPos) + 1 && |txFifo| == old(|txFifo|) + 1
      ensures txFifo[..|txFifo| - 1] == old(txFifo)
      ensures OnLine(width, lsbFirst, txBuf[old(txPos)], txFifo[|txFifo| - 1])
    {
      hide Reverse, Pow2, Lines, OnLine;
      var data := txBuf[txPos];
      LineIsOnLine(width, lsbFirst, data);
      if !lost {
        LineSnoc(width, lsbFirst, txBuf[rxPos..txPos], data);
        assert txBuf[rxPos..txPos + 1] == txBuf[rxPos..txPos] + [data];
      }
      if lsbFirst {
        data := SpiDataConvert(width, data);
      }
      txPos, txCnt := txPos + 1, txCnt - 1;
      txFifo := txFifo + [data];
    }

    method SpiTxProc(moves: seq<nat>)
      requires Valid()
      modifies this`txFifo, this`rxFifo, this`rxOverflow, this`lost, this`txPos, this`txCnt
      ensures Valid() && (old(lost) ==> lost) && (!old(lost) && |txBuf| <= fifoDepth ==> !lost)
      ensures txPos >= old(txPos) && txPos - old(txPos) <= Min(old(txCnt), fifoDepth)
      ensures hasTx ==> txCnt == old(txCnt) - (txPos - old(txPos))
      ensures !hasTx ==> txCnt == 0 && txPos == old(txPos)
      ensures !lost ==> InFlight()
      ensures hasTx && old(txCnt) > 0 && old(|txFifo|) < fifoDepth ==> txPos > old(txPos)
    {
      hide Lines, Pow2;
      hide OnLine;
      if txCnt == 0 || !hasTx {
        txCnt := 0;
        if !lost {
          ConservedInFlight();
        }
        return;
      }
      var count, polls := Min(txCnt, fifoDepth), 0;
      Shift(Moves(moves, polls));
      while |txFifo| < fifoDepth && count > 0
        invariant Valid() && 0 <= count <= txCnt && (old(lost) ==> lost)
                  && (!old(lost) && |txBuf| <= fifoDepth ==> !lost)
        invariant txPos == old(txPos) + Min(old(txCnt), fifoDepth) - count
        invariant txPos == old(txPos) ==> |txFifo| <= old(|txFifo|)
        decreases count
      {
        count, polls := count - 1, polls + 1;
        SendOne();
        Shift(Moves(moves, polls));
      }
      if !lost {
        ConservedInFlight();
      }
    }

    ghost predicate Live()
    {
      hasTx && hasRx && fifoDepth > 0
    }

    method SpiIrqHandler(irq: Irq)
      requires Valid()
      modifies this, rxBuf
      ensures Valid() && (old(lost) ==> lost) && (!old(lost) && |txBuf| <= fifoDepth ==> !lost)
      ensures enabled <==> old(enabled) && !old(rxOverflow) && rxCnt > 0
      ensures old(rxOverflow) ==> rxFifo == [] && !rxOverflow && txPos == old(txPos) && rxPos == old(rxPos)
      ensures !irq.rxIrq ==> rxPos == old(rxPos) && rxCnt == old(rxCnt)
      ensures !irq.txIrq ==> txPos == old(txPos)
      ensures Live() && irq.rxIrq && irq.txIrq && old(txFifo) == [] && !lost ==>
                !enabled || (old(txPos) < |txBuf| && txPos > old(txPos))
    {
      hide Lines, Pow2;
      if rxOverflow {
        rxFifo, rxOverflow, enabled := [], false, false;
        return;
      }
      if irq.rxIrq {
        SpiRxProc(irq.rxMoves);
      }
      if rxCnt == 0 {
        enabled := false;
        return;
      }
      if irq.txIrq {
        SpiTxProc(irq.txMoves);
      }
    }

    /**
     Any run: between interrupts the line moves words freely. Unless a word was dropped, the device is
     disabled only with the whole transmit buffer stored, and no word is dropped when the FIFO is deep enough.
     If the line keeps up and both interrupts come, the transfer ends.
     */
    method Run(events: seq<(nat, Irq)>)
      requires Valid() && !lost
      modifies this, rxBuf
      ensures Valid() && (|txBuf| <= fifoDepth ==> !lost)
      ensures !lost ==> rxPos <= txPos && rxBuf[..rxPos] == txBuf[..rxPos] && txPos - rxPos == |rxFifo| + |txFifo|
      ensures !lost ==> InFlight()
      ensures !lost && !enabled && hasRx ==> rxBuf[..] == txBuf
      ensures Live() && !lost && |events| > |txBuf| && (forall e :: e in events ==> Eager(e, |txBuf|)) ==> !enabled
    {
      hide Lines, Pow2, OnLine;
      for i := 0 to |events|
        invariant Valid() && (|txBuf| <= fifoDepth ==> !lost)
        invariant Live() && !lost && (forall e :: e in events ==> Eager(e, |txBuf|)) ==> !enabled || i <= txPos
      {
        assert events[i] in events;
        Shift(events[i].0);
        SpiIrqHandler(events[i].1);
      }
      if !lost {
        ConservedInFlight();
      }
    }
  }

  /** The line empties the transmit FIFO, and then both interrupts are pending. */
  ghost predicate Eager(event: (nat, Irq), n: nat)
  {
    event.0 >= n && event.1.rxIrq && event.1.txIrq
  }

  lemma LineSnoc(width: nat, lsbFirst: bool, xs: seq<nat>, x: nat)
    ensures Lines(width, lsbFirst, xs + [x]) == Lines(width, lsbFirst, xs) + [Line(width, lsbFirst, x)]
  {
  }

  lemma LineHead(width: nat, lsbFirst: bool, xs: seq<nat>, rx: seq<nat>, tx: seq<nat>)
    requires Lines(width, lsbFirst, xs) == rx + tx && rx != []
    ensures xs != [] && rx[0] == Line(width, lsbFirst, xs[0]) && Lines(width, lsbFirst, xs[1..]) == rx[1..] + tx
  {
    assert (rx + tx)[1..] == rx[1..] + tx;
    assert |xs| == |rx + tx|;
    assert Lines(width, lsbFirst, xs)[0] == Line(width, lsbFirst, xs[0]);
    assert Lines(width, lsbFirst, xs[1..]) == Lines(width, lsbFirst, xs)[1..];
  }

  /** Sending and receiving apply the same conversion, so the word comes back whichever the bit order. */
  lemma {:induction false} LineBack(width: nat, lsbFirst: bool, x: nat)
    requires x < Pow2(width)
    ensures Line(width, lsbFirst, Line(width, lsbFirst, x)) % Pow2(width) == x
  {
    hide Reverse, Pow2;
    ReverseInvolution(width, x);
  }
}
