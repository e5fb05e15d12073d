/** The transmit side of demos/ascend310b/bsp/i2c_1911_transfer.c, driven by interrupts. */
module I2c {
  import opened Bits
  import opened Options

  /** `len` bytes of `buf` are to be sent; a missing `buf` is the NULL pointer. */
  datatype Msg = Msg(read: bool, len: U16, buf: Option<seq<U8>>)

  /** What one write to the transmit FIFO carries. */
  datatype Word = Word(data: U8, read: bool, stop: bool, restart: bool)

  ghost predicate Buffered(msgs: seq<Msg>)
  {
    forall i :: 0 <= i < |msgs| && msgs[i].buf.Some? ==> msgs[i].len <= |msgs[i].buf.value|
  }

  ghost predicate Present(msgs: seq<Msg>, i: nat)
    requires i <= |msgs|
  {
    forall k :: 0 <= k < i ==> msgs[k].buf.Some?
  }

  function Max(a: int, b: int): int
  {
    if a < b then b else a
  }

  // ---- The flattened messages ----

  ghost function MsgWords(msgs: seq<Msg>, i: nat): (w: seq<Word>)
    requires Buffered(msgs) && i < |msgs| && msgs[i].buf.Some?
    ensures |w| == msgs[i].len
  {
    var m := msgs[i];
    seq(m.len, j requires 0 <= j < m.len =>
      Word(m.buf.value[j], m.read, i == |msgs| - 1 && j == m.len - 1, i > 0 && j == 0))
  }

  ghost function Flat(msgs: seq<Msg>, i: nat): seq<Word>
    requires Buffered(msgs) && i <= |msgs| && Present(msgs, i)
  {
    if i == 0 then [] else Flat(msgs, i - 1) + MsgWords(msgs, i - 1)
  }

  /** What has been written when byte `j` of message `i` is next. */
  ghost function Sent(msgs: seq<Msg>, i: nat, j: nat): seq<Word>
    requires Buffered(msgs) && i <= |msgs| && Present(msgs, i)
    requires j == 0 || (i < |msgs| && msgs[i].buf.Some? && j <= msgs[i].len)
  {
    if j == 0 then Flat(msgs, i) else Flat(msgs, i) + MsgWords(msgs, i)[..j]
  }

  lemma {:induction false} FlatPrefix(msgs: seq<Msg>, i: nat, n: nat)
    requires Buffered(msgs) && i <= n <= |msgs| && Present(msgs, n)
    ensures Flat(msgs, i) <= Flat(msgs, n)
  {
    if i < n {
      FlatPrefix(msgs, i, n - 1);
    }
  }

  lemma FlatStep(msgs: seq<Msg>, i: nat)
    requires Buffered(msgs) && i < |msgs| && Present(msgs, i + 1)
    ensures Flat(msgs, i + 1) == Flat(msgs, i) + MsgWords(msgs, i)
  {
  }

  lemma PrefixCut(f: seq<Word>, w: seq<Word>, j: nat, whole: seq<Word>)
    requires f + w <= whole && j <= |w|
    ensures f + w[..j] <= whole
  {
  }

  /** Whatever has been written at any time is the beginning of the flattened messages. */
  lemma {:induction false} SentPrefix(msgs: seq<Msg>, i: nat, j: nat)
    requires Buffered(msgs) && i <= |msgs| && Present(msgs, |msgs|)
    requires j == 0 || (i < |msgs| && j <= msgs[i].len)
    ensures Sent(msgs, i, j) <= Flat(msgs, |msgs|)
  {
    hide Flat, MsgWords;
    FlatPrefix(msgs, i, |msgs|);
    if j > 0 {
      FlatPrefix(msgs, i + 1, |msgs|);
      FlatStep(msgs, i);
      PrefixCut(Flat(msgs, i), MsgWords(msgs, i), j, Flat(msgs, |msgs|));
    }
  }

  lemma SentStep(msgs: seq<Msg>, i: nat, j: nat)
    requires Buffered(msgs) && i < |msgs| && Present(msgs, i + 1) && j < msgs[i].len
    ensures Sent(msgs, i, j + 1) == Sent(msgs, i, j) + [MsgWords(msgs, i)[j]]
    ensures MsgWords(msgs, i)[j]
            == Word(msgs[i].buf.value[j], msgs[i].read, i == |msgs| - 1 && j == msgs[i].len - 1, i > 0 && j == 0)
  {
    var w := MsgWords(msgs, i);
    assert w[..j + 1] == w[..j] + [w[j]];
    assert Flat(msgs, i) + (w[..j] + [w[j]]) == Flat(msgs, i) + w[..j] + [w[j]];
  }

  lemma SentWhole(msgs: seq<Msg>, i: nat)
    requires Buffered(msgs) && i < |msgs| && Present(msgs, i + 1)
    ensures Sent(msgs, i, msgs[i].len) == Sent(msgs, i + 1, 0)
  {
    var w := MsgWords(msgs, i);
    assert w[..|w|] == w;
    if |w| == 0 {
      assert Flat(msgs, i) + w == Flat(msgs, i);
    }
  }

  // ---- Where STOP and RESTART stand ----

  /** The data and direction are those of the messages, in order: byte `j` of message `i` is where it should be. */
  lemma {:induction false} FlatAt(msgs: seq<Msg>, n: nat, i: nat, j: nat)
    requires Buffered(msgs) && i < n <= |msgs| && Present(msgs, n) && j < msgs[i].len
    ensures |Flat(msgs, i)| + j < |Flat(msgs, n)|
    ensures Flat(msgs, n)[|Flat(msgs, i)| + j] == MsgWords(msgs, i)[j]
    ensures var word := Flat(msgs, n)[|Flat(msgs, i)| + j];
            word.data == msgs[i].buf.value[j] && word.read == msgs[i].read
  {
    if i < n - 1 {
      FlatAt(msgs, n - 1, i, j);
    }
  }

  /** Every word of the flattened messages is some byte of some message. */
  lemma {:induction false} FlatFrom(msgs: seq<Msg>, n: nat, k: nat) returns (i: nat, j: nat)
    requires Buffered(msgs) && n <= |msgs| && Present(msgs, n) && k < |Flat(msgs, n)|
    ensures i < n && j < msgs[i].len && k == |Flat(msgs, i)| + j
    ensures Flat(msgs, n)[k] == MsgWords(msgs, i)[j]
  {
    if k < |Flat(msgs, n - 1)| {
      i, j := FlatFrom(msgs, n - 1, k);
    } else {
      i, j := n - 1, k - |Flat(msgs, n - 1)|;
    }
  }

  /** STOP is on the very last word and nowhere else, and it is there exactly when the last message is not empty. */
  lemma StopExactlyLast(msgs: seq<Msg>, k: nat)
    requires Buffered(msgs) && Present(msgs, |msgs|) && k < |Flat(msgs, |msgs|)|
    ensures Flat(msgs, |msgs|)[k].stop <==> k == |Flat(msgs, |msgs|)| - 1 && msgs[|msgs| - 1].len > 0
  {
    var n := |msgs|;
    var i, j := FlatFrom(msgs, n, k);
    FlatPrefix(msgs, i + 1, n);
    assert |Flat(msgs, n)| == |Flat(msgs, n - 1)| + msgs[n - 1].len;
    if i < n - 1 {
      FlatPrefix(msgs, i + 1, n - 1);
    }
  }

  /** RESTART is exactly on the first byte of each later message that has one. */
  lemma RestartExactlyFirst(msgs: seq<Msg>, k: nat)
    requires Buffered(msgs) && Present(msgs, |msgs|) && k < |Flat(msgs, |msgs|)|
    ensures Flat(msgs, |msgs|)[k].restart
            <==> exists i: nat :: 0 < i < |msgs| && msgs[i].len > 0 && k == |Flat(msgs, i)|
  {
    var n := |msgs|;
    var i, j := FlatFrom(msgs, n, k);
    if Flat(msgs, n)[k].restart {
      assert 0 < i < |msgs| && msgs[i].len > 0 && k == |Flat(msgs, i)|;
    }
    if m: nat :| 0 < m < n && msgs[m].len > 0 && k == |Flat(msgs, m)| {
      FlatAt(msgs, n, m, 0);
    }
  }

  // ---- When a transmit interrupt comes back ----

  /** The first message from `i` on without a buffer, or the number of messages. */
  ghost function FirstMissing(msgs: seq<Msg>, i: nat): (n: nat)
    requires i <= |msgs|
    ensures i <= n <= |msgs| && (n < |msgs| ==> msgs[n].buf.None?)
    ensures Present(msgs, i) ==> Present(msgs, n)
    decreases |msgs| - i
  {
    if i == |msgs| || msgs[i].buf.None? then i else FirstMissing(msgs, i + 1)
  }

  /**
   After the round that handles message `i + a`, or a message it is stuck at before, `words` words would be spent:
   they are no more than the messages up to there hold.
   */
  ghost predicate Spent(msgs: seq<Msg>, i: nat, n: nat, words: int, a: nat)
    requires Buffered(msgs) && n <= |msgs| && Present(msgs, n)
  {
    words <= |Flat(msgs, if i + a + 1 < n then i + a + 1 else n)|
  }

  /**
   Exactly when the call returns, from message `i` with `w` words written. Either the budget covers everything up to
   the end or the first missing buffer, with an answer for each message passed; or some answer is "full" at a time
   when the budget is spent. A negative budget is never spent.
   */
  ghost predicate Returns(msgs: seq<Msg>, i: nat, w: nat, limit: int, full: seq<bool>)
    requires Buffered(msgs) && i <= |msgs| && Present(msgs, i)
  {
    var n := FirstMissing(msgs, i);
    || (w + Max(0, limit) >= |Flat(msgs, n)| && i + |full| >= n)
    || (limit >= 0 && exists a :: 0 <= a < |full| && full[a] && Spent(msgs, i, n, w + limit, a))
  }

  /** The rounds so far each passed a message, or the budget ran out inside message `m`. */
  ghost predicate Waiting(msgs: seq<Msg>, i: nat, n: nat, m: nat, words: nat, left: int, asked: nat)
    requires Buffered(msgs) && n <= |msgs| && Present(msgs, n) && m <= n
  {
    m == i + asked || (m < i + asked && m < n && left <= 0 && words < |Flat(msgs, m + 1)|)
  }

  ghost predicate NoFullAnswer(msgs: seq<Msg>, i: nat, n: nat, words: int, limit: int, full: seq<bool>, asked: nat)
    requires Buffered(msgs) && n <= |msgs| && Present(msgs, n) && asked <= |full|
  {
    forall a :: 0 <= a < asked && full[a] ==> limit < 0 || !Spent(msgs, i, n, words, a)
  }

  lemma MissingBounds(msgs: seq<Msg>, i: nat, m: nat)
    requires i <= |msgs| && i <= m <= FirstMissing(msgs, i)
    ensures m < |msgs| ==> (msgs[m].buf.None? <==> m == FirstMissing(msgs, i))
    decreases |msgs| - i
  {
    if i < m {
      MissingBounds(msgs, i + 1, m);
    }
  }

  lemma FlatLonger(msgs: seq<Msg>, i: nat, n: nat)
    requires Buffered(msgs) && i <= n <= |msgs| && Present(msgs, n)
    ensures |Flat(msgs, i)| <= |Flat(msgs, n)|
  {
    FlatPrefix(msgs, i, n);
  }

  lemma SentLength(msgs: seq<Msg>, i: nat, j: nat)
    requires Buffered(msgs) && i < |msgs| && Present(msgs, i + 1) && j <= msgs[i].len
    ensures |Sent(msgs, i, j)| == |Flat(msgs, i)| + j && |Flat(msgs, i + 1)| == |Flat(msgs, i)| + msgs[i].len
  {
  }

  /** One round: the budget is spent at its poll exactly when `Spent` says so, and otherwise it passed its message. */
  lemma PollSpent(msgs: seq<Msg>, i: nat, n: nat, w: nat, limit: int, m: nat, m': nat, words: nat, left: int, a: nat)
    requires Buffered(msgs) && n <= |msgs| && Present(msgs, n) && m < n && m <= i + a
    requires w <= words && words - w == limit - left && (left >= 0 || left == limit)
    requires if m' == m then left <= 0 && words < |Flat(msgs, m + 1)| else m' == m + 1 && words == |Flat(msgs, m + 1)|
    requires m == i + a || left <= 0
    ensures left == 0 <==> limit >= 0 && Spent(msgs, i, n, w + limit, a)
  {
    hide Flat;
    var k := if i + a + 1 < n then i + a + 1 else n;
    FlatLonger(msgs, m + 1, k);
  }

  /** What one round and its poll do to the loop's bookkeeping: it goes on, or the call returns. */
  lemma Polled(msgs: seq<Msg>, i: nat, n: nat, w: nat, limit: int, full: seq<bool>, a: nat,
               m: nat, before: nat, left0: int, m': nat, words: nat, left: int)
    requires Buffered(msgs) && i <= |msgs| && Present(msgs, i) && n == FirstMissing(msgs, i) && m < n && a < |full|
    requires Waiting(msgs, i, n, m, before, left0, a) && NoFullAnswer(msgs, i, n, w + limit, limit, full, a)
    requires w <= words && words - w == limit - left && (left >= 0 || left == limit) && (left0 <= 0 ==> left <= 0)
    requires if m' == m then left <= 0 && words < |Flat(msgs, m + 1)| else m' == m + 1 && words == |Flat(msgs, m + 1)|
    requires before <= words && (left0 <= 0 ==> words == before)
    ensures m' <= n && Waiting(msgs, i, n, m', words, left, a + 1)
    ensures if full[a] && left == 0 then Returns(msgs, i, w, limit, full)
            else NoFullAnswer(msgs, i, n, w + limit, limit, full, a + 1)
  {
    hide Flat, FirstMissing, Spent;
    PollSpent(msgs, i, n, w, limit, m, m', words, left, a);
  }

  lemma WaitingStart(msgs: seq<Msg>, i: nat, n: nat, w: nat, limit: int, full: seq<bool>)
    requires Buffered(msgs) && i <= n <= |msgs| && Present(msgs, n)
    ensures Waiting(msgs, i, n, i, w, limit, 0) && NoFullAnswer(msgs, i, n, w + limit, limit, full, 0)
  {
  }

  lemma ReachedEnd(msgs: seq<Msg>, i: nat, n: nat, w: nat, words: seq<Word>, left: int, asked: nat,
                   limit: int, full: seq<bool>)
    requires Buffered(msgs) && i <= |msgs| && Present(msgs, i) && n == FirstMissing(msgs, i)
    requires words == Sent(msgs, n, 0) && Waiting(msgs, i, n, n, |words|, left, asked) && asked <= |full|
    requires w <= |words| && |words| - w == limit - left && (left >= 0 || left == limit)
    ensures words == Flat(msgs, n) && Returns(msgs, i, w, limit, full)
  {
    hide Flat;
  }

  lemma StillWaiting(msgs: seq<Msg>, i: nat, n: nat, m: nat, w: nat, words: nat, left: int, limit: int, full: seq<bool>)
    requires Buffered(msgs) && i <= |msgs| && Present(msgs, i) && n == FirstMissing(msgs, i) && m < n
    requires w <= words && words - w == limit - left && (left >= 0 || left == limit)
    requires Waiting(msgs, i, n, m, words, left, |full|) && NoFullAnswer(msgs, i, n, w + limit, limit, full, |full|)
    ensures !Returns(msgs, i, w, limit, full)
  {
    hide Flat;
    FlatLonger(msgs, m + 1, n);
  }

  /** Whatever the budget, a FIFO that is full at every poll lets the call return. */
  lemma AllFullReturns(msgs: seq<Msg>, i: nat, w: nat, limit: nat, full: seq<bool>)
    requires Buffered(msgs) && i <= |msgs| && Present(msgs, i)
    requires |full| > |msgs| && forall k :: 0 <= k < |full| ==> full[k]
    ensures Returns(msgs, i, w, limit, full)
  {
    hide Flat, FirstMissing;
    var n, a := FirstMissing(msgs, i), |full| - 1;
    assert w + limit <= |Flat(msgs, n)| ==> full[a] && Spent(msgs, i, n, w + limit, a);
  }

  /** With words left over, a FIFO that is never full, or a negative budget, keeps the call from ever returning. */
  lemma NeverReturns(msgs: seq<Msg>, i: nat, w: nat, limit: int, full: seq<bool>)
    requires Buffered(msgs) && i <= |msgs| && Present(msgs, i)
    requires w + Max(0, limit) < |Flat(msgs, FirstMissing(msgs, i))|
    requires limit < 0 || forall k :: 0 <= k < |full| ==> !full[k]
    ensures !Returns(msgs, i, w, limit, full)
  {
  }

  /** One message of two bytes and a budget of one: the call waits for ever on a FIFO that drains at once. */
  lemma DrainedFifoWaits(x: U8, y: U8, polls: nat)
    ensures var msgs := [Msg(false, 2, Some([x, y]))];
            Buffered(msgs) && Present(msgs, 0) && !Returns(msgs, 0, 0, 1, seq(polls, _ => false))
  {
    var msgs := [Msg(false, 2, Some([x, y]))];
    assert FirstMissing(msgs, 0) == 1;
    assert |Flat(msgs, 1)| == |Flat(msgs, 0)| + 2;
    NeverReturns(msgs, 0, 0, 1, seq(polls, _ => false));
  }

  /**
   A FIFO that only drains, so that no answer is "full" after one that is not: with words left over, the first poll
   after the budget is spent decides.
   */
  lemma FirstPollDecides(msgs: seq<Msg>, i: nat, w: nat, limit: nat, full: seq<bool>, a: nat)
    requires Buffered(msgs) && i <= |msgs| && Present(msgs, i)
    requires w + limit < |Flat(msgs, FirstMissing(msgs, i))|
    requires forall j, k :: 0 <= j < k < |full| && full[k] ==> full[j]
    requires Spent(msgs, i, FirstMissing(msgs, i), w + limit, a)
    requires a == 0 || !Spent(msgs, i, FirstMissing(msgs, i), w + limit, a - 1)
    ensures Returns(msgs, i, w, limit, full) <==> a < |full| && full[a]
  {
    hide Flat, FirstMissing;
    var n, words := FirstMissing(msgs, i), w + limit;
    forall b: nat | b < a ensures !Spent(msgs, i, n, words, b) {
      FlatLonger(msgs, if i + b + 1 < n then i + b + 1 else n, if i + a < n then i + a else n);
    }
  }

  // ---- The controller ----

  /** One transmit interrupt: the FIFO budget, and what TxFifoFull answers each time it is asked. */
  datatype Irq = Irq(limit: int, full: seq<bool>)

  class Controller {
    const msgs: seq<Msg>
    var msgTxIdx: nat
    var bufTxIdx: nat
    var msgErr: int
    var txEmptyInt: bool

    /** Everything written to the transmit FIFO. */
    var words: seq<Word>

    ghost predicate Valid()
      reads this
    {
      && Buffered(msgs) && msgTxIdx <= |msgs| && Present(msgs, msgTxIdx)
      && (bufTxIdx == 0 || (msgTxIdx < |msgs| && msgs[msgTxIdx].buf.Some? && bufTxIdx < msgs[msgTxIdx].len))
      && words == Sent(msgs, msgTxIdx, bufTxIdx)
    }

    constructor (messages: seq<Msg>)
      requires Buffered(messages)
      ensures Valid() && msgs == messages && words == [] && msgErr == 0 && txEmptyInt
    {
      msgs, msgTxIdx, bufTxIdx, msgErr, txEmptyInt, words := messages, 0, 0, 0, true, [];
    }

    /** The inner loop: bytes of one message until it or the budget ends. */
    method WriteMessage(maxWrite: int, restart: bool) returns (left: int, needRestart: bool)
      requires Valid() && msgTxIdx < |msgs| && msgs[msgTxIdx].buf.Some?
      requires restart <==> msgTxIdx > 0 && bufTxIdx == 0
      modifies this`bufTxIdx, this`words
      ensures old(bufTxIdx) <= bufTxIdx <= msgs[msgTxIdx].len && words == Sent(msgs, msgTxIdx, bufTxIdx)
              && old(words) <= words
      ensures left == maxWrite - (bufTxIdx - old(bufTxIdx)) && |words| == old(|words|) + (bufTxIdx - old(bufTxIdx))
      ensures bufTxIdx == msgs[msgTxIdx].len || left <= 0
      ensures maxWrite >= 0 ==> left >= 0
      ensures maxWrite < 0 ==> left == maxWrite
      ensures needRestart <==> msgTxIdx > 0 && bufTxIdx == 0
    {
      hide Sent, MsgWords, Flat;
      var currMsg, lastMsg := msgs[msgTxIdx], msgTxIdx == |msgs| - 1;
      left, needRestart := maxWrite, restart;
      while bufTxIdx < currMsg.len && left > 0
        invariant old(bufTxIdx) <= bufTxIdx <= currMsg.len && words == Sent(msgs, msgTxIdx, bufTxIdx)
                  && old(words) <= words
        invariant left == maxWrite - (bufTxIdx - old(bufTxIdx)) && |words| == old(|words|) + (bufTxIdx - old(bufTxIdx))
        invariant left >= 0 || left == maxWrite
        invariant needRestart <==> msgTxIdx > 0 && bufTxIdx == 0
        decreases currMsg.len - bufTxIdx
      {
        SentStep(msgs, msgTxIdx, bufTxIdx);
        var needStop := bufTxIdx == currMsg.len - 1 && lastMsg;
        words := words + [Word(currMsg.buf.value[bufTxIdx], currMsg.read, needStop, needRestart)];
        needRestart := false;
        bufTxIdx := bufTxIdx + 1;
        left := left - 1;
      }
    }

    /** The bytes of one message that the budget allows, and the step to the next message if they were all. */
    method HandleMessage(maxWrite: int, restart: bool) returns (left: int, needRestart: bool)
      requires Valid() && msgTxIdx < |msgs| && msgs[msgTxIdx].buf.Some?
      requires restart ==> msgTxIdx > 0 && bufTxIdx == 0
      modifies this`msgTxIdx, this`bufTxIdx, this`words
      ensures Valid() && old(words) <= words && |words| - old(|words|) == maxWrite - left
      ensures left >= 0 || left == maxWrite
      ensures maxWrite >= 0 ==> left >= 0
      ensures needRestart ==> msgTxIdx > 0 && bufTxIdx == 0
      ensures Present(msgs, old(msgTxIdx) + 1)
      ensures if msgTxIdx == old(msgTxIdx) then left <= 0 && |words| < |Flat(msgs, old(msgTxIdx) + 1)|
              else msgTxIdx == old(msgTxIdx) + 1 && bufTxIdx == 0 && |words| == |Flat(msgs, old(msgTxIdx) + 1)|
    {
      hide Sent, MsgWords, Flat;
      left, needRestart := WriteMessage(maxWrite, restart || (msgTxIdx != 0 && bufTxIdx == 0));
      SentLength(msgs, msgTxIdx, bufTxIdx);
      if bufTxIdx == msgs[msgTxIdx].len {
        SentWhole(msgs, msgTxIdx);
        bufTxIdx := 0;
        msgTxIdx := msgTxIdx + 1;
      }
    }

    /**
     One transmit interrupt: `limit` is the FIFO budget and `full` what TxFifoFull answers each time it is
     asked. The source keeps asking while the budget is spent and the FIFO is not full; `returned` tells
     whether the call came back before the answers ran out, and `Returns` says exactly when it does.
     */
    method TransferMsg(limit: int, full: seq<bool>) returns (returned: bool)
      requires Valid()
      modifies this
      ensures Valid() && old(words) <= words
      ensures |words| - old(|words|) <= Max(0, limit)
      ensures msgTxIdx == |msgs| ==> returned && words == Flat(msgs, |msgs|) && !txEmptyInt
      ensures msgTxIdx < |msgs| ==> txEmptyInt == old(txEmptyInt)
      ensures msgErr == old(msgErr) || (msgErr == -1 && msgTxIdx < |msgs| && msgs[msgTxIdx].buf.None?)
      ensures returned && msgTxIdx < |msgs| && |words| - old(|words|) < Max(0, limit) ==> msgErr == -1
      ensures returned <==> Returns(msgs, old(msgTxIdx), old(|words|), limit, full)
    {
      hide Sent, MsgWords, Flat, Buffered, Present, FirstMissing, Waiting, NoFullAnswer, Returns;
      ghost var i, w, n := msgTxIdx, |words|, FirstMissing(msgs, msgTxIdx);
      var maxWrite, needRestart, asked := limit, false, 0;
      returned := false;
      WaitingStart(msgs, i, n, w, limit, full);
      while msgTxIdx < |msgs| && (msgs[msgTxIdx].buf == None || asked < |full|)
        invariant Valid() && old(words) <= words && asked <= |full| && msgErr == old(msgErr)
                  && txEmptyInt == old(txEmptyInt)
        invariant |words| - w == limit - maxWrite && (maxWrite >= 0 || maxWrite == limit)
        invariant needRestart ==> msgTxIdx > 0 && bufTxIdx == 0
        invariant i <= msgTxIdx <= n && Waiting(msgs, i, n, msgTxIdx, |words|, maxWrite, asked)
        invariant NoFullAnswer(msgs, i, n, w + limit, limit, full, asked)
        decreases |full| - asked
      {
        if msgs[msgTxIdx].buf == None {
          msgErr := -1;
          MissingBounds(msgs, i, msgTxIdx);
          ReachedEnd(msgs, i, n, w, words, maxWrite, asked, limit, full);
          returned := true;
          break;
        }
        MissingBounds(msgs, i, msgTxIdx);
        ghost var m, before, left := msgTxIdx, |words|, maxWrite;
        maxWrite, needRestart := HandleMessage(maxWrite, needRestart);
        Polled(msgs, i, n, w, limit, full, asked, m, before, left, msgTxIdx, |words|, maxWrite);
        asked := asked + 1;
        if full[asked - 1] && maxWrite == 0 {
          returned := true;
          break;
        }
      }
      if msgTxIdx == |msgs| {
        txEmptyInt := false;
        returned := true;
        ReachedEnd(msgs, i, n, w, words, maxWrite, asked, limit, full);
      } else if !returned {
        StillWaiting(msgs, i, n, msgTxIdx, w, |words|, maxWrite, limit, full);
      }
    }

    /**
     Any run of transmit interrupts over present messages: the FIFO has been given a prefix of the flattened
     messages, the whole of it once the last message is passed, and interrupts with room and a FIFO that
     fills each add at least one word until nothing is left.
     */
    method Interrupts(irqs: seq<Irq>)
      requires Valid() && words == [] && msgErr == 0 && Present(msgs, |msgs|)
      modifies this
      ensures Valid() && words <= Flat(msgs, |msgs|)
      ensures msgTxIdx == |msgs| && irqs != [] ==> words == Flat(msgs, |msgs|) && !txEmptyInt
      ensures msgErr == 0
      ensures (forall k :: 0 <= k < |irqs| ==> Roomy(irqs[k], |msgs|))
              ==> |words| >= |irqs| || words == Flat(msgs, |msgs|)
    {
      hide Sent, MsgWords, Flat;
      var k := 0;
      SentPrefix(msgs, msgTxIdx, bufTxIdx);
      while k < |irqs|
        invariant Valid() && k <= |irqs| && msgErr == 0 && words <= Flat(msgs, |msgs|)
        invariant msgTxIdx == |msgs| && k > 0 ==> words == Flat(msgs, |msgs|) && !txEmptyInt
        invariant (forall i :: 0 <= i < k ==> Roomy(irqs[i], |msgs|)) ==> |words| >= k || words == Flat(msgs, |msgs|)
      {
        ghost var i, w := msgTxIdx, |words|;
        var returned := TransferMsg(irqs[k].limit, irqs[k].full);
        if Roomy(irqs[k], |msgs|) {
          AllFullReturns(msgs, i, w, irqs[k].limit, irqs[k].full);
        }
        SentPrefix(msgs, msgTxIdx, bufTxIdx);
        k := k + 1;
      }
    }
  }

  ghost predicate Roomy(irq: Irq, msgs: nat)
  {
    irq.limit > 0 && |irq.full| > msgs && forall k :: 0 <= k < |irq.full| ==> irq.full[k]
  }
}
