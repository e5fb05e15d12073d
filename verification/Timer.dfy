/** The 64-bit cycle counter of demos/d9_secure/src/timer.c, read as two 32-bit halves while it runs. */
module Timer {
  import opened Bits

  function Low(count: U64): U32
  {
    count % U32_SIZE
  }

  function High(count: U64): U32
  {
    count / U32_SIZE
  }

  lemma Halves(count: U64)
    ensures U32_SIZE * High(count) + Low(count) == count
  {
  }

  /**
   The counter's value at each register read: a low half first, then a high and a low half for each turn
   of the loop. It never goes back, and advances less than `bound` between two low reads.
   */
  ghost predicate Running(lows: seq<U64>, highs: seq<U64>, bound: nat)
  {
    && |lows| == |highs| + 1
    && forall k :: 0 <= k < |highs| ==> lows[k] <= highs[k] <= lows[k + 1] && lows[k + 1] - lows[k] < bound
  }

  /** A low half that went down tells that the high half changed; one that did not tells that it stayed. */
  lemma LowTells(before: U64, between: U64, after: U64)
    requires before <= between <= after && after - before < U32_SIZE
    ensures Low(before) <= Low(after) <==> High(before) == High(after)
    ensures Low(before) <= Low(after) ==> High(between) == High(after)
  {
  }

  /**
   The bound is needed. A counter that moves on by 2^32 or more between two low reads may leave the low half no
   smaller; the loop then ends, and its value is wrong exactly when the high half was read before it last changed.
   */
  lemma SlowReadTears(before: U64, between: U64, after: U64)
    requires before <= between <= after && after >= before + U32_SIZE && Low(before) <= Low(after)
    ensures U32_SIZE * High(between) + Low(after) != after <==> High(between) != High(after)
    ensures High(before) != High(after)
  {
    Halves(after);
  }

  /** With gaps under 2^31 a wrap leaves the low half so small that the next turn cannot wrap too. */
  lemma NoSecondWrap(a: U64, b: U64, c: U64)
    requires a <= b <= c && b - a < 0x8000_0000 && c - b < 0x8000_0000
    requires Low(a) > Low(b)
    ensures Low(b) <= Low(c)
  {
    var n := High(a);
    assert High(b) == n + 1;
    assert Low(b) < 0x8000_0000;
    assert Low(c) == Low(b) + (c - b);
  }

  /**
   Reads until the low half has not gone down, as long as the history lasts. The value returned is the
   counter's exact value at the last low read, and with gaps under 2^31 there is at most one retry.
   */
  method PRT_ClkGetCycleCount64(lows: seq<U64>, highs: seq<U64>) returns (done: bool, count: U64, turns: nat)
    requires Running(lows, highs, U32_SIZE) && highs != []
    ensures 0 < turns <= |highs|
    ensures done ==> count == lows[turns]
    ensures done || turns == |highs|
    ensures done <==> Low(lows[turns - 1]) <= Low(lows[turns])
    ensures Running(lows, highs, 0x8000_0000) ==> turns <= 2 && (|highs| >= 2 ==> done)
  {
    hide Low, High;
    var countLow := Low(lows[0]);
    var again, countTmp: U32, countHigh: U32 := true, 0, 0;
    turns := 0;
    while again && turns < |highs|
      invariant turns <= |highs| && countLow == Low(lows[turns])
      invariant turns > 0 || again
      invariant turns > 0 ==> (again <==> Low(lows[turns - 1]) > Low(lows[turns]))
      invariant !again ==> countHigh == High(lows[turns])
      invariant Running(lows, highs, 0x8000_0000) ==> turns <= 2 && (turns == 2 ==> !again)
      decreases |highs| - turns
    {
      LowTells(lows[turns], highs[turns], lows[turns + 1]);
      if turns == 1 && Running(lows, highs, 0x8000_0000) {
        NoSecondWrap(lows[0], lows[1], lows[2]);
      }
      countTmp := countLow;
      countHigh := High(highs[turns]);
      countLow := Low(lows[turns + 1]);
      again := countTmp > countLow;
      turns := turns + 1;
    }
    done, count := !again, 0;
    if done {
      Halves(lows[turns]);
      count := U32_SIZE * countHigh + countLow;
    }
  }
}
