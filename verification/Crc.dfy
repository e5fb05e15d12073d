/**
 The CRC of demos/ascend310b/bsp/ymodem.c, against polynomial arithmetic over GF(2).
 A polynomial is the natural number whose binary digits are its coefficients: `Xor` adds
 polynomials and doubling multiplies by x.
 */
module Crc {
  import opened Bits

  const CRC_16_YMODEM_POLY: nat := 0x1021
  const CRC_16_MOST_SIGNIFICANT_BIT: nat := 0x8000

  /** x^16 + x^12 + x^5 + 1, from section 4.2 of the XMODEM/YMODEM Protocol Reference. */
  const P: nat := 0x1_1021

  // ---- The bit loop ----

  function ShiftBit(crc: nat): nat
  {
    if crc >= CRC_16_MOST_SIGNIFICANT_BIT then Xor(2 * crc % 0x1_0000, CRC_16_YMODEM_POLY) else 2 * crc
  }

  function ShiftBits(crc: nat, n: nat): nat
  {
    if n == 0 then crc else ShiftBit(ShiftBits(crc, n - 1))
  }

  function Crc(data: seq<U8>): nat
  {
    if data == [] then 0
    else
      var b: nat := data[|data| - 1];
      ShiftBits(Xor(Crc(data[..|data| - 1]), 256 * b), 8)
  }

  /** YMODEM_CalculateCrc16Ymodem. */
  method CalculateCrc16(data: seq<U8>) returns (crc: U16)
    ensures crc == Crc(data)
  {
    hide Xor, ShiftBit;
    crc := 0;
    var i := 0;
    while i < |data|
      invariant i <= |data| && crc == Crc(data[..i])
    {
      assert data[..i + 1][..i] == data[..i];
      var b: nat := data[i];
      XorBound16(crc, 256 * b);
      crc := Xor(crc, 256 * b);
      ghost var first := crc;
      var j := 0;
      while j < 8
        invariant j <= 8 && crc == ShiftBits(first, j)
      {
        crc := ShiftOnce(crc);
        j := j + 1;
      }
      i := i + 1;
    }
    assert data[..|data|] == data;
  }

  method ShiftOnce(crc: U16) returns (r: U16)
    ensures r == ShiftBit(crc)
  {
    XorBound16(2 * crc % 0x1_0000, CRC_16_YMODEM_POLY);
    hide Xor;
    if crc >= CRC_16_MOST_SIGNIFICANT_BIT {
      r := Xor(2 * crc % 0x1_0000, CRC_16_YMODEM_POLY);
    } else {
      r := 2 * crc;
    }
  }

  lemma XorBound16(a: nat, b: nat)
    requires a < 0x1_0000 && b < 0x1_0000
    ensures Xor(a, b) < 0x1_0000
  {
    assert Pow2(16) == 0x1_0000 by { Pow2Values(); }
    BitwiseBound(XorOp, a, b, 16);
  }

  // ---- Addition of polynomials ----

  lemma {:induction false} XorAssociates(a: nat, b: nat, c: nat)
    ensures Xor(Xor(a, b), c) == Xor(a, Xor(b, c))
    decreases a + b + c
  {
    if a != 0 || b != 0 || c != 0 {
      XorAssociates(a / 2, b / 2, c / 2);
      XorHalves(a, b);
      XorHalves(b, c);
      XorHalves(Xor(a, b), c);
      XorHalves(a, Xor(b, c));
    }
  }

  lemma XorHalves(a: nat, b: nat)
    ensures Xor(a, b) / 2 == Xor(a / 2, b / 2) && Xor(a, b) % 2 == if a % 2 == b % 2 then 0 else 1
    ensures Xor(a, b) == 2 * Xor(a / 2, b / 2) + if a % 2 == b % 2 then 0 else 1
  {
    BitwiseStep(XorOp, a, b);
  }

  lemma XorCommutes(a: nat, b: nat)
    ensures Xor(a, b) == Xor(b, a)
  {
    BitwiseCommutes(XorOp, a, b);
  }

  lemma {:induction false} XorCancels(a: nat, b: nat)
    ensures Xor(a, b) == 0 <==> a == b
    decreases a + b
  {
    if a != 0 || b != 0 {
      XorHalves(a, b);
      XorCancels(a / 2, b / 2);
    }
  }

  lemma XorZero(a: nat)
    ensures Xor(a, 0) == a == Xor(0, a)
  {
    BitwiseZero(XorOp, a);
  }

  lemma XorDoubles(a: nat, b: nat)
    ensures Xor(2 * a, 2 * b) == 2 * Xor(a, b)
  {
    XorHalves(2 * a, 2 * b);
  }

  lemma {:induction false} XorShl(a: nat, b: nat, k: nat)
    ensures Xor(Shl(a, k), Shl(b, k)) == Shl(Xor(a, b), k)
  {
    hide Xor;
    if k != 0 {
      XorShl(a, b, k - 1);
      XorDoubles(Shl(a, k - 1), Shl(b, k - 1));
    }
  }

  /** (a + b) + (b + c) == a + c. */
  lemma XorChain(a: nat, b: nat, c: nat)
    ensures Xor(Xor(a, b), Xor(b, c)) == Xor(a, c)
  {
    hide Xor;
    XorAssociates(a, b, Xor(b, c));
    XorAssociates(b, b, c);
    XorCancels(b, b);
    XorZero(c);
  }

  /** (a + b) + (c + d) == (a + c) + (b + d). */
  lemma XorSwap(a: nat, b: nat, c: nat, d: nat)
    ensures Xor(Xor(a, b), Xor(c, d)) == Xor(Xor(a, c), Xor(b, d))
  {
    hide Xor;
    calc {
      Xor(Xor(a, b), Xor(c, d));
      { XorAssociates(a, b, Xor(c, d)); XorAssociates(b, c, d); XorCommutes(b, c); }
      Xor(a, Xor(Xor(c, b), d));
      { XorAssociates(c, b, d); XorAssociates(a, c, Xor(b, d)); }
      Xor(Xor(a, c), Xor(b, d));
    }
  }

  // ---- Multiples of the generator ----

  /** Product with the generator. */
  function Times(q: nat): nat
  {
    if q == 0 then 0 else Xor(2 * Times(q / 2), if q % 2 == 1 then P else 0)
  }

  ghost predicate Multiple(x: nat)
  {
    exists q: nat :: Times(q) == x
  }

  lemma TimesDouble(q: nat)
    ensures Times(2 * q) == 2 * Times(q)
  {
    hide Xor;
    XorZero(2 * Times(q));
  }

  lemma {:induction false} TimesAdds(q: nat, r: nat)
    ensures Times(Xor(q, r)) == Xor(Times(q), Times(r))
    decreases q + r
  {
    hide Xor;
    if q == 0 {
      XorZero(r);
      XorZero(Times(r));
    } else if r == 0 {
      XorZero(q);
      XorZero(Times(q));
    } else {
      TimesAdds(q / 2, r / 2);
      XorHalves(q, r);
      var a, b := if q % 2 == 1 then P else 0, if r % 2 == 1 then P else 0;
      XorSwap(2 * Times(q / 2), a, 2 * Times(r / 2), b);
      XorDoubles(Times(q / 2), Times(r / 2));
      XorCancels(P, P);
      XorZero(P);
      XorZero(0);
      TimesStep(Xor(q, r));
    }
  }

  lemma TimesStep(q: nat)
    ensures Times(q) == Xor(2 * Times(q / 2), if q % 2 == 1 then P else 0)
  {
    hide Xor;
    XorZero(0);
  }

  lemma MultipleSum(x: nat, y: nat)
    requires Multiple(x) && Multiple(y)
    ensures Multiple(Xor(x, y))
  {
    var q: nat, r: nat :| Times(q) == x && Times(r) == y;
    TimesAdds(q, r);
    assert Times(Xor(q, r)) == Xor(x, y);
  }

  lemma {:induction false} MultipleShl(x: nat, k: nat)
    requires Multiple(x)
    ensures Multiple(Shl(x, k))
  {
    if k != 0 {
      MultipleShl(x, k - 1);
      var q: nat :| Times(q) == Shl(x, k - 1);
      TimesDouble(q);
      assert Times(2 * q) == Shl(x, k);
    }
  }

  lemma {:induction false} TimesParity(q: nat)
    ensures Times(q) % 2 == q % 2
  {
    hide Xor;
    if q != 0 {
      XorHalves(2 * Times(q / 2), if q % 2 == 1 then P else 0);
    }
  }

  /** x does not divide the generator, so it can be cancelled. */
  lemma {:induction false} MultipleUnshl(x: nat, k: nat)
    requires Multiple(Shl(x, k))
    ensures Multiple(x)
  {
    hide Multiple;
    if k != 0 {
      MultipleHalves(Shl(x, k - 1));
      MultipleUnshl(x, k - 1);
    }
  }

  lemma MultipleHalves(x: nat)
    requires Multiple(2 * x)
    ensures Multiple(x)
  {
    hide Times;
    var q: nat :| Times(q) == 2 * x;
    TimesParity(q);
    TimesDouble(q / 2);
    assert Times(q / 2) == x;
  }

  /** A multiple of the generator of lower degree is zero. */
  lemma {:induction false} TimesHigh(q: nat)
    requires q > 0
    ensures Times(q) >= 0x1_0000
  {
    hide Xor;
    if q == 1 {
      XorZero(P);
      assert Times(1) == Xor(2 * Times(0), P);
    } else {
      TimesHigh(q / 2);
      HighStays(2 * Times(q / 2), if q % 2 == 1 then P else 0);
    }
  }

  lemma HighStays(a: nat, b: nat)
    requires a >= 0x2_0000 && b < 0x2_0000
    ensures Xor(a, b) >= 0x1_0000
  {
    hide Bitwise, Pow2;
    var hi, lo := a / 0x2_0000, a % 0x2_0000;
    assert a == hi * 0x2_0000 + lo && hi > 0;
    assert Pow2(17) == 0x2_0000 by { Pow2Values(); }
    BitwiseSplitAt(XorOp, hi, lo, 0, b, 17, 0x2_0000);
    BitwiseZero(XorOp, hi);
  }

  lemma SmallMultiple(x: nat)
    requires Multiple(x) && x < 0x1_0000
    ensures x == 0
  {
    var q: nat :| Times(q) == x;
    if q > 0 {
      TimesHigh(q);
    }
  }

  // ---- Remainders ----

  ghost predicate Congruent(x: nat, y: nat)
  {
    Multiple(Xor(x, y))
  }

  lemma CongruentTransitive(x: nat, y: nat, z: nat)
    requires Congruent(x, y) && Congruent(y, z)
    ensures Congruent(x, z)
  {
    hide Xor;
    MultipleSum(Xor(x, y), Xor(y, z));
    XorChain(x, y, z);
  }

  lemma CongruentShl(x: nat, y: nat, k: nat)
    requires Congruent(x, y)
    ensures Congruent(Shl(x, k), Shl(y, k))
  {
    hide Xor;
    MultipleShl(Xor(x, y), k);
    XorShl(x, y, k);
  }

  lemma CongruentSum(x: nat, y: nat, x': nat, y': nat)
    requires Congruent(x, y) && Congruent(x', y')
    ensures Congruent(Xor(x, x'), Xor(y, y'))
  {
    hide Xor;
    MultipleSum(Xor(x, y), Xor(x', y'));
    XorSwap(x, y, x', y');
  }

  lemma CongruentSelf(x: nat)
    ensures Congruent(x, x)
  {
    XorCancels(x, x);
    assert Times(0) == Xor(x, x);
  }

  lemma CongruentFlips(x: nat, y: nat)
    requires Congruent(x, y)
    ensures Congruent(y, x)
  {
    XorCommutes(x, y);
  }

  /** There is one remainder below 2^16. */
  lemma RemainderUnique(x: nat, r: nat, r': nat)
    requires Congruent(x, r) && Congruent(x, r') && r < 0x1_0000 && r' < 0x1_0000
    ensures r == r'
  {
    hide Xor;
    CongruentFlips(x, r);
    CongruentTransitive(r, x, r');
    XorBound16(r, r');
    SmallMultiple(Xor(r, r'));
    XorCancels(r, r');
  }

  // ---- The loop computes a remainder ----

  lemma ShiftBitRemainder(crc: nat)
    requires crc < 0x1_0000
    ensures ShiftBit(crc) < 0x1_0000 && Congruent(2 * crc, ShiftBit(crc))
  {
    hide Xor;
    if crc >= CRC_16_MOST_SIGNIFICANT_BIT {
      var y := 2 * crc % 0x1_0000;
      XorBound16(y, CRC_16_YMODEM_POLY);
      assert 2 * crc == 0x1_0000 + y;
      TopBit(y);
      XorCommutes(0x1_0000, y);
      XorAssociates(0x1_0000, y, Xor(y, CRC_16_YMODEM_POLY));
      XorAssociates(y, y, CRC_16_YMODEM_POLY);
      XorCancels(y, y);
      XorZero(CRC_16_YMODEM_POLY);
      TopBit(CRC_16_YMODEM_POLY);
      assert Xor(2 * crc, ShiftBit(crc)) == P;
      XorZero(P);
      assert Times(1) == P by { TimesStep(1); XorZero(P); }
    } else {
      CongruentSelf(2 * crc);
    }
  }

  lemma TopBit(y: nat)
    requires y < 0x1_0000
    ensures Xor(0x1_0000, y) == 0x1_0000 + y
  {
    hide Bitwise;
    assert Pow2(16) == 0x1_0000 by { Pow2Values(); }
    BitwiseSplitAt(XorOp, 1, 0, 0, y, 16, 0x1_0000);
    BitwiseZero(XorOp, 1);
    BitwiseZero(XorOp, y);
  }

  lemma {:induction false} ShiftBitsRemainder(crc: nat, n: nat)
    requires crc < 0x1_0000
    ensures ShiftBits(crc, n) < 0x1_0000 && Congruent(Shl(crc, n), ShiftBits(crc, n))
  {
    hide Xor, Congruent, ShiftBit;
    if n == 0 {
      CongruentSelf(crc);
    } else {
      ShiftBitsRemainder(crc, n - 1);
      var r := ShiftBits(crc, n - 1);
      ShiftBitRemainder(r);
      CongruentShl(Shl(crc, n - 1), r, 1);
      assert Shl(Shl(crc, n - 1), 1) == Shl(crc, n) && Shl(r, 1) == 2 * r;
      CongruentTransitive(Shl(crc, n), 2 * r, ShiftBit(r));
    }
  }

  /** The bytes of a message, most significant first, as one polynomial. */
  function Value(data: seq<U8>): nat
  {
    if data == [] then 0 else 256 * Value(data[..|data| - 1]) + data[|data| - 1]
  }

  lemma AppendByte(x: nat, b: nat)
    requires b < 0x100
    ensures 256 * x + b == Xor(Shl(x, 8), b)
  {
    hide Bitwise;
    assert Pow2(8) == 0x100 by { Pow2Values(); }
    ShlIsMul(x, 8);
    BitwiseSplitAt(XorOp, x, 0, 0, b, 8, 0x100);
    BitwiseZero(XorOp, x);
    BitwiseZero(XorOp, b);
  }

  /** The CRC is the remainder of message times x^16 modulo the generator. */
  lemma {:induction false} CrcIsRemainder(data: seq<U8>)
    ensures Crc(data) < 0x1_0000 && Congruent(Shl(Value(data), 16), Crc(data))
  {
    hide Xor, Congruent, ShiftBits, Shl;
    if data == [] {
      ShlIsMul(0, 16);
      CongruentSelf(0);
    } else {
      var init, b: nat := data[..|data| - 1], data[|data| - 1];
      CrcIsRemainder(init);
      var crc, x := Crc(init), Value(init);
      XorBound16(crc, 256 * b);
      ShiftBitsRemainder(Xor(crc, 256 * b), 8);
      ByteStep(x, crc, b);
      CongruentTransitive(Shl(256 * x + b, 16), Shl(Xor(crc, 256 * b), 8), Crc(data));
    }
  }

  lemma ByteStep(x: nat, crc: nat, b: nat)
    requires Congruent(Shl(x, 16), crc) && b < 0x100
    ensures Congruent(Shl(256 * x + b, 16), Shl(Xor(crc, 256 * b), 8))
  {
    hide Xor, Congruent, Shl;
    AppendByte(x, b);
    XorShl(Shl(x, 8), b, 16);
    XorShl(crc, 256 * b, 8);
    ShlShl(x, 8, 16);
    ShlShl(x, 16, 8);
    ShlShl(b, 8, 8);
    ShlIsMul(b, 8);
    assert Pow2(8) == 0x100 by { Pow2Values(); }
    CongruentShl(Shl(x, 16), crc, 8);
    CongruentSelf(Shl(b, 16));
    CongruentSum(Shl(x, 24), Shl(crc, 8), Shl(b, 16), Shl(b, 16));
  }

  lemma {:induction false} ShlShl(a: nat, j: nat, k: nat)
    ensures Shl(Shl(a, j), k) == Shl(a, j + k)
  {
    if k != 0 {
      ShlShl(a, j, k - 1);
    }
  }

  // ---- What follows for messages ----

  function XorBytes(a: seq<U8>, b: seq<U8>): (r: seq<U8>)
    requires |a| == |b|
    ensures |r| == |a|
  {
    if a == [] then []
    else
      XorByteBound(a[|a| - 1], b[|b| - 1]);
      XorBytes(a[..|a| - 1], b[..|b| - 1]) + [Xor(a[|a| - 1], b[|b| - 1])]
  }

  lemma XorByteBound(a: nat, b: nat)
    requires a < 0x100 && b < 0x100
    ensures Xor(a, b) < 0x100
  {
    assert Pow2(8) == 0x100 by { Pow2Values(); }
    BitwiseBound(XorOp, a, b, 8);
  }

  lemma {:induction false} ValueXor(a: seq<U8>, b: seq<U8>)
    requires |a| == |b|
    ensures Value(XorBytes(a, b)) == Xor(Value(a), Value(b))
  {
    hide Xor;
    if a == [] {
      XorZero(0);
    } else {
      var a', b', x, y := a[..|a| - 1], b[..|b| - 1], a[|a| - 1], b[|b| - 1];
      ValueXor(a', b');
      XorByteBound(x, y);
      var r := XorBytes(a, b);
      assert r[..|r| - 1] == XorBytes(a', b');
      AppendByte(Value(a'), x);
      AppendByte(Value(b'), y);
      AppendByte(Xor(Value(a'), Value(b')), Xor(x, y));
      XorShl(Value(a'), Value(b'), 8);
      XorSwap(Shl(Value(a'), 8), x, Shl(Value(b'), 8), y);
    }
  }

  /** On messages of equal length the CRC of a sum is the sum of the CRCs. */
  lemma CrcLinear(a: seq<U8>, b: seq<U8>)
    requires |a| == |b|
    ensures Crc(XorBytes(a, b)) == Xor(Crc(a), Crc(b))
  {
    hide Xor, Congruent, Shl, Crc;
    CrcIsRemainder(a);
    CrcIsRemainder(b);
    CrcIsRemainder(XorBytes(a, b));
    ValueXor(a, b);
    XorShl(Value(a), Value(b), 16);
    CongruentSum(Shl(Value(a), 16), Crc(a), Shl(Value(b), 16), Crc(b));
    XorBound16(Crc(a), Crc(b));
    RemainderUnique(Shl(Value(XorBytes(a, b)), 16), Crc(XorBytes(a, b)), Xor(Crc(a), Crc(b)));
  }

  /** The receiver's test: the CRC of the payload is the big-endian number behind it. */
  predicate Accepts(data: seq<U8>, hi: U8, lo: U8)
  {
    Crc(data) == 256 * hi + lo
  }

  lemma ValueAppend2(data: seq<U8>, hi: U8, lo: U8)
    ensures Value(data + [hi, lo]) == Xor(Shl(Value(data), 16), 256 * hi + lo)
  {
    hide Xor, Shl;
    var d1, d2 := data + [hi], data + [hi, lo];
    assert d2[..|d2| - 1] == d1 && d1[..|d1| - 1] == data;
    AppendByte(Value(data), hi);
    AppendByte(Value(d1), lo);
    AppendByte(hi, lo);
    XorShl(Shl(Value(data), 8), hi, 8);
    ShlShl(Value(data), 8, 8);
    XorAssociates(Shl(Value(data), 16), Shl(hi, 8), lo);
  }

  /** The test passes exactly when the CRC of payload and CRC together is zero. */
  lemma ResidueZero(data: seq<U8>, hi: U8, lo: U8)
    ensures Accepts(data, hi, lo) <==> Crc(data + [hi, lo]) == 0
  {
    hide Xor, Congruent, Shl, Crc, Multiple;
    var all, c := data + [hi, lo], 256 * hi + lo;
    CrcIsRemainder(data);
    CrcIsRemainder(all);
    ValueAppend2(data, hi, lo);
    CongruentSelf(c);
    CongruentSum(Shl(Value(data), 16), Crc(data), c, c);
    CongruentShl(Value(all), Xor(Crc(data), c), 16);
    ResidueOf(Xor(Crc(data), c), Shl(Value(all), 16), Crc(all));
    XorCancels(Crc(data), c);
    XorBound16(Crc(data), c);
  }

  lemma ResidueOf(d: nat, x: nat, r: nat)
    requires Congruent(x, Shl(d, 16)) && Congruent(x, r) && r < 0x1_0000
    ensures d < 0x1_0000 ==> (r == 0 <==> d == 0)
  {
    hide Xor, Shl;
    CongruentFlips(x, r);
    CongruentTransitive(r, x, Shl(d, 16));
    ShlIsMul(0, 16);
    if d == 0 {
      XorZero(r);
      SmallMultiple(r);
    }
    if r == 0 && d < 0x1_0000 {
      XorZero(Shl(d, 16));
      MultipleUnshl(d, 16);
      SmallMultiple(d);
    }
  }

  /** A message that is a burst: at most 16 consecutive bits, at any place, are set. */
  lemma BurstHasCrc(e: seq<U8>, burst: nat, place: nat)
    requires Value(e) == Shl(burst, place) && 0 < burst < 0x1_0000
    ensures Crc(e) != 0
  {
    hide Xor, Shl, Crc;
    CrcIsRemainder(e);
    if Crc(e) == 0 {
      XorZero(Shl(Value(e), 16));
      ShlShl(burst, place, 16);
      MultipleUnshl(burst, place + 16);
      SmallMultiple(burst);
    }
  }

  /** Every error burst of at most 16 bits in an accepted packet makes the receiver reject it. */
  lemma BurstDetected(data: seq<U8>, hi: U8, lo: U8, e: seq<U8>, ehi: U8, elo: U8, burst: nat, place: nat)
    requires Accepts(data, hi, lo) && |e| == |data|
    requires Value(e + [ehi, elo]) == Shl(burst, place) && 0 < burst < 0x1_0000
    ensures Xor(hi, ehi) < 0x100 && Xor(lo, elo) < 0x100
    ensures !Accepts(XorBytes(data, e), Xor(hi, ehi), Xor(lo, elo))
  {
    hide Xor, Shl, Crc, Accepts, Value;
    XorByteBound(hi, ehi);
    XorByteBound(lo, elo);
    var sent, err := data + [hi, lo], e + [ehi, elo];
    var got := XorBytes(data, e) + [Xor(hi, ehi), Xor(lo, elo)];
    ResidueZero(data, hi, lo);
    ResidueZero(XorBytes(data, e), Xor(hi, ehi), Xor(lo, elo));
    BurstHasCrc(err, burst, place);
    CrcLinear(sent, err);
    XorBytesAppend2(data, hi, lo, e, ehi, elo);
    XorZero(Crc(err));
  }

  lemma XorBytesAppend2(a: seq<U8>, a1: U8, a0: U8, b: seq<U8>, b1: U8, b0: U8)
    requires |a| == |b| && Xor(a1, b1) < 0x100 && Xor(a0, b0) < 0x100
    ensures XorBytes(a + [a1, a0], b + [b1, b0]) == XorBytes(a, b) + [Xor(a1, b1), Xor(a0, b0)]
  {
    hide Xor;
    var x, y := a + [a1, a0], b + [b1, b0];
    assert x[..|x| - 1] == a + [a1] && y[..|y| - 1] == b + [b1];
    assert (a + [a1])[..|a|] == a && (b + [b1])[..|b|] == b;
  }
}
