/**
 Fixed-width words as natural numbers, with C's bitwise operators written out digit by digit.
 The lemmas relate them to division, remainder and addition, which the other modules reason with.
 */
module Bits {

  const U32_SIZE: nat := 0x1_0000_0000
  const U64_SIZE: nat := 0x1_0000_0000_0000_0000

  type U8 = n: nat | n < 0x100
  type U16 = n: nat | n < 0x1_0000
  type U32 = n: nat | n < U32_SIZE
  type U64 = n: nat | n < U64_SIZE

  function Pow2(k: nat): (r: nat)
    ensures r > 0
  {
    if k == 0 then 1 else 2 * Pow2(k - 1)
  }

  lemma {:induction false} Pow2Add(j: nat, k: nat)
    ensures Pow2(j + k) == Pow2(j) * Pow2(k)
  {
    if j != 0 {
      Pow2Add(j - 1, k);
      calc {
        Pow2(j + k);
        2 * (Pow2(j - 1) * Pow2(k));
        (2 * Pow2(j - 1)) * Pow2(k);
      }
    }
  }

  lemma {:induction false} Pow2Monotone(j: nat, k: nat)
    requires j <= k
    ensures Pow2(j) <= Pow2(k)
  {
    if j < k {
      Pow2Monotone(j, k - 1);
    }
  }

  lemma Pow2Values()
    ensures Pow2(2) == 4 && Pow2(4) == 0x10 && Pow2(6) == 0x40 && Pow2(8) == 0x100 && Pow2(9) == 0x200
            && Pow2(10) == 0x400
    ensures Pow2(12) == 0x1000 && Pow2(13) == 0x2000 && Pow2(14) == 0x4000 && Pow2(16) == 0x1_0000
            && Pow2(17) == 0x2_0000 && Pow2(18) == 0x4_0000 && Pow2(19) == 0x8_0000
    ensures Pow2(21) == 0x20_0000 && Pow2(27) == 0x800_0000 && Pow2(29) == 0x2000_0000
    ensures Pow2(31) == 0x8000_0000 && Pow2(40) == 0x100_0000_0000 && Pow2(44) == 0x1000_0000_0000
    ensures Pow2(30) == 0x4000_0000 && Pow2(32) == 0x1_0000_0000 && Pow2(36) == 0x10_0000_0000
    ensures Pow2(35) == 0x8_0000_0000 && Pow2(63) == 0x8000_0000_0000_0000 && Pow2(5) == 0x20
    ensures Pow2(39) == 0x80_0000_0000 && Pow2(42) == 0x400_0000_0000
    ensures Pow2(48) == 0x1_0000_0000_0000 && Pow2(55) == 0x80_0000_0000_0000
  {
    assert Pow2(10) == 0x400;
    Pow2Add(10, 10);
    Pow2Add(20, 10);
    Pow2Add(30, 10);
    Pow2Add(30, 20);
    Pow2Add(30, 1); Pow2Add(30, 14); Pow2Add(30, 2); Pow2Add(30, 6); Pow2Add(30, 9); Pow2Add(30, 12); Pow2Add(30, 18);
    Pow2Add(50, 5); Pow2Add(30, 5); Pow2Add(50, 13);
    Pow2Add(10, 9); Pow2Add(20, 1); Pow2Add(20, 7); Pow2Add(20, 9);
  }

  // ---- Bitwise operators ----

  datatype BitOp = AndOp | OrOp | XorOp

  function Digit(op: BitOp, x: nat, y: nat): (r: nat)
    requires x < 2 && y < 2
    ensures r < 2
  {
    match op
    case AndOp => if x == 1 && y == 1 then 1 else 0
    case OrOp => if x == 1 || y == 1 then 1 else 0
    case XorOp => if x != y then 1 else 0
  }

  function Bitwise(op: BitOp, a: nat, b: nat): nat
    decreases a + b
  {
    if a == 0 && b == 0 then 0
    else 2 * Bitwise(op, a / 2, b / 2) + Digit(op, a % 2, b % 2)
  }

  function And(a: nat, b: nat): nat { Bitwise(AndOp, a, b) }
  function Or(a: nat, b: nat): nat { Bitwise(OrOp, a, b) }
  function Xor(a: nat, b: nat): nat { Bitwise(XorOp, a, b) }

  /** Left shift without loss of high bits. */
  function Shl(a: nat, k: nat): nat
  {
    if k == 0 then a else 2 * Shl(a, k - 1)
  }

  lemma {:induction false} ShlIsMul(a: nat, k: nat)
    ensures Shl(a, k) == a * Pow2(k)
  {
    if k != 0 {
      ShlIsMul(a, k - 1);
    }
  }

  function Shr(a: nat, k: nat): nat
  {
    if k == 0 then a else Shr(a / 2, k - 1)
  }

  lemma {:induction false} ShrIsDiv(a: nat, k: nat, p: nat)
    requires p == Pow2(k)
    ensures Shr(a, k) == a / p
  {
    if k != 0 {
      ShrIsDiv(a / 2, k - 1, Pow2(k - 1));
      HalveQuotient(a, Pow2(k - 1));
    }
  }

  lemma HalveQuotient(a: nat, p: nat)
    requires p > 0
    ensures a / (2 * p) == a / 2 / p
  {
    var q, r := a / 2 / p, a / 2 % p;
    assert a / 2 == q * p + r;
    assert q * (2 * p) == 2 * (q * p);
    RemainderIs(a, 2 * p, q, 2 * r + a % 2);
  }

  /** The operators act on low and high parts separately. */
  lemma {:induction false} BitwiseSplit(op: BitOp, a1: nat, a0: nat, b1: nat, b0: nat, k: nat)
    requires a0 < Pow2(k) && b0 < Pow2(k)
    ensures Bitwise(op, Shl(a1, k) + a0, Shl(b1, k) + b0) == Shl(Bitwise(op, a1, b1), k) + Bitwise(op, a0, b0)
  {
    hide Bitwise;
    if k == 0 {
      BitwiseZero(op, 0);
    } else {
      BitwiseSplit(op, a1, a0 / 2, b1, b0 / 2, k - 1);
      BitwiseSplitStep(op, Shl(a1, k - 1), a0, Shl(b1, k - 1), b0, Shl(Bitwise(op, a1, b1), k - 1));
    }
  }

  lemma {:induction false} BitwiseBound(op: BitOp, a: nat, b: nat, k: nat)
    requires a < Pow2(k) && b < Pow2(k)
    ensures Bitwise(op, a, b) < Pow2(k)
  {
    if k != 0 {
      BitwiseBound(op, a / 2, b / 2, k - 1);
      BitwiseStep(op, a, b);
    }
  }

  lemma BitwiseSplitStep(op: BitOp, x: nat, a0: nat, y: nat, b0: nat, z: nat)
    requires Bitwise(op, x + a0 / 2, y + b0 / 2) == z + Bitwise(op, a0 / 2, b0 / 2)
    ensures Bitwise(op, 2 * x + a0, 2 * y + b0) == 2 * z + Bitwise(op, a0, b0)
  {
    BitwiseStep(op, a0, b0);
    BitwiseStep(op, 2 * x + a0, 2 * y + b0);
    assert (2 * x + a0) / 2 == x + a0 / 2 && (2 * y + b0) / 2 == y + b0 / 2;
  }

  lemma BitwiseStep(op: BitOp, a: nat, b: nat)
    ensures Bitwise(op, a, b) == 2 * Bitwise(op, a / 2, b / 2) + Digit(op, a % 2, b % 2)
  {
  }

  lemma {:induction false} BitwiseZero(op: BitOp, a: nat)
    ensures Bitwise(op, a, 0) == if op == AndOp then 0 else a
    ensures Bitwise(op, 0, a) == if op == AndOp then 0 else a
  {
    if a != 0 {
      BitwiseZero(op, a / 2);
    }
  }

  lemma {:induction false} BitwiseCommutes(op: BitOp, a: nat, b: nat)
    ensures Bitwise(op, a, b) == Bitwise(op, b, a)
    decreases a + b
  {
    if a != 0 || b != 0 {
      BitwiseCommutes(op, a / 2, b / 2);
    }
  }

  /** Masking with k ones keeps the remainder modulo 2^k. */
  lemma {:induction false} AndLowMask(x: nat, k: nat)
    ensures And(x, Pow2(k) - 1) == x % Pow2(k)
  {
    hide Bitwise;
    if k == 0 {
      BitwiseZero(AndOp, x);
    } else {
      var p := Pow2(k - 1);
      AndLowMask(x / 2, k - 1);
      BitwiseStep(AndOp, x, 2 * p - 1);
      assert (2 * p - 1) / 2 == p - 1 && (2 * p - 1) % 2 == 1;
      HalveRemainder(x, p);
    }
  }

  lemma HalveRemainder(x: nat, p: nat)
    requires p > 0
    ensures x % (2 * p) == 2 * (x / 2 % p) + x % 2
  {
    var q, r := x / 2 / p, x / 2 % p;
    assert x / 2 == q * p + r;
    assert x == q * (2 * p) + (2 * r + x % 2);
    RemainderIs(x, 2 * p, q, 2 * r + x % 2);
  }

  lemma {:induction false} MulStep(q: nat, d: nat)
    ensures (q + 1) * d == q * d + d
  {
  }

  lemma {:induction false} MulGap(q: nat, q': nat, d: nat)
    requires q < q'
    ensures q * d + d <= q' * d
  {
    MulStep(q, d);
    if q + 1 < q' {
      MulGap(q, q' - 1, d);
      MulStep(q' - 1, d);
    }
  }

  /** A number in quotient-remainder form has that quotient and that remainder. */
  lemma QuotientUnique(q: nat, r: nat, q': nat, r': nat, d: nat)
    requires r < d && r' < d && q * d + r == q' * d + r'
    ensures q == q' && r == r'
  {
    if q < q' {
      MulGap(q, q', d);
    } else if q' < q {
      MulGap(q', q, d);
    }
  }

  lemma RemainderIs(x: nat, d: nat, q: nat, r: nat)
    requires d > 0 && r < d && x == q * d + r
    ensures x / d == q && x % d == r
  {
    assert x == (x / d) * d + x % d;
    QuotientUnique(x / d, x % d, q, r, d);
  }

  /** The same at a place value given as a number `p`. */
  lemma BitwiseSplitAt(op: BitOp, a1: nat, a0: nat, b1: nat, b0: nat, k: nat, p: nat)
    requires p == Pow2(k) && a0 < p && b0 < p
    ensures Bitwise(op, a1 * p + a0, b1 * p + b0) == Bitwise(op, a1, b1) * p + Bitwise(op, a0, b0)
  {
    BitwiseSplit(op, a1, a0, b1, b0, k);
    ShlIsMul(a1, k);
    ShlIsMul(b1, k);
    ShlIsMul(Bitwise(op, a1, b1), k);
  }

  /** Or-ing a multiple of 2^k with something below 2^k adds the two. */
  lemma OrAdd(a: nat, b: nat, k: nat, p: nat)
    requires p == Pow2(k) && b < p
    ensures Or(a * p, b) == a * p + b == Or(b, a * p)
  {
    hide Bitwise;
    BitwiseSplitAt(OrOp, a, 0, 0, b, k, p);
    BitwiseZero(OrOp, a);
    BitwiseZero(OrOp, b);
    BitwiseCommutes(OrOp, a * p, b);
  }

  /** Masking with n ones at place 2^k keeps the digits there and drops those below. */
  lemma AndFieldMask(m: nat, low: nat, k: nat, place: nat, n: nat, ones: nat)
    requires place == Pow2(k) && low < place && ones + 1 == Pow2(n) && m <= ones
    ensures And(m * place + low, ones * place) == m * place
  {
    hide Bitwise;
    assert And(m, ones) == m by {
      AndLowMask(m, n);
      RemainderIs(m, ones + 1, 0, m);
    }
    BitwiseZero(AndOp, low);
    BitwiseSplitAt(AndOp, m, low, ones, 0, k, place);
  }
}
