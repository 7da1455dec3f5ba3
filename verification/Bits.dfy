/** Bitwise operations on unbounded naturals, defined bit by bit. */
module Bits {
  import opened Numbers

  datatype BitOp = And | Or | Xor

  /** The operation on single bits. */
  function Bit(op: BitOp, x: nat, y: nat): (r: nat)
    ensures r <= 1
    ensures x == 0 && y == 0 ==> r == 0
  {
    match op
    case And => if x == 1 && y == 1 then 1 else 0
    case Or => if x == 1 || y == 1 then 1 else 0
    case Xor => if x != y then 1 else 0
  }

  function Bitwise(op: BitOp, a: nat, b: nat): (r: nat)
  {
    if a == 0 && b == 0 then 0
    else Bit(op, a % 2, b % 2) + 2 * Bitwise(op, a / 2, b / 2)
  }

  /** Bit i of n. */
  function TestBit(n: nat, i: nat): (r: nat)
    ensures r <= 1
  {
    if i == 0 then n % 2 else TestBit(n / 2, i - 1)
  }

  lemma {:induction false} TestBitIsDivision(n: nat, i: nat)
    ensures TestBit(n, i) == n / Pow2(i) % 2
  {
    if i > 0 {
      TestBitIsDivision(n / 2, i - 1);
      DivBySplit(n, 2, Pow2(i - 1));
    }
  }

  /** Every bit of the result is the operation on the corresponding bits. */
  lemma {:induction false} BitwiseBit(op: BitOp, a: nat, b: nat, i: nat)
    ensures TestBit(Bitwise(op, a, b), i) == Bit(op, TestBit(a, i), TestBit(b, i))
    decreases i
  {
    var r := Bitwise(op, a, b);
    assert r % 2 == Bit(op, a % 2, b % 2) && r / 2 == Bitwise(op, a / 2, b / 2);
    if i > 0 {
      BitwiseBit(op, a / 2, b / 2, i - 1);
    }
  }

  lemma BitwiseOfZero(op: BitOp)
    ensures Bitwise(op, 0, 0) == 0
  {
  }

  lemma {:induction false} BitwiseBound(op: BitOp, a: nat, b: nat, n: nat)
    requires a < Pow2(n) && b < Pow2(n)
    ensures Bitwise(op, a, b) < Pow2(n)
    decreases n
  {
    if n > 0 {
      BitwiseBound(op, a / 2, b / 2, n - 1);
    }
  }

  lemma {:induction false} AndAtMost(a: nat, b: nat)
    ensures Bitwise(And, a, b) <= a
  {
    if a != 0 || b != 0 {
      AndAtMost(a / 2, b / 2);
    }
  }

  lemma BitwiseHalf(op: BitOp, a: nat, b: nat)
    ensures Bitwise(op, a, b) / 2 == Bitwise(op, a / 2, b / 2)
    ensures Bitwise(op, a, b) % 2 == Bit(op, a % 2, b % 2)
  {
    var hi, lo := Bitwise(op, a / 2, b / 2), Bit(op, a % 2, b % 2);
    assert Bitwise(op, a, b) == lo + 2 * hi;
  }

  /** Operating on the low n bits gives the low n bits of the result. */
  lemma {:induction false} BitwiseLow(op: BitOp, a: nat, b: nat, n: nat)
    ensures Bitwise(op, a, b) % Pow2(n) == Bitwise(op, a % Pow2(n), b % Pow2(n))
    decreases n
  {
    if n > 0 {
      var x, y, r := a / 2 % Pow2(n - 1), b / 2 % Pow2(n - 1), Bitwise(op, a, b);
      BitwiseHalf(op, a, b);
      assert r / 2 % Pow2(n - 1) == Bitwise(op, x, y) by { BitwiseLow(op, a / 2, b / 2, n - 1); }
      assert a % Pow2(n) == 2 * x + a % 2 by { LowBitStep(a, n); }
      assert b % Pow2(n) == 2 * y + b % 2 by { LowBitStep(b, n); }
      assert r % Pow2(n) == 2 * Bitwise(op, x, y) + r % 2 by { LowBitStep(r, n); }
      BitwiseStep(op, x, a % 2, y, b % 2);
    }
  }

  lemma BitwiseStep(op: BitOp, a: nat, x: nat, b: nat, y: nat)
    requires x <= 1 && y <= 1
    ensures Bitwise(op, 2 * a + x, 2 * b + y) == 2 * Bitwise(op, a, b) + Bit(op, x, y)
  {
  }

  /** x * 2^k by repeated doubling. */
  function Shifted(x: nat, k: nat): (r: nat)
  {
    if k == 0 then x else 2 * Shifted(x, k - 1)
  }

  lemma BitwiseConcatStep(op: BitOp, a: nat, x: nat, b: nat, y: nat, k: nat)
    requires k > 0
    requires Bitwise(op, Shifted(a, k - 1) + x / 2, Shifted(b, k - 1) + y / 2)
      == Shifted(Bitwise(op, a, b), k - 1) + Bitwise(op, x / 2, y / 2)
    ensures Bitwise(op, Shifted(a, k) + x, Shifted(b, k) + y) == Shifted(Bitwise(op, a, b), k) + Bitwise(op, x, y)
  {
    hide Bitwise, Bit;
    BitwiseStep(op, Shifted(a, k - 1) + x / 2, x % 2, Shifted(b, k - 1) + y / 2, y % 2);
    BitwiseStep(op, x / 2, x % 2, y / 2, y % 2);
  }

  /** Two numbers laid side by side are operated on side by side. */
  lemma {:induction false} BitwiseConcat(op: BitOp, a: nat, x: nat, b: nat, y: nat, k: nat)
    requires x < Pow2(k) && y < Pow2(k)
    ensures Bitwise(op, Shifted(a, k) + x, Shifted(b, k) + y) == Shifted(Bitwise(op, a, b), k) + Bitwise(op, x, y)
    decreases k
  {
    if k > 0 {
      BitwiseConcat(op, a, x / 2, b, y / 2, k - 1);
      BitwiseConcatStep(op, a, x, b, y, k);
    }
  }

  lemma ShiftedByte(x: nat)
    ensures Shifted(x, 8) == x * 256
  {
    assert Shifted(x, 1) == 2 * x && Shifted(x, 2) == 2 * Shifted(x, 1);
    assert Shifted(x, 3) == 2 * Shifted(x, 2) && Shifted(x, 4) == 2 * Shifted(x, 3);
    assert Shifted(x, 5) == 2 * Shifted(x, 4) && Shifted(x, 6) == 2 * Shifted(x, 5);
    assert Shifted(x, 7) == 2 * Shifted(x, 6) && Shifted(x, 8) == 2 * Shifted(x, 7);
  }

  lemma AndStep(x: nat, q: nat, h: nat, l: nat, p: nat)
    requires x == 2 * h + l && l <= 1 && q == 2 * p + 1
    ensures Bitwise(And, x, q) == 2 * Bitwise(And, h, p) + l
  {
    BitwiseStep(And, h, l, p, 1);
  }

  /** `x & (2^k - 1)` is the remainder modulo 2^k. */
  lemma {:induction false} AndMask(x: nat, k: nat)
    ensures Bitwise(And, x, Pow2(k) - 1) == x % Pow2(k)
    decreases k
  {
    hide Bitwise;
    if k == 0 {
      AndZero(x);
    } else {
      var h, l, p := x / 2, x % 2, Pow2(k - 1) - 1;
      var y := h % Pow2(k - 1);
      assert x % Pow2(k) == 2 * y + l by { LowBitStep(x, k); }
      assert Bitwise(And, h, p) == y by { AndMask(h, k - 1); }
      AndStep(x, Pow2(k) - 1, h, l, p);
    }
  }

  lemma {:induction false} AndZero(x: nat)
    ensures Bitwise(And, x, 0) == 0
  {
    if x > 0 {
      AndZero(x / 2);
    }
  }

  /** `x & (1 << i)` isolates bit i. */
  lemma {:induction false} AndOneBit(x: nat, i: nat)
    ensures Bitwise(And, x, Pow2(i)) == TestBit(x, i) * Pow2(i)
    decreases i
  {
    if i == 0 {
      AndZero(x / 2);
    } else {
      AndOneBit(x / 2, i - 1);
      assert TestBit(x, i) * Pow2(i) == 2 * (TestBit(x / 2, i - 1) * Pow2(i - 1));
    }
  }
}
