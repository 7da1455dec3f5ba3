/** The integer operations of the Brillig VM at an arbitrary bit size. */
module BrilligArithmetic {
  import opened Numbers
  import opened Bits

  datatype BinaryIntOp =
    Add | Sub | Mul | SignedDiv | UnsignedDiv | Equals | LessThan | LessThanEquals | And | Or | Xor | Shl | Shr

  /** A value, an error the VM reports, or a Rust panic. */
  datatype Eval = Value(value: nat) | DivisionByZero | Panic

  function FromBool(b: bool): (r: nat)
  {
    if b then 1 else 0
  }

  /** `to_big_signed`: the two's-complement reading. */
  function ToBigSigned(a: nat, bitSize: nat): (r: int)
    requires bitSize >= 1
  {
    if a < Pow2(bitSize - 1) then a else a - 2 * Pow2(bitSize - 1)
  }

  /** `to_big_unsigned`; subtracting a larger magnitude from 2^bitSize panics. */
  function ToBigUnsigned(a: int, bitSize: nat): (r: Eval)
  {
    if a >= 0 then Value(a)
    else if -a <= Pow2(bitSize) then Value(Pow2(bitSize) + a)
    else Panic
  }

  function Abs(a: int): (r: nat)
  {
    if a < 0 then -a else a
  }

  /** Big-integer division, which rounds toward zero. */
  function TruncDiv(a: int, b: int): (q: int)
    requires b != 0
  {
    if (a < 0) == (b < 0) then Abs(a) / Abs(b) else -(Abs(a) / Abs(b))
  }

  function AddMod(a: nat, b: nat, m: nat): (r: nat)
    requires m > 0
  {
    (a + b) % m
  }

  function MultiplyMod(a: nat, b: nat, m: nat): (r: nat)
    requires m > 0
  {
    (a * b) % m
  }

  /** `bit_modulo + a - b` panics when it would be negative. */
  function SubMod(a: nat, b: nat, m: nat): (r: Eval)
    requires m > 0
  {
    if b <= m + a then Value((m + a - b) % m) else Panic
  }

  function DivideMod(a: nat, b: nat, m: nat): (r: Eval)
    requires m > 0
  {
    if b % m == 0 then DivisionByZero else Value((a % m) / (b % m))
  }

  function SignedDivide(a: nat, b: nat, bitSize: nat): (r: Eval)
  {
    if bitSize == 0 then Panic
    else if ToBigSigned(b, bitSize) == 0 then DivisionByZero
    else ToBigUnsigned(TruncDiv(ToBigSigned(a, bitSize), ToBigSigned(b, bitSize)), bitSize)
  }

  function EqualsMod(a: nat, b: nat, m: nat): (r: nat)
    requires m > 0
  {
    FromBool(a % m == b % m)
  }

  function LessMod(a: nat, b: nat, m: nat, orEqual: bool): (r: nat)
    requires m > 0
  {
    FromBool(a % m < b % m || (orEqual && a % m == b % m))
  }

  function BitwiseMod(op: BitOp, a: nat, b: nat, m: nat): (r: nat)
    requires m > 0
  {
    Bitwise(op, a, b) % m
  }

  /** Shifts reject bit sizes above 128, and shift amounts that do not fit a u128. */
  function Shift(left: bool, a: nat, b: nat, bitSize: nat): (r: Eval)
  {
    if bitSize > 128 || b >= Pow2(128) then Panic
    else if left then Value((a * Pow2(b)) % Pow2(bitSize))
    else Value((a / Pow2(b)) % Pow2(bitSize))
  }

  /** `evaluate_binary_bigint_op`. */
  function Evaluate(op: BinaryIntOp, a: nat, b: nat, bitSize: nat): (r: Eval)
  {
    var m := Pow2(bitSize);
    match op
    case Add => Value(AddMod(a, b, m))
    case Sub => SubMod(a, b, m)
    case Mul => Value(MultiplyMod(a, b, m))
    case UnsignedDiv => DivideMod(a, b, m)
    case SignedDiv => SignedDivide(a, b, bitSize)
    case Equals => Value(EqualsMod(a, b, m))
    case LessThan => Value(LessMod(a, b, m, false))
    case LessThanEquals => Value(LessMod(a, b, m, true))
    case And => Value(BitwiseMod(BitOp.And, a, b, m))
    case Or => Value(BitwiseMod(BitOp.Or, a, b, m))
    case Xor => Value(BitwiseMod(BitOp.Xor, a, b, m))
    case Shl => Shift(true, a, b, bitSize)
    case Shr => Shift(false, a, b, bitSize)
  }

  predicate IsDivision(op: BinaryIntOp) { op.SignedDiv? || op.UnsignedDiv? }
  predicate InRange(r: Eval, n: nat) { r.Value? && r.value < Pow2(n) }
  predicate IsShift(op: BinaryIntOp) { op.Shl? || op.Shr? }

  // ---------------------------------------------------------------- two's complement

  function MinInt(n: nat): (r: int)
    requires n >= 1
  {
    -(Pow2(n - 1) as int)
  }

  function MaxInt(n: nat): (r: int)
    requires n >= 1
  {
    Pow2(n - 1) - 1
  }

  /** The two readings of an n-bit word are inverse to each other. */
  lemma SignedReadingBijective(a: nat, n: nat)
    requires n >= 1 && a < Pow2(n)
    ensures MinInt(n) <= ToBigSigned(a, n) <= MaxInt(n)
    ensures ToBigUnsigned(ToBigSigned(a, n), n) == Value(a)
    ensures ToBigSigned(a, n) % Pow2(n) == a
  {
    if a < Pow2(n - 1) {
      DivModUnique(a, Pow2(n), 0, a);
    } else {
      DivModUnique(a - Pow2(n), Pow2(n), -1, a);
    }
  }

  lemma UnsignedReadingBijective(x: int, n: nat)
    requires n >= 1 && MinInt(n) <= x <= MaxInt(n)
    ensures ToBigUnsigned(x, n) == Value(x % Pow2(n)) && x % Pow2(n) < Pow2(n)
    ensures ToBigSigned(x % Pow2(n), n) == x
  {
    if x >= 0 {
      DivModUnique(x, Pow2(n), 0, x);
    } else {
      DivModUnique(x, Pow2(n), -1, x + Pow2(n));
    }
  }

  // ---------------------------------------------------------------- range of the results

  lemma ProductGrows(q: nat, y: nat)
    requires y >= 1
    ensures q * y >= q
    ensures y >= 2 ==> q * y >= 2 * q
  {
    assert q * y == q + q * (y - 1);
    if y >= 2 {
      assert q * (y - 1) == q + q * (y - 2);
    }
  }

  lemma QuotientAtMost(x: nat, y: nat)
    requires y > 0
    ensures x / y <= x
    ensures y >= 2 && x > 0 ==> x / y < x
  {
    assert x == (x / y) * y + x % y;
    ProductGrows(x / y, y);
  }

  lemma TruncDivBound(a: int, b: int)
    requires b != 0
    ensures Abs(TruncDiv(a, b)) <= Abs(a)
    ensures b != -1 && b != 1 && a != 0 ==> Abs(TruncDiv(a, b)) < Abs(a)
  {
    QuotientAtMost(Abs(a), Abs(b));
  }

  /** The quotient is the one that leaves a remainder smaller than the divisor and with the sign of the dividend. */
  lemma TruncDivSpec(a: int, b: int)
    requires b != 0
    ensures var rem := a - TruncDiv(a, b) * b;
      Abs(rem) < Abs(b) && (rem == 0 || (rem < 0) == (a < 0))
  {
    var x: int, y: int := Abs(a), Abs(b);
    var q := x / y;
    assert x == q * y + x % y;
    if a < 0 {
      assert TruncDiv(a, b) * b == -(q * y);
    } else {
      assert TruncDiv(a, b) * b == q * y;
    }
  }

  lemma UnsignedDivInRange(a: nat, b: nat, n: nat)
    requires n >= 1 && a < Pow2(n) && b < Pow2(n)
    ensures Evaluate(UnsignedDiv, a, b, n) == if b == 0 then DivisionByZero else Value(a / b)
    ensures b != 0 ==> a / b < Pow2(n)
  {
    DivModUnique(a, Pow2(n), 0, a);
    DivModUnique(b, Pow2(n), 0, b);
    if b > 0 {
      QuotientAtMost(a, b);
    }
  }

  lemma SignedDivInRange(a: nat, b: nat, n: nat)
    requires n >= 1 && a < Pow2(n) && b < Pow2(n)
    ensures var r := Evaluate(SignedDiv, a, b, n);
      (r.DivisionByZero? <==> b == 0) && (b != 0 ==> r.Value? && r.value < Pow2(n))
  {
    SignedReadingBijective(a, n);
    SignedReadingBijective(b, n);
    if b != 0 {
      TruncDivBound(ToBigSigned(a, n), ToBigSigned(b, n));
    }
  }

  lemma ShiftInRange(op: BinaryIntOp, a: nat, b: nat, n: nat)
    requires IsShift(op) && n <= 128 && b < Pow2(n)
    ensures Evaluate(op, a, b, n).Value? && Evaluate(op, a, b, n).value < Pow2(n)
  {
    Pow2Monotone(n, 128);
  }

  lemma OtherInRange(op: BinaryIntOp, a: nat, b: nat, n: nat)
    requires n >= 1 && a < Pow2(n) && b < Pow2(n) && !IsDivision(op) && !IsShift(op)
    ensures InRange(Evaluate(op, a, b, n), n)
  {
    Pow2Monotone(1, n);
  }

  /** For in-range operands no operation panics, division fails exactly on zero, and every result is in range;
      the shifts ask for a bit size of at most 128. */
  lemma ResultsInRange(op: BinaryIntOp, a: nat, b: nat, n: nat)
    requires n >= 1 && a < Pow2(n) && b < Pow2(n)
    requires IsShift(op) ==> n <= 128
    ensures Evaluate(op, a, b, n) == DivisionByZero <==> IsDivision(op) && b == 0
    ensures !(IsDivision(op) && b == 0) ==> InRange(Evaluate(op, a, b, n), n)
  {
    match op {
      case UnsignedDiv => UnsignedDivInRange(a, b, n);
      case SignedDiv => SignedDivInRange(a, b, n);
      case Shl => ShiftInRange(op, a, b, n);
      case Shr => ShiftInRange(op, a, b, n);
      case _ => OtherInRange(op, a, b, n);
    }
  }

  // ---------------------------------------------------------------- wrapping arithmetic

  /** The exact integer result of a ring operation. */
  function Exact(op: BinaryIntOp, x: int, y: int): (r: int)
    requires op.Add? || op.Sub? || op.Mul?
  {
    match op
    case Add => x + y
    case Sub => x - y
    case _ => x * y
  }

  lemma ModShift(x: int, y: int, k: int, m: int)
    requires m > 0 && x == y + k * m
    ensures x % m == y % m
  {
    MulMod(y, k, m);
  }

  lemma ProductOfShifts(x: int, y: int, j: int, k: int, m: int)
    ensures (x + j * m) * (y + k * m) == x * y + (x * k + j * y + j * (k * m)) * m
  {
    var u, v := j * m, k * m;
    Distribute(x, -u, y + v);
    assert (x + u) * (y + v) == x * (y + v) + u * (y + v);
    assert x * (y + v) == x * y + x * v && u * (y + v) == u * y + u * v;
    Associate(x, k, m);
    Associate(j, y, m);
    Associate(j, v, m);
    Distribute(x * k, -(j * y), m);
    Distribute(x * k + j * y, -(j * v), m);
    assert u * y == (j * y) * m && u * v == (j * v) * m;
  }

  /** A ring operation on any representatives modulo m gives the same residue. */
  lemma ExactCongruent(op: BinaryIntOp, x: int, y: int, j: int, k: int, m: int)
    requires op.Add? || op.Sub? || op.Mul?
    requires m > 0
    ensures Exact(op, x + j * m, y + k * m) % m == Exact(op, x, y) % m
  {
    var z, z' := Exact(op, x, y), Exact(op, x + j * m, y + k * m);
    Distribute(j, k, m);
    match op {
      case Add => ModShift(z', z, j + k, m);
      case Sub => ModShift(z', z, j - k, m);
      case Mul =>
        ProductOfShifts(x, y, j, k, m);
        ModShift(z', z, x * k + j * y + j * (k * m), m);
    }
  }

  lemma SignedRepresentative(a: nat, n: nat)
    requires n >= 1 && a < Pow2(n)
    ensures exists j :: a == ToBigSigned(a, n) + j * Pow2(n)
  {
    if a < Pow2(n - 1) {
      assert a == ToBigSigned(a, n) + 0 * Pow2(n);
    } else {
      assert a == ToBigSigned(a, n) + 1 * Pow2(n);
    }
  }

  /** Addition, subtraction and multiplication are exact modulo 2^n under the unsigned reading. */
  lemma WrappingUnsigned(op: BinaryIntOp, a: nat, b: nat, n: nat)
    requires (op.Add? || op.Sub? || op.Mul?) && b < Pow2(n)
    ensures Evaluate(op, a, b, n) == Value(Exact(op, a, b) % Pow2(n))
  {
    if op.Sub? {
      ModShift(Pow2(n) + a - b, a - b, 1, Pow2(n));
    }
  }

  /** Addition, subtraction and multiplication are exact modulo 2^n under the unsigned and the signed reading alike,
      and exact outright whenever the signed result fits. */
  lemma WrappingOps(op: BinaryIntOp, a: nat, b: nat, n: nat)
    requires op.Add? || op.Sub? || op.Mul?
    requires n >= 1 && a < Pow2(n) && b < Pow2(n)
    ensures Evaluate(op, a, b, n) == Value(Exact(op, a, b) % Pow2(n))
    ensures Evaluate(op, a, b, n) == Value(Exact(op, ToBigSigned(a, n), ToBigSigned(b, n)) % Pow2(n))
    ensures var exact := Exact(op, ToBigSigned(a, n), ToBigSigned(b, n));
      MinInt(n) <= exact <= MaxInt(n) ==> ToBigSigned(Evaluate(op, a, b, n).value, n) == exact
  {
    var m, sa, sb := Pow2(n), ToBigSigned(a, n), ToBigSigned(b, n);
    WrappingUnsigned(op, a, b, n);
    SignedRepresentative(a, n);
    SignedRepresentative(b, n);
    var j :| a == sa + j * m;
    var k :| b == sb + k * m;
    ExactCongruent(op, sa, sb, j, k, m);
    var exact := Exact(op, sa, sb);
    if MinInt(n) <= exact <= MaxInt(n) {
      UnsignedReadingBijective(exact, n);
    }
  }

  lemma DivideByUnit(x: int)
    ensures TruncDiv(x, 1) == x && TruncDiv(x, -1) == -x
  {
    assert Abs(1) == 1 && Abs(-1) == 1;
  }

  /** Every quotient but minimum / -1 is again an n-bit signed number. */
  lemma QuotientInRange(x: int, y: int, n: nat)
    requires n >= 1 && MinInt(n) <= x <= MaxInt(n) && y != 0 && !(x == MinInt(n) && y == -1)
    ensures MinInt(n) <= TruncDiv(x, y) <= MaxInt(n)
  {
    var q := TruncDiv(x, y);
    TruncDivBound(x, y);
    DivideByUnit(x);
  }

  /** What signed division does to the signed readings. */
  lemma SignedQuotient(x: int, y: int, n: nat)
    requires n >= 1 && MinInt(n) <= x <= MaxInt(n) && MinInt(n) <= y <= MaxInt(n) && y != 0
    ensures var q, r := TruncDiv(x, y), TruncDiv(x, y) % Pow2(n);
      && ToBigUnsigned(q, n) == Value(r)
      && ToBigSigned(r, n) == (if x == MinInt(n) && y == -1 then MinInt(n) else q)
      && (x == MinInt(n) && y == -1 ==> q != MinInt(n))
  {
    if x == MinInt(n) && y == -1 {
      DivideByUnit(x);
      DivModUnique(-x, Pow2(n), 0, -x);
    } else {
      QuotientInRange(x, y, n);
      UnsignedReadingBijective(TruncDiv(x, y), n);
    }
  }

  /** Signed division is truncated division of the signed readings, wrapped to n bits:
      the one quotient that does not fit is minimum / -1, which wraps back to the minimum. */
  lemma SignedDivision(a: nat, b: nat, n: nat)
    requires n >= 1 && a < Pow2(n) && 0 < b < Pow2(n)
    ensures ToBigSigned(b, n) != 0
    ensures var q := TruncDiv(ToBigSigned(a, n), ToBigSigned(b, n));
      && Evaluate(SignedDiv, a, b, n) == Value(q % Pow2(n))
      && (ToBigSigned(q % Pow2(n), n) == q <==> !(ToBigSigned(a, n) == MinInt(n) && ToBigSigned(b, n) == -1))
      && (ToBigSigned(a, n) == MinInt(n) && ToBigSigned(b, n) == -1 ==> ToBigSigned(q % Pow2(n), n) == MinInt(n))
  {
    SignedReadingBijective(a, n);
    SignedReadingBijective(b, n);
    SignedQuotient(ToBigSigned(a, n), ToBigSigned(b, n), n);
  }
}
