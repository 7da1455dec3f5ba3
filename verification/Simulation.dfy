/** The ALU of the AVM and the Brillig operations side by side: what it means for their results to match. */
module Simulation {
  import opened Wrappers
  import opened Numbers
  import opened Bits
  import opened FieldElement
  import Ints = BrilligArithmetic
  import B = Brillig
  import opened AvmCodec
  import opened Transpiler
  import A = AvmMachine

  // ---------------------------------------------------------------- integer operations, value by value

  predicate PlainWidth(n: nat)
  {
    n == 8 || n == 16 || n == 32 || n == 64 || n == 128
  }

  /** The number of a word, with undefined read as zero. */
  function Num(c: Option<A.Cell>): (v: int)
  {
    if c.Some? then c.value.value else 0
  }

  predicate HasTagOf(c: Option<A.Cell>, t: TypeTag)
  {
    c.Some? && c.value.tag == t
  }

  predicate IsIntegral(c: Option<A.Cell>)
  {
    c.Some? && Integral(c.value.tag)
  }

  predicate IsField(c: Option<A.Cell>)
  {
    c.Some? && c.value.tag == FIELD
  }

  predicate WellFormed(c: Option<A.Cell>)
  {
    c.Some? ==> A.WellFormedCell(c.value)
  }

  /** What the Brillig VM writes: a result is reduced modulo p, which shows for 254 bits only. */
  function Reduced(e: Ints.Eval): (r: Ints.Eval)
  {
    if e.Value? then Ints.Value(e.value % P) else e
  }

  function BrilligValue(op: Ints.BinaryIntOp, n: nat, x: nat, y: nat): (r: Ints.Eval)
  {
    Reduced(Ints.Evaluate(op, x, y, n))
  }

  /** The same number, or failure of both. */
  predicate ValueMatches(e: Ints.Eval, r: A.AluResult)
  {
    match e
    case Value(v) => r.Put? && r.cell.value == v
    case DivisionByZero => !r.Put?
    case Panic => false
  }

  /** The Brillig result and the ALU result are the same number with the declared type, or both operations fail. */
  predicate Matches(e: Ints.Eval, r: A.AluResult, declared: TypeTag)
  {
    match e
    case Value(v) => r == A.Put(A.Cell(declared, v))
    case DivisionByZero => !r.Put?
    case Panic => false
  }

  /** One n-bit operation: operands in range of their classes. */
  predicate Operands(n: nat, a: Option<A.Cell>, b: Option<A.Cell>)
  {
    ValidBitSize(n) && WellFormed(a) && WellFormed(b)
  }

  lemma TagWidth(n: nat)
    requires PlainWidth(n)
    ensures Integral(TagFromBitSize(n)) && A.Width(TagFromBitSize(n)) == n
  {
  }

  lemma SameResidue(x: nat, m: nat)
    requires x < m
    ensures x % m == x
  {
    DivModUnique(x, m, 0, x);
  }

  lemma PowerBelowP(n: nat)
    requires n <= 128
    ensures Pow2(n) <= P
  {
    Pow2Monotone(n, 128);
    ModulusBounds();
  }

  /** Only the divisions fail. */
  lemma NoDivisionByZero(op: Ints.BinaryIntOp, x: nat, y: nat, n: nat)
    requires !Ints.IsDivision(op)
    ensures Ints.Evaluate(op, x, y, n) != Ints.DivisionByZero
  {
  }

  // ---------------------------------------------------------------- quotients

  lemma ZeroQuotient(x: nat, y: nat)
    requires y > 0
    ensures x / y == 0 <==> x < y
  {
    if x < y {
      DivModUnique(x, y, 0, x);
    }
  }

  lemma DivValue(t: TypeTag, a: A.Cell, b: A.Cell)
    requires A.WellFormedCell(a) && A.WellFormedCell(b) && Integral(a.tag) && Integral(b.tag) && b.value != 0
    ensures A.Arithmetic(DIV, a, b) == A.Put(A.Cell(a.tag, a.value / b.value))
  {
    assert Ints.TruncDiv(a.value, b.value) == a.value / b.value;
  }

  lemma DivFails(a: A.Cell, b: A.Cell)
    requires A.WellFormedCell(a) && A.WellFormedCell(b)
    ensures A.Arithmetic(DIV, a, b).Put? <==>
      b.value != 0 && ((Integral(a.tag) && Integral(b.tag)) || (a.tag == FIELD && b.tag == FIELD))
  {
  }

  // ---------------------------------------------------------------- comparisons, bits and shifts

  lemma CompareValue(op: Ints.BinaryIntOp, n: nat, x: nat, y: nat)
    requires x < Pow2(n) && y < Pow2(n) && (op.Equals? || op.LessThan? || op.LessThanEquals?)
    ensures Ints.Evaluate(op, x, y, n) == Ints.Value(A.Compare(IntOpcode(op), x, y))
  {
    SameResidue(x, Pow2(n));
    SameResidue(y, Pow2(n));
  }

  lemma BitValue(op: Ints.BinaryIntOp, n: nat, x: nat, y: nat)
    requires x < Pow2(n) && y < Pow2(n) && (op.And? || op.Or? || op.Xor?)
    ensures Ints.Evaluate(op, x, y, n) == Ints.Value(A.UintBits(IntOpcode(op), x, y, Pow2(n)))
  {
    var bit := A.BitOpOf(IntOpcode(op));
    var v := Bitwise(bit, x, y);
    assert v < Pow2(n) by { BitwiseBound(bit, x, y, n); }
    SameResidue(v, Pow2(n));
  }

  lemma QuotientResidue(x: nat, d: nat, m: nat)
    requires x < m && d > 0
    ensures (x / d) % m == x / d
  {
    var q := x / d;
    assert q <= x by { Ints.QuotientAtMost(x, d); }
    SameResidue(q, m);
  }

  lemma ShiftValue(op: Ints.BinaryIntOp, n: nat, x: nat, y: nat)
    requires n <= 128 && x < Pow2(n) && y < Pow2(n) && (op.Shl? || op.Shr?)
    ensures Ints.Evaluate(op, x, y, n) == Ints.Value(A.UintBits(IntOpcode(op), x, y, Pow2(n)))
  {
    assert y < Pow2(128) by { Pow2Monotone(n, 128); }
    assert Ints.Evaluate(op, x, y, n) == Ints.Shift(op.Shl?, x, y, n);
    if op.Shr? {
      QuotientResidue(x, Pow2(y), Pow2(n));
    }
  }

  /** On two words of n bits these operations give the Brillig number. */
  lemma CheckedMatch(op: Ints.BinaryIntOp, n: nat, t: TypeTag, a: A.Cell, b: A.Cell)
    requires !op.SignedDiv? && !A.IsUnchecked(IntOpcode(op)) && n <= 128
    requires Integral(t) && A.Width(t) == n && a.tag == t && b.tag == t && A.WellFormedCell(a) && A.WellFormedCell(b)
    ensures ValueMatches(Ints.Evaluate(op, a.value, b.value, n), A.Checked(IntOpcode(op), t, a, b))
  {
    if op.Equals? || op.LessThan? || op.LessThanEquals? {
      CompareValue(op, n, a.value, b.value);
    } else if op.Shl? || op.Shr? {
      ShiftValue(op, n, a.value, b.value);
    } else {
      BitValue(op, n, a.value, b.value);
    }
  }

  /** Operands of another class than the tag of the instruction halt the simulator. */
  lemma CheckedAlu(op: Ints.BinaryIntOp, t: TypeTag, a: Option<A.Cell>, b: Option<A.Cell>)
    requires !op.SignedDiv? && !A.IsUnchecked(IntOpcode(op))
    ensures A.Alu(IntOpcode(op), t, a, b) ==
      if HasTagOf(a, t) && HasTagOf(b, t) then A.Checked(IntOpcode(op), t, a.value, b.value) else A.Halt
  {
  }

  // ---------------------------------------------------------------- field operations

  predicate FieldCompatible(op: B.BinaryFieldOp, a: Option<A.Cell>, b: Option<A.Cell>)
  {
    IsField(a) && IsField(b) && (op.Div? ==> Num(b) != 0)
  }

  ghost predicate FieldMatches(op: B.BinaryFieldOp, a: Option<A.Cell>, b: Option<A.Cell>)
    requires WellFormed(a) && WellFormed(b) && Num(a) < P && Num(b) < P
  {
    A.Alu(FieldOpcode(op), FIELD, a, b) == A.Put(A.Cell(FIELD, B.EvaluateField(op, Num(a), Num(b))))
  }

  /** Field operations match exactly on two field elements; a zero divisor gives zero in Brillig and throws in the AVM. */
  lemma FieldOpExact(op: B.BinaryFieldOp, a: Option<A.Cell>, b: Option<A.Cell>)
    requires WellFormed(a) && WellFormed(b) && Num(a) < P && Num(b) < P
    ensures FieldMatches(op, a, b) <==> FieldCompatible(op, a, b)
  {
  }
}
