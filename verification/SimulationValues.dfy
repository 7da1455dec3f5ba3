/** When an AVM operation gives the number the Brillig operation gives, whatever class the AVM files it under. */
module SimulationValues {
  import opened Wrappers
  import opened Numbers
  import Bits
  import opened FieldElement
  import Ints = BrilligArithmetic
  import B = Brillig
  import opened AvmCodec
  import opened Transpiler
  import A = AvmMachine
  import opened Simulation
  import opened SimulationResidues

  // ---------------------------------------------------------------- integer operations

  predicate SameKind(a: Option<A.Cell>, b: Option<A.Cell>)
  {
    (IsIntegral(a) && IsIntegral(b)) || (IsField(a) && IsField(b))
  }

  predicate Words(a: A.Cell, b: A.Cell)
  {
    Integral(a.tag) && Integral(b.tag) && A.WellFormedCell(a) && A.WellFormedCell(b)
  }

  predicate Elements(a: A.Cell, b: A.Cell)
  {
    a.tag == FIELD && b.tag == FIELD && A.WellFormedCell(a) && A.WellFormedCell(b)
  }

  /** Two words under an n-bit addition, subtraction or multiplication: the ALU wraps at the width of the left one. */
  predicate WordsSame(op: Ints.BinaryIntOp, n: nat, a: A.Cell, b: A.Cell)
    requires Words(a, b)
  {
    var w := A.Width(a.tag);
    match op
    case Add => SameWrap(a.value + b.value, w, n)
    case Mul => MulNonneg(a.value, b.value); SameWrap(a.value * b.value, w, n)
    case _ => if b.value <= a.value then a.value - b.value < Pow2(n) else w == n && b.value <= a.value + Pow2(n)
  }

  /** Two field elements under the same operations: the ALU reduces modulo p. At 254 bits the Brillig VM does so too, after
      wrapping. */
  predicate ElementsSame(op: Ints.BinaryIntOp, n: nat, a: A.Cell, b: A.Cell)
    requires Elements(a, b)
  {
    match op
    case Add => a.value + b.value < Pow2(n)
    case Mul =>
      MulNonneg(a.value, b.value);
      if n == 254 then a.value * b.value < Pow2(n) else SameFieldWrap(a.value * b.value, n)
    case _ => b.value <= a.value && a.value - b.value < Pow2(n)
  }

  /** Two 8-bit words under a 1-bit operation that checks tags: the ALU works on all eight bits. */
  predicate BitSame(op: Ints.BinaryIntOp, x: nat, y: nat)
  {
    match op
    case Equals => x == y || x % 2 != y % 2
    case LessThan => x < y <==> x % 2 == 0 && y % 2 == 1
    case LessThanEquals => x <= y <==> x % 2 == 0 || y % 2 == 1
    case And => Bits.Bitwise(Bits.And, x / 2, y / 2) == 0
    case Or => x < 2 && y < 2
    case Xor => x / 2 == y / 2
    case Shl => MulNonneg(x, Pow2(y)); SameWrap(x * Pow2(y), 8, 1)
    case _ => x / Pow2(y) < 2
  }

  /** Two operands of the declared tag under an operation that checks tags. Of these the field class only has equality. */
  predicate CheckedSame(op: Ints.BinaryIntOp, n: nat, x: nat, y: nat)
  {
    (n == 254 ==> op.Equals?) && (n == 1 ==> BitSame(op, x, y))
  }

  /** The quotient of the residues is the field quotient. */
  ghost predicate ElementsDivide(n: nat, a: A.Cell, b: A.Cell)
    requires Elements(a, b) && b.value % Pow2(n) != 0
  {
    IsFieldQuotient(a.value, b.value, (a.value % Pow2(n)) / (b.value % Pow2(n)))
  }

  /** What the operands must be for an n-bit operation to give the same number, or to fail on both machines. */
  ghost predicate IntSame(op: Ints.BinaryIntOp, n: nat, a: Option<A.Cell>, b: Option<A.Cell>)
    requires Operands(n, a, b)
  {
    if op.Add? || op.Sub? || op.Mul? then
      SameKind(a, b) &&
      if IsIntegral(a) then WordsSame(op, n, a.value, b.value) else ElementsSame(op, n, a.value, b.value)
    else if op.UnsignedDiv? then
      if Num(b) % Pow2(n) == 0 then Num(b) == 0 || !SameKind(a, b)
      else
        SameKind(a, b) &&
        if IsIntegral(a) then SameQuotient(Num(a), Num(b), Pow2(n)) else ElementsDivide(n, a.value, b.value)
    else HasTagOf(a, TagFromBitSize(n)) && HasTagOf(b, TagFromBitSize(n)) && CheckedSame(op, n, Num(a), Num(b))
  }

  lemma WordBelow(c: A.Cell)
    requires A.WellFormedCell(c) && Integral(c.tag)
    ensures A.Width(c.tag) <= 128 && c.value < Pow2(128)
  {
    Pow2Monotone(A.Width(c.tag), 128);
  }

  lemma DifferenceExact(x: nat, y: nat, n: nat)
    requires y <= x
    ensures Ints.Evaluate(Ints.Sub, x, y, n) == Ints.Value(x - y) <==> x - y < Pow2(n)
  {
    var m := Pow2(n);
    assert Ints.Evaluate(Ints.Sub, x, y, n) == Ints.Value((m + x - y) % m);
    if x - y < m {
      DivModUnique(m + x - y, m, 1, x - y);
    }
  }

  /** Below zero each machine adds its own modulus once. */
  lemma BorrowExact(x: nat, y: nat, n: nat, m: nat)
    requires x < y
    ensures var e := Ints.Evaluate(Ints.Sub, x, y, n);
      e.Value? && e.value == x - y + m <==> m == Pow2(n) && y <= x + Pow2(n)
  {
    if y <= x + Pow2(n) {
      DivModUnique(Pow2(n) + x - y, Pow2(n), 0, Pow2(n) + x - y);
    }
  }

  lemma SameModulus(w: nat, n: nat)
    ensures Pow2(w) == Pow2(n) <==> w == n
  {
    if w < n {
      Pow2Monotone(w, n);
    } else if n < w {
      Pow2Monotone(n, w);
    }
  }

  lemma WordsExact(op: Ints.BinaryIntOp, n: nat, a: A.Cell, b: A.Cell)
    requires (op.Add? || op.Sub? || op.Mul?) && Words(a, b)
    ensures ValueMatches(Ints.Evaluate(op, a.value, b.value, n), A.Arithmetic(IntOpcode(op), a, b)) <==> WordsSame(op, n, a, b)
  {
    var x, y, w := a.value, b.value, A.Width(a.tag);
    match op
    case Add => WrapExact(x + y, w, n);
    case Mul =>
      MulNonneg(x, y);
      WrapExact(x * y, w, n);
    case Sub =>
      if y <= x {
        DifferenceExact(x, y, n);
      } else {
        BorrowExact(x, y, n, Pow2(w));
        SameModulus(w, n);
      }
  }

  lemma ElementsExact(op: Ints.BinaryIntOp, n: nat, a: A.Cell, b: A.Cell)
    requires (op.Add? || op.Sub? || op.Mul?) && Elements(a, b) && 1 <= n <= 128
    ensures ValueMatches(Ints.Evaluate(op, a.value, b.value, n), A.Arithmetic(IntOpcode(op), a, b)) <==> ElementsSame(op, n, a, b)
  {
    var x, y := a.value, b.value;
    match op
    case Add => FieldSumExact(x + y, n);
    case Mul =>
      MulNonneg(x, y);
      FieldWrapExact(x * y, n);
    case Sub =>
      if y <= x {
        DifferenceExact(x, y, n);
      } else {
        BorrowExact(x, y, n, P);
        NotThePower(n);
      }
  }

  lemma WordQuotients(n: nat, a: A.Cell, b: A.Cell)
    requires Words(a, b) && b.value % Pow2(n) != 0
    ensures ValueMatches(Ints.Evaluate(Ints.UnsignedDiv, a.value, b.value, n), A.Arithmetic(DIV, a, b))
      <==> SameQuotient(a.value, b.value, Pow2(n))
  {
    QuotientExact(a.value, b.value, Pow2(n));
    DivValue(a.tag, a, b);
  }

  lemma ReducedQuotient(x: nat, y: nat, n: nat)
    requires x < P && y % Pow2(n) != 0
    ensures (x % Pow2(n)) / (y % Pow2(n)) < P
  {
    Ints.QuotientAtMost(x % Pow2(n), y % Pow2(n));
    RemainderAtMost(x, Pow2(n));
  }

  lemma ElementDivision(a: A.Cell, b: A.Cell)
    requires Elements(a, b) && b.value != 0
    ensures A.Arithmetic(DIV, a, b) == A.Put(A.Cell(FIELD, B.EvaluateField(B.BinaryFieldOp.Div, a.value, b.value)))
  {
  }

  lemma ValueOfPut(v: nat, w: int)
    ensures ValueMatches(Ints.Value(v), A.Put(A.Cell(FIELD, w))) <==> w == v
  {
  }

  lemma EvaluatesQuotient(x: nat, y: nat, n: nat)
    requires y % Pow2(n) != 0
    ensures Ints.Evaluate(Ints.UnsignedDiv, x, y, n) == Ints.Value((x % Pow2(n)) / (y % Pow2(n)))
  {
  }

  lemma QuotientsOfElements(n: nat, x: Fr, y: Fr)
    requires y % Pow2(n) != 0
    ensures ValueMatches(Ints.Evaluate(Ints.UnsignedDiv, x, y, n), A.Put(A.Cell(FIELD, B.EvaluateField(B.BinaryFieldOp.Div, x, y))))
      <==> IsFieldQuotient(x, y, (x % Pow2(n)) / (y % Pow2(n)))
  {
    hide *;
    EvaluatesQuotient(x, y, n);
    ReducedQuotient(x, y, n);
    FieldQuotientExact(x, y, (x % Pow2(n)) / (y % Pow2(n)));
    ValueOfPut((x % Pow2(n)) / (y % Pow2(n)), B.EvaluateField(B.BinaryFieldOp.Div, x, y));
  }

  lemma ElementQuotients(n: nat, a: A.Cell, b: A.Cell)
    requires Elements(a, b) && b.value % Pow2(n) != 0
    ensures ValueMatches(Ints.Evaluate(Ints.UnsignedDiv, a.value, b.value, n), A.Arithmetic(DIV, a, b))
      <==> IsFieldQuotient(a.value, b.value, (a.value % Pow2(n)) / (b.value % Pow2(n)))
  {
    hide ValueMatches, Ints.Evaluate, B.EvaluateField, IsFieldQuotient, A.Arithmetic;
    assert b.value != 0 by { SameResidue(0, Pow2(n)); }
    ElementDivision(a, b);
    QuotientsOfElements(n, a.value, b.value);
  }

  lemma UncheckedAlu(op: Op, t: TypeTag, a: Option<A.Cell>, b: Option<A.Cell>)
    requires A.IsUnchecked(op) && WellFormed(a) && WellFormed(b)
    ensures A.Alu(op, t, a, b) == if SameKind(a, b) then A.Arithmetic(op, a.value, b.value) else A.Crash
  {
  }

  // ---------------------------------------------------------------- results of 254 bits

  lemma WideWordsExact(op: Ints.BinaryIntOp, a: A.Cell, b: A.Cell)
    requires (op.Add? || op.Sub? || op.Mul?) && Words(a, b)
    ensures ValueMatches(BrilligValue(op, 254, a.value, b.value), A.Arithmetic(IntOpcode(op), a, b)) <==> WordsSame(op, 254, a, b)
  {
    hide Pow2;
    var x, y, w := a.value, b.value, A.Width(a.tag);
    match op
    case Add => WideWrapExact(x + y, w);
    case Mul =>
      MulNonneg(x, y);
      WideWrapExact(x * y, w);
    case Sub => WideWordDifference(a, b);
  }

  lemma WideWordDifference(a: A.Cell, b: A.Cell)
    requires Words(a, b)
    ensures ValueMatches(BrilligValue(Ints.Sub, 254, a.value, b.value), A.Arithmetic(SUB, a, b)) <==> b.value <= a.value
    ensures WordsSame(Ints.Sub, 254, a, b) <==> b.value <= a.value
  {
    hide Pow2;
    var x, y := a.value, b.value;
    WordBelow(a);
    WordBelow(b);
    WideModulus();
    ModulusBounds();
    Pow2Monotone(A.Width(a.tag), 128);
    if y <= x {
      WideDifference(x, y);
    } else {
      WideBorrow(x, y);
    }
  }

  lemma WideElementsExact(op: Ints.BinaryIntOp, a: A.Cell, b: A.Cell)
    requires (op.Add? || op.Sub? || op.Mul?) && Elements(a, b)
    ensures ValueMatches(BrilligValue(op, 254, a.value, b.value), A.Arithmetic(IntOpcode(op), a, b)) <==> ElementsSame(op, 254, a, b)
  {
    hide Pow2;
    var x, y := a.value, b.value;
    WideModulus();
    match op
    case Add =>
      QuotientLimit(x + y, 2, Pow2(254));
      WideFieldWrapExact(x + y);
    case Mul =>
      MulNonneg(x, y);
      FieldProduct(x, y, Pow2(254));
      QuotientLimit(x * y, P, Pow2(254));
      WideFieldWrapExact(x * y);
    case Sub =>
      if y <= x {
        WideDifference(x, y);
      } else {
        WideBorrow(x, y);
      }
  }

  lemma QuotientLimit(z: nat, k: nat, m: nat)
    requires m > 0 && z < k * m
    ensures z / m < k
  {
    if z / m >= k {
      MulMonotone(k, z / m, m);
    }
  }

  lemma FieldProduct(x: Fr, y: Fr, m: nat)
    requires P <= m
    ensures x * y < P * m
  {
    MulMonotone(x, P - 1, y);
    MulMonotone(y, m, P - 1);
  }

  // ---------------------------------------------------------------- every width

  lemma QuotientBelow(x: nat, y: nat, m: nat)
    requires m > 0 && Ints.DivideMod(x, y, m).Value?
    ensures Ints.DivideMod(x, y, m).value < m
  {
    Ints.QuotientAtMost(x % m, y % m);
  }

  lemma ValueBelow(op: Ints.BinaryIntOp, x: nat, y: nat, n: nat)
    requires n >= 1 && !op.SignedDiv? && Ints.Evaluate(op, x, y, n).Value?
    ensures Ints.Evaluate(op, x, y, n).value < Pow2(n)
  {
    var m := Pow2(n);
    assert m == 2 * Pow2(n - 1);
    match op
    case UnsignedDiv => QuotientBelow(x, y, m);
    case Equals => assert Ints.EqualsMod(x, y, m) <= 1;
    case LessThan => assert Ints.LessMod(x, y, m, false) <= 1;
    case LessThanEquals => assert Ints.LessMod(x, y, m, true) <= 1;
    case _ =>
  }

  lemma ReducedInField(v: nat, n: nat)
    requires n <= 128 && v < Pow2(n)
    ensures v < P && v % P == v
  {
    Pow2Monotone(n, 128);
    ModulusBounds();
    DivModUnique(v, P, 0, v);
  }

  /** Up to 128 bits the reduction modulo p does not show. */
  lemma NarrowIsReduced(op: Ints.BinaryIntOp, x: nat, y: nat, n: nat)
    requires 1 <= n <= 128 && !op.SignedDiv?
    ensures BrilligValue(op, n, x, y) == Ints.Evaluate(op, x, y, n)
  {
    if Ints.Evaluate(op, x, y, n).Value? {
      ValueBelow(op, x, y, n);
      ReducedInField(Ints.Evaluate(op, x, y, n).value, n);
    }
  }

  /** Nor does it for quotients. */
  lemma QuotientIsReduced(x: nat, y: nat, n: nat)
    requires x < P
    ensures BrilligValue(Ints.UnsignedDiv, n, x, y) == Ints.Evaluate(Ints.UnsignedDiv, x, y, n)
  {
    if y % Pow2(n) != 0 {
      EvaluatesQuotient(x, y, n);
      ReducedQuotient(x, y, n);
      SameResidue((x % Pow2(n)) / (y % Pow2(n)), P);
    }
  }

  lemma RingOperandsExact(op: Ints.BinaryIntOp, n: nat, a: Option<A.Cell>, b: Option<A.Cell>)
    requires Operands(n, a, b) && (op.Add? || op.Sub? || op.Mul?) && SameKind(a, b)
    ensures ValueMatches(BrilligValue(op, n, Num(a), Num(b)), A.Arithmetic(IntOpcode(op), a.value, b.value)) <==> IntSame(op, n, a, b)
  {
    hide Pow2;
    if n == 254 {
      if IsIntegral(a) {
        WideWordsExact(op, a.value, b.value);
      } else {
        WideElementsExact(op, a.value, b.value);
      }
    } else {
      NarrowIsReduced(op, Num(a), Num(b), n);
      if IsIntegral(a) {
        WordsExact(op, n, a.value, b.value);
      } else {
        ElementsExact(op, n, a.value, b.value);
      }
    }
  }

  lemma RingValueExact(op: Ints.BinaryIntOp, n: nat, a: Option<A.Cell>, b: Option<A.Cell>)
    requires Operands(n, a, b) && (op.Add? || op.Sub? || op.Mul?)
    ensures ValueMatches(BrilligValue(op, n, Num(a), Num(b)), A.Alu(IntOpcode(op), TagFromBitSize(n), a, b)) <==> IntSame(op, n, a, b)
  {
    hide Pow2;
    UncheckedAlu(IntOpcode(op), TagFromBitSize(n), a, b);
    NoDivisionByZero(op, Num(a), Num(b), n);
    if SameKind(a, b) {
      RingOperandsExact(op, n, a, b);
    }
  }

  /** Unsigned division: the same quotient, or failure of both, exactly for these operands. */
  lemma DivExact(n: nat, a: Option<A.Cell>, b: Option<A.Cell>)
    requires Operands(n, a, b)
    ensures ValueMatches(BrilligValue(Ints.UnsignedDiv, n, Num(a), Num(b)), A.Alu(DIV, TagFromBitSize(n), a, b))
      <==> IntSame(Ints.UnsignedDiv, n, a, b)
  {
    hide Pow2;
    UncheckedAlu(DIV, TagFromBitSize(n), a, b);
    NumberBelowP(a);
    QuotientIsReduced(Num(a), Num(b), n);
    if SameKind(a, b) {
      DivFails(a.value, b.value);
      if Num(b) % Pow2(n) != 0 {
        if IsIntegral(a) {
          WordQuotients(n, a.value, b.value);
        } else {
          ElementQuotients(n, a.value, b.value);
        }
      }
    }
  }

  lemma NumberBelowP(a: Option<A.Cell>)
    requires WellFormed(a)
    ensures 0 <= Num(a) < P
  {
    if IsIntegral(a) {
      WordBelow(a.value);
      ModulusBounds();
    }
  }

  // ---------------------------------------------------------------- operations that check tags

  lemma {:induction false} OrIsZero(x: nat, y: nat)
    ensures Bits.Bitwise(Bits.Or, x, y) == 0 <==> x == 0 && y == 0
    decreases x + y
  {
    if x != 0 || y != 0 {
      OrIsZero(x / 2, y / 2);
    }
  }

  lemma {:induction false} XorIsZero(x: nat, y: nat)
    ensures Bits.Bitwise(Bits.Xor, x, y) == 0 <==> x == y
    decreases x + y
  {
    if x != 0 || y != 0 {
      XorIsZero(x / 2, y / 2);
    }
  }

  /** The low bit is all of the result exactly when the operation gives zero on the other bits. */
  lemma OneBitResult(op: Bits.BitOp, x: nat, y: nat)
    ensures Bits.Bitwise(op, x, y) % 2 == Bits.Bitwise(op, x, y) <==> Bits.Bitwise(op, x / 2, y / 2) == 0
  {
    Bits.BitwiseHalf(op, x, y);
  }

  /** What the ALU computes on 8-bit words. */
  function OnBytes(op: Ints.BinaryIntOp, x: nat, y: nat): (r: int)
    requires !op.SignedDiv? && !A.IsUnchecked(IntOpcode(op))
  {
    if A.IsComparison(IntOpcode(op)) then A.Compare(IntOpcode(op), x, y) else A.UintBits(IntOpcode(op), x, y, Pow2(8))
  }

  predicate BitAgrees(op: Ints.BinaryIntOp, x: nat, y: nat)
    requires !op.SignedDiv? && !A.IsUnchecked(IntOpcode(op))
  {
    var e := Ints.Evaluate(op, x, y, 1);
    e.Value? && e.value == OnBytes(op, x, y)
  }

  lemma OneBit()
    ensures Pow2(1) == 2
  {
  }

  lemma BitComparison(op: Ints.BinaryIntOp, x: nat, y: nat)
    requires op.Equals? || op.LessThan? || op.LessThanEquals?
    ensures BitAgrees(op, x, y) <==> BitSame(op, x, y)
  {
    assert Pow2(1) == 2;
  }

  lemma BitLogicSame(op: Ints.BinaryIntOp, bit: Bits.BitOp, x: nat, y: nat)
    requires op.And? || op.Or? || op.Xor?
    requires bit == A.BitOpOf(IntOpcode(op))
    ensures BitSame(op, x, y) <==> Bits.Bitwise(bit, x / 2, y / 2) == 0
  {
    hide Bits.Bitwise;
    OrIsZero(x / 2, y / 2);
    XorIsZero(x / 2, y / 2);
  }

  lemma BitLogic(op: Ints.BinaryIntOp, x: nat, y: nat)
    requires op.And? || op.Or? || op.Xor?
    ensures BitAgrees(op, x, y) <==> BitSame(op, x, y)
  {
    hide Pow2, Bits.Bitwise, BitSame;
    OneBit();
    var bit := A.BitOpOf(IntOpcode(op));
    assert Ints.Evaluate(op, x, y, 1) == Ints.Value(Bits.Bitwise(bit, x, y) % 2);
    assert OnBytes(op, x, y) == Bits.Bitwise(bit, x, y);
    OneBitResult(bit, x, y);
    BitLogicSame(op, bit, x, y);
  }

  lemma BitShiftLeft(x: nat, y: nat)
    requires y < Pow2(128)
    ensures BitAgrees(Ints.Shl, x, y) <==> BitSame(Ints.Shl, x, y)
  {
    hide Pow2;
    MulNonneg(x, Pow2(y));
    assert Ints.Evaluate(Ints.Shl, x, y, 1) == Ints.Value((x * Pow2(y)) % Pow2(1));
    WrapExact(x * Pow2(y), 8, 1);
  }

  lemma LowBit(q: nat)
    ensures q % 2 == q <==> q < 2
  {
  }

  lemma BitShiftRight(x: nat, y: nat)
    requires y < Pow2(128)
    ensures BitAgrees(Ints.Shr, x, y) <==> BitSame(Ints.Shr, x, y)
  {
    hide Pow2;
    OneBit();
    assert Ints.Evaluate(Ints.Shr, x, y, 1) == Ints.Value((x / Pow2(y)) % 2);
    LowBit(x / Pow2(y));
  }

  lemma BitOperation(op: Ints.BinaryIntOp, x: nat, y: nat)
    requires !op.SignedDiv? && !A.IsUnchecked(IntOpcode(op)) && y < Pow2(128)
    ensures BitAgrees(op, x, y) <==> BitSame(op, x, y)
  {
    hide Pow2, BitSame, BitAgrees;
    if op.Shl? {
      BitShiftLeft(x, y);
    } else if op.Shr? {
      BitShiftRight(x, y);
    } else if op.And? || op.Or? || op.Xor? {
      BitLogic(op, x, y);
    } else {
      BitComparison(op, x, y);
    }
  }

  lemma BytesChecked(op: Ints.BinaryIntOp, a: A.Cell, b: A.Cell)
    requires !op.SignedDiv? && !A.IsUnchecked(IntOpcode(op)) && a.tag == UINT8 && b.tag == UINT8
    requires A.WellFormedCell(a) && A.WellFormedCell(b)
    ensures 0 <= a.value && 0 <= b.value < Pow2(128)
    ensures A.Checked(IntOpcode(op), UINT8, a, b) == A.Put(A.Cell(UINT8, OnBytes(op, a.value, b.value)))
  {
    hide Pow2, A.UintBits, A.Compare;
    Pow2Monotone(8, 128);
  }

  lemma BitCheckedExact(op: Ints.BinaryIntOp, a: A.Cell, b: A.Cell)
    requires !op.SignedDiv? && !A.IsUnchecked(IntOpcode(op)) && a.tag == UINT8 && b.tag == UINT8
    requires A.WellFormedCell(a) && A.WellFormedCell(b)
    ensures ValueMatches(Ints.Evaluate(op, a.value, b.value, 1), A.Checked(IntOpcode(op), UINT8, a, b))
      <==> BitSame(op, a.value, b.value)
  {
    hide Pow2, BitSame, Ints.Evaluate, OnBytes, A.Checked, A.Arithmetic;
    BytesChecked(op, a, b);
    NoDivisionByZero(op, a.value, b.value, 1);
    BitOperation(op, a.value, b.value);
  }

  /** On field elements only equality is an operation of both machines. */
  lemma WideCheckedExact(op: Ints.BinaryIntOp, a: A.Cell, b: A.Cell)
    requires !op.SignedDiv? && !A.IsUnchecked(IntOpcode(op)) && Elements(a, b)
    ensures ValueMatches(BrilligValue(op, 254, a.value, b.value), A.Checked(IntOpcode(op), FIELD, a, b)) <==> op.Equals?
  {
    hide Pow2;
    NoDivisionByZero(op, a.value, b.value, 254);
    if op.Equals? {
      ModulusBounds();
      SameResidue(a.value, Pow2(254));
      SameResidue(b.value, Pow2(254));
      SameResidue(Ints.FromBool(a.value == b.value), P);
    }
  }

  /** Comparisons, bitwise operations and shifts match exactly for these operands. */
  lemma CheckedExact(op: Ints.BinaryIntOp, n: nat, a: Option<A.Cell>, b: Option<A.Cell>)
    requires Operands(n, a, b) && !op.SignedDiv? && !A.IsUnchecked(IntOpcode(op))
    ensures ValueMatches(BrilligValue(op, n, Num(a), Num(b)), A.Alu(IntOpcode(op), TagFromBitSize(n), a, b)) <==> IntSame(op, n, a, b)
  {
    hide Pow2;
    var t := TagFromBitSize(n);
    NoDivisionByZero(op, Num(a), Num(b), n);
    CheckedAlu(op, t, a, b);
    if HasTagOf(a, t) && HasTagOf(b, t) {
      if n == 254 {
        WideCheckedExact(op, a.value, b.value);
      } else {
        NarrowIsReduced(op, Num(a), Num(b), n);
        if n == 1 {
          BitCheckedExact(op, a.value, b.value);
        } else {
          TagWidth(n);
          CheckedMatch(op, n, t, a.value, b.value);
        }
      }
    }
  }

  /** The AVM operation gives the Brillig number, or fails with it, exactly for these operands. */
  lemma IntValueExact(op: Ints.BinaryIntOp, n: nat, a: Option<A.Cell>, b: Option<A.Cell>)
    requires Operands(n, a, b) && !op.SignedDiv?
    ensures ValueMatches(BrilligValue(op, n, Num(a), Num(b)), A.Alu(IntOpcode(op), TagFromBitSize(n), a, b)) <==> IntSame(op, n, a, b)
  {
    if op.Add? || op.Sub? || op.Mul? {
      RingValueExact(op, n, a, b);
    } else if op.UnsignedDiv? {
      DivExact(n, a, b);
    } else {
      CheckedExact(op, n, a, b);
    }
  }

  // ---------------------------------------------------------------- field operations

  /** Two words under a field operation: the ALU wraps at the width of the left one and truncates quotients. */
  ghost predicate WordsAsElements(op: B.BinaryFieldOp, a: A.Cell, b: A.Cell)
    requires Words(a, b) && a.value < P && b.value < P
  {
    var w := A.Width(a.tag);
    match op
    case Add => a.value + b.value < Pow2(w)
    case Mul => MulNonneg(a.value, b.value); SameFieldWrap(a.value * b.value, w)
    case Sub => b.value <= a.value
    case Div => b.value != 0 && LosesNothing(a.value, b.value)
    case Equals => false
  }

  ghost predicate FieldSame(op: B.BinaryFieldOp, a: Option<A.Cell>, b: Option<A.Cell>)
    requires WellFormed(a) && WellFormed(b) && Num(a) < P && Num(b) < P
  {
    FieldCompatible(op, a, b) || (IsIntegral(a) && IsIntegral(b) && WordsAsElements(op, a.value, b.value))
  }

  lemma WordSumAsElement(x: Fr, y: Fr, w: nat)
    requires w <= 128 && x < Pow2(128) && y < Pow2(128)
    ensures A.UintArithmetic(ADD, x, y, Pow2(w)) == Some(B.EvaluateField(B.BinaryFieldOp.Add, x, y)) <==> x + y < Pow2(w)
  {
    WordSumExact(x, y, w);
  }

  lemma WordDifferenceAsElement(x: Fr, y: Fr, w: nat)
    requires w <= 128
    ensures A.UintArithmetic(SUB, x, y, Pow2(w)) == Some(B.EvaluateField(B.BinaryFieldOp.Sub, x, y)) <==> y <= x
  {
    NotThePower(w);
  }

  lemma WordProductAsElement(x: Fr, y: Fr, w: nat)
    ensures x * y >= 0
    ensures A.UintArithmetic(MUL, x, y, Pow2(w)) == Some(B.EvaluateField(B.BinaryFieldOp.Mul, x, y)) <==> SameFieldWrap(x * y, w)
  {
    MulNonneg(x, y);
    FieldWrapExact(x * y, w);
  }

  lemma WordDivision(x: nat, y: nat, m: nat)
    requires m > 0
    ensures A.UintArithmetic(DIV, x, y, m) == if y == 0 then None else Some(x / y)
  {
  }

  lemma TruncatedQuotientExact(x: Fr, y: Fr, q: nat)
    requires y != 0 && q == x / y
    ensures B.EvaluateField(B.BinaryFieldOp.Div, x, y) == q <==> LosesNothing(x, y)
  {
    WordQuotientExact(x, y);
    FieldQuotientExact(x, y, q);
  }

  lemma WordQuotientAsElement(x: Fr, y: Fr, w: nat)
    ensures A.UintArithmetic(DIV, x, y, Pow2(w)) == Some(B.EvaluateField(B.BinaryFieldOp.Div, x, y))
      <==> y != 0 && LosesNothing(x, y)
  {
    hide *;
    WordDivision(x, y, Pow2(w));
    if y != 0 {
      TruncatedQuotientExact(x, y, x / y);
    }
  }

  lemma WordsAsElementsExact(op: B.BinaryFieldOp, a: A.Cell, b: A.Cell)
    requires Words(a, b) && a.value < P && b.value < P && !op.Equals?
    ensures A.UintArithmetic(FieldOpcode(op), a.value, b.value, Pow2(A.Width(a.tag))) == Some(B.EvaluateField(op, a.value, b.value))
      <==> WordsAsElements(op, a, b)
  {
    var x, y, w := a.value, b.value, A.Width(a.tag);
    WordBelow(a);
    WordBelow(b);
    match op
    case Add => WordSumAsElement(x, y, w);
    case Mul => WordProductAsElement(x, y, w);
    case Sub => WordDifferenceAsElement(x, y, w);
    case Div => WordQuotientAsElement(x, y, w);
  }

  /** The ALU gives the number of the field operation exactly on two field elements with a non-zero divisor, and on two
      words where neither wrapping nor truncation shows. */
  lemma FieldValueExact(op: B.BinaryFieldOp, a: Option<A.Cell>, b: Option<A.Cell>)
    requires WellFormed(a) && WellFormed(b) && Num(a) < P && Num(b) < P
    ensures A.Alu(FieldOpcode(op), FIELD, a, b).Put? &&
        A.Alu(FieldOpcode(op), FIELD, a, b).cell.value == B.EvaluateField(op, Num(a), Num(b))
      <==> FieldSame(op, a, b)
  {
    FieldOpExact(op, a, b);
    if IsIntegral(a) && IsIntegral(b) && !op.Equals? {
      WordsAsElementsExact(op, a.value, b.value);
    }
  }

  // ---------------------------------------------------------------- results are words again

  /** A number that the Brillig VM computes fits the class the ALU files it under. */
  lemma ArithmeticFits(op: Op, a: A.Cell, b: A.Cell)
    requires A.IsUnchecked(op) && A.WellFormedCell(a) && A.WellFormedCell(b)
    requires A.Arithmetic(op, a, b).Put? && A.Arithmetic(op, a, b).cell.value >= 0
    ensures A.WellFormedCell(A.Arithmetic(op, a, b).cell)
  {
    if op.DIV? && Words(a, b) {
      DivValue(a.tag, a, b);
      Ints.QuotientAtMost(a.value, b.value);
    }
  }
}
