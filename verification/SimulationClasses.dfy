/** Steps that agree and leave the class the opcode declares. */
module SimulationClasses {
  import opened Wrappers
  import opened Numbers
  import opened FieldElement
  import Ints = BrilligArithmetic
  import B = Brillig
  import opened AvmCodec
  import opened Transpiler
  import A = AvmMachine
  import opened Simulation
  import opened SimulationResidues
  import opened SimulationValues
  import opened SimulationRelation
  import opened SimulationSteps
  import opened SimulationMoves

  /** The destination of an opcode holds the type the opcode declares. */
  ghost predicate Declared(op: B.Opcode, m: A.TaggedMemory)
  {
    match op
    case BinaryFieldOp(dst, _, _, _) => HasTagOf(A.Get(m, dst), FIELD)
    case BinaryIntOp(dst, _, n, _, _) => ValidBitSize(n) ==> HasTagOf(A.Get(m, dst), TagFromBitSize(n))
    case Cast(dst, _, n) => ValidBitSize(n) ==> HasTagOf(A.Get(m, dst), TagFromBitSize(n))
    case Const(dst, n, _) => ValidBitSize(n) ==> HasTagOf(A.Get(m, dst), TagFromBitSize(n))
    case CalldataCopy(dst, size, _) => forall a: nat :: dst <= a < dst + size ==> HasTagOf(A.Get(m, a), FIELD)
    case _ => true
  }

  /** The current opcode does the same on both machines, and what it writes has the class it declares. */
  ghost predicate StepAgreesInClass(p: B.Program, calldata: seq<Fr>, s: B.Vm, t: A.AvmState)
    requires AcceptedProgram(p) && Related(p, s, t)
  {
    StepAgrees(p, calldata, s, t) &&
    (B.Step(p, calldata, s).Running? ==> Declared(p[s.pc], Macro(p, calldata, s, t).state.memory))
  }

  /** What the operands must be for an n-bit operation to match at the declared class. ADD, SUB, MUL and DIV file their
      result under the class of the left operand; the other operations check it. */
  ghost predicate IntCompatible(op: Ints.BinaryIntOp, n: nat, a: Option<A.Cell>, b: Option<A.Cell>)
    requires Operands(n, a, b)
  {
    IntSame(op, n, a, b) && (FailsToDivide(op, n, b) || HasTagOf(a, TagFromBitSize(n)))
  }

  ghost predicate IntOperandsCompatible(op: Ints.BinaryIntOp, n: nat, a: Option<A.Cell>, b: Option<A.Cell>)
  {
    Operands(n, a, b) && IntCompatible(op, n, a, b)
  }

  /** The condition for that: on arithmetic it asks for operand classes, elsewhere it is the same. */
  ghost predicate ClassCompatible(p: B.Program, calldata: seq<Fr>, s: B.Vm, m: A.TaggedMemory)
    requires s.pc < |p|
  {
    var next := s.pc + 1 < |p|;
    match p[s.pc]
    case BinaryFieldOp(_, op, lhs, rhs) => next && FieldCompatible(op, A.Get(m, lhs), A.Get(m, rhs))
    case BinaryIntOp(_, op, n, lhs, rhs) =>
      if FailsToDivide(op, n, A.Get(m, rhs)) then !next || IntOperandsCompatible(op, n, A.Get(m, lhs), A.Get(m, rhs))
      else next && IntOperandsCompatible(op, n, A.Get(m, lhs), A.Get(m, rhs))
    case _ => Compatible(p, calldata, s, m)
  }

  // ---------------------------------------------------------------- operations at the declared class

  ghost predicate IntMatches(op: Ints.BinaryIntOp, n: nat, a: Option<A.Cell>, b: Option<A.Cell>)
    requires Operands(n, a, b) && !op.SignedDiv?
  {
    Matches(BrilligValue(op, n, Num(a), Num(b)), A.Alu(IntOpcode(op), TagFromBitSize(n), a, b), TagFromBitSize(n))
  }

  lemma MatchesIffClass(e: Ints.Eval, r: A.AluResult, t: TypeTag)
    ensures Matches(e, r, t) <==> ValueMatches(e, r) && (e.Value? ==> r.Put? && r.cell.tag == t)
  {
  }

  /** Every result has the class of the left operand. */
  lemma LeftClass(op: Op, inTag: TypeTag, a: Option<A.Cell>, b: Option<A.Cell>)
    requires A.Alu(op, inTag, a, b).Put?
    ensures a.Some? && A.Alu(op, inTag, a, b).cell.tag == a.value.tag
  {
  }

  /** The AVM operation gives the Brillig value at the declared class exactly for compatible operands. */
  lemma IntOpExact(op: Ints.BinaryIntOp, n: nat, a: Option<A.Cell>, b: Option<A.Cell>)
    requires Operands(n, a, b) && !op.SignedDiv?
    ensures IntMatches(op, n, a, b) <==> IntCompatible(op, n, a, b)
  {
    hide Pow2, IntSame, Ints.Evaluate, A.Alu;
    IntOutcome(op, n, a, b);
    var e, r := BrilligValue(op, n, Num(a), Num(b)), A.Alu(IntOpcode(op), TagFromBitSize(n), a, b);
    MatchesIffClass(e, r, TagFromBitSize(n));
    if r.Put? {
      LeftClass(IntOpcode(op), TagFromBitSize(n), a, b);
    }
  }

  /** At 8 to 128 bits: the classes, and the size of a subtrahend or a divisor of another width. */
  predicate WordsFit(op: Ints.BinaryIntOp, n: nat, a: Option<A.Cell>, b: Option<A.Cell>)
    requires PlainWidth(n)
  {
    var t, m := TagFromBitSize(n), Pow2(n);
    match op
    case Add => HasTagOf(a, t) && IsIntegral(b)
    case Mul => HasTagOf(a, t) && IsIntegral(b)
    case Sub => HasTagOf(a, t) && IsIntegral(b) && Num(b) <= Num(a) + m
    case UnsignedDiv =>
      if Num(b) % m == 0 then Num(b) == 0 || !SameKind(a, b)
      else HasTagOf(a, t) && IsIntegral(b) && (Num(b) < m || Num(a) < Num(b) % m)
    case _ => HasTagOf(a, t) && HasTagOf(b, t)
  }

  lemma RingWords(op: Ints.BinaryIntOp, n: nat, a: Option<A.Cell>, b: Option<A.Cell>)
    requires PlainWidth(n) && WellFormed(a) && WellFormed(b) && (op.Add? || op.Sub? || op.Mul?)
    ensures IntCompatible(op, n, a, b) <==> WordsFit(op, n, a, b)
  {
    hide Pow2;
    TagWidth(n);
    if HasTagOf(a, TagFromBitSize(n)) && IsIntegral(b) {
      MulNonneg(Num(a), Num(b));
      ResidueBelow(Num(a) + Num(b), Pow2(n));
      ResidueBelow(Num(a) * Num(b), Pow2(n));
    }
  }

  lemma DivisionWords(n: nat, a: Option<A.Cell>, b: Option<A.Cell>)
    requires PlainWidth(n) && WellFormed(a) && WellFormed(b)
    ensures IntCompatible(Ints.UnsignedDiv, n, a, b) <==> WordsFit(Ints.UnsignedDiv, n, a, b)
  {
    hide Pow2;
    TagWidth(n);
  }

  lemma WordsCompatible(op: Ints.BinaryIntOp, n: nat, a: Option<A.Cell>, b: Option<A.Cell>)
    requires PlainWidth(n) && WellFormed(a) && WellFormed(b)
    ensures IntCompatible(op, n, a, b) <==> WordsFit(op, n, a, b)
  {
    if op.Add? || op.Sub? || op.Mul? {
      RingWords(op, n, a, b);
    } else if op.UnsignedDiv? {
      DivisionWords(n, a, b);
    }
  }

  lemma ResidueBelow(z: nat, m: nat)
    requires m > 0
    ensures z % m < m
  {
  }

  /** At 254 bits the operands are field elements, and neither wrapping at 254 bits nor truncation may show. */
  lemma ElementsCompatible(op: Ints.BinaryIntOp, a: Option<A.Cell>, b: Option<A.Cell>)
    requires WellFormed(a) && WellFormed(b)
    ensures 0 <= Num(a) < P && 0 <= Num(b) < P
    ensures IntCompatible(op, 254, a, b) <==>
      match op
      case Add => IsField(a) && IsField(b) && Num(a) + Num(b) < Pow2(254)
      case Mul => IsField(a) && IsField(b) && Num(a) * Num(b) < Pow2(254)
      case Sub => IsField(a) && IsField(b) && Num(b) <= Num(a)
      case UnsignedDiv => Num(b) == 0 || (IsField(a) && IsField(b) && LosesNothing(Num(a), Num(b)))
      case Equals => IsField(a) && IsField(b)
      case _ => false
  {
    hide Pow2;
    NumberBelowP(a);
    NumberBelowP(b);
    WideModulus();
    SameResidue(Num(a), Pow2(254));
    SameResidue(Num(b), Pow2(254));
    if Num(b) != 0 {
      WordQuotientExact(Num(a), Num(b));
    }
  }

  // ---------------------------------------------------------------- arithmetic

  /** A running AVM has filed the result of the ALU. */
  lemma FiledResult(p: B.Program, calldata: seq<Fr>, s: B.Vm, t: A.AvmState, dst: nat, r: A.AluResult)
    requires AcceptedProgram(p) && Related(p, s, t)
    requires Macro(p, calldata, s, t) == AfterPcCheck(AvmResult(t, dst, r), PcAt(p, |p|)) && Macro(p, calldata, s, t).Running?
    ensures r.Put? && Macro(p, calldata, s, t).state.memory == A.Set(t.memory, dst, Some(r.cell))
    ensures A.Get(Macro(p, calldata, s, t).state.memory, dst) == Some(r.cell)
  {
  }

  lemma FieldMacro(p: B.Program, calldata: seq<Fr>, s: B.Vm, t: A.AvmState)
    requires Plain(p) && Related(p, s, t) && p[s.pc].BinaryFieldOp?
    ensures var op := p[s.pc];
      var r := A.Alu(FieldOpcode(op.fieldOp), FIELD, A.Get(t.memory, op.lhs), A.Get(t.memory, op.rhs));
      Macro(p, calldata, s, t) == AfterPcCheck(AvmResult(t, op.destination, r), PcAt(p, |p|))
  {
    var op := p[s.pc];
    assert PlainOp(op);
    ThreeMacro(p, calldata, s, t, FieldOpcode(op.fieldOp), FIELD, op.lhs, op.rhs, op.destination);
  }

  lemma FieldMatchesIffClass(op: B.BinaryFieldOp, a: Option<A.Cell>, b: Option<A.Cell>)
    requires WellFormed(a) && WellFormed(b) && Num(a) < P && Num(b) < P
    ensures var r := A.Alu(FieldOpcode(op), FIELD, a, b);
      FieldCompatible(op, a, b) <==> FieldSame(op, a, b) && r.Put? && r.cell.tag == FIELD
  {
    FieldOpExact(op, a, b);
    FieldValueExact(op, a, b);
  }

  lemma FieldClassStep(p: B.Program, calldata: seq<Fr>, s: B.Vm, t: A.AvmState)
    requires Plain(p) && Related(p, s, t) && p[s.pc].BinaryFieldOp?
    ensures StepAgreesInClass(p, calldata, s, t) <==> ClassCompatible(p, calldata, s, t.memory)
  {
    var op := p[s.pc];
    var a, b := A.Get(t.memory, op.lhs), A.Get(t.memory, op.rhs);
    FieldStep(p, calldata, s, t);
    OperandNumbers(s.memory, t.memory, op.lhs);
    OperandNumbers(s.memory, t.memory, op.rhs);
    FieldMatchesIffClass(op.fieldOp, a, b);
    FieldMacro(p, calldata, s, t);
    if StepAgrees(p, calldata, s, t) && B.Step(p, calldata, s).Running? {
      FiledResult(p, calldata, s, t, op.destination, A.Alu(FieldOpcode(op.fieldOp), FIELD, a, b));
    }
  }

  lemma IntRunning(p: B.Program, s: B.Vm, dst: nat, e: Ints.Eval)
    ensures BrilligResult(p, s, dst, e).Running? <==> e.Value? && s.pc + 1 < |p|
  {
  }

  lemma IntClassStep(p: B.Program, calldata: seq<Fr>, s: B.Vm, t: A.AvmState)
    requires Plain(p) && Related(p, s, t) && p[s.pc].BinaryIntOp?
    ensures StepAgreesInClass(p, calldata, s, t) <==> ClassCompatible(p, calldata, s, t.memory)
  {
    var op := p[s.pc];
    var n, a, b := op.bitSize, A.Get(t.memory, op.lhs), A.Get(t.memory, op.rhs);
    IntOperands(p, s, t);
    var e, r := BrilligValue(op.intOp, n, Num(a), Num(b)), A.Alu(IntOpcode(op.intOp), TagFromBitSize(n), a, b);
    IntStep(p, calldata, s, t);
    IntOutcome(op.intOp, n, a, b);
    IntOpExact(op.intOp, n, a, b);
    MatchesIffClass(e, r, TagFromBitSize(n));
    IntProcessed(p, calldata, s, t.memory);
    IntRunning(p, s, op.destination, e);
    IntMacro(p, calldata, s, t);
    if StepAgrees(p, calldata, s, t) && B.Step(p, calldata, s).Running? {
      FiledResult(p, calldata, s, t, op.destination, r);
    }
  }

  // ---------------------------------------------------------------- every opcode

  /** One cell of the given class was written and nothing else changed. */
  predicate Writes(m: A.TaggedMemory, m': A.TaggedMemory, dst: int, tag: TypeTag)
  {
    dst in m' && m'[dst].tag == tag && m' == m[dst := m'[dst]]
  }

  lemma SetWrites(m: A.TaggedMemory, dst: int, cell: A.Cell)
    ensures Writes(m, A.Set(m, dst, Some(cell)), dst, cell.tag)
  {
  }

  lemma CastDeclares(p: B.Program, calldata: seq<Fr>, s: B.Vm, t: A.AvmState)
    requires Plain(p) && Related(p, s, t) && p[s.pc].Cast? && Macro(p, calldata, s, t).Running?
    ensures ValidBitSize(p[s.pc].bitSize)
    ensures Writes(t.memory, Macro(p, calldata, s, t).state.memory, p[s.pc].destination, TagFromBitSize(p[s.pc].bitSize))
  {
    var op := p[s.pc];
    assert PlainOp(op);
    CastMacro(p, calldata, s, t);
    CastResult(t, op.destination, op.source, op.bitSize);
  }

  lemma SmallConstDeclares(p: B.Program, calldata: seq<Fr>, s: B.Vm, t: A.AvmState)
    requires Plain(p) && Related(p, s, t) && p[s.pc].Const? && p[s.pc].bitSize != 254 && Macro(p, calldata, s, t).Running?
    ensures ValidBitSize(p[s.pc].bitSize)
    ensures Writes(t.memory, Macro(p, calldata, s, t).state.memory, p[s.pc].destination, TagFromBitSize(p[s.pc].bitSize))
  {
    hide Macro, SameMemory, SameStack, ToU128, Pow2;
    var op := p[s.pc];
    assert PlainOp(op);
    SmallConstMacro(p, calldata, s, t, op.destination, op.bitSize, op.value);
    var tag := TagFromBitSize(op.bitSize);
    SetWrites(t.memory, op.destination, A.Cell(tag, ToU128(op.value) % Pow2(A.Width(tag))));
  }

  lemma FieldConstDeclares(p: B.Program, calldata: seq<Fr>, s: B.Vm, t: A.AvmState)
    requires Plain(p) && Related(p, s, t) && p[s.pc].Const? && p[s.pc].bitSize == 254 && Macro(p, calldata, s, t).Running?
    ensures Writes(t.memory, Macro(p, calldata, s, t).state.memory, p[s.pc].destination, FIELD)
  {
    hide Macro, SameMemory, SameStack;
    var op := p[s.pc];
    assert PlainOp(op);
    FieldConstMacro(p, calldata, s, t, op.destination, op.value);
    SetWrites(t.memory, op.destination, A.Cell(FIELD, op.value));
  }

  lemma ConstDeclares(p: B.Program, calldata: seq<Fr>, s: B.Vm, t: A.AvmState)
    requires Plain(p) && Related(p, s, t) && p[s.pc].Const? && Macro(p, calldata, s, t).Running?
    ensures ValidBitSize(p[s.pc].bitSize)
    ensures Writes(t.memory, Macro(p, calldata, s, t).state.memory, p[s.pc].destination, TagFromBitSize(p[s.pc].bitSize))
  {
    if p[s.pc].bitSize == 254 {
      FieldConstDeclares(p, calldata, s, t);
    } else {
      SmallConstDeclares(p, calldata, s, t);
    }
  }

  lemma CopyDeclares(p: B.Program, calldata: seq<Fr>, s: B.Vm, t: A.AvmState)
    requires Plain(p) && Related(p, s, t) && p[s.pc].CalldataCopy?
    requires Macro(p, calldata, s, t).Running? && B.Step(p, calldata, s).Running?
    ensures p[s.pc].offset + p[s.pc].size <= |calldata|
    ensures Macro(p, calldata, s, t).state.memory
      == A.CopyCells(t.memory, p[s.pc].destination, calldata[p[s.pc].offset..p[s.pc].offset + p[s.pc].size])
  {
    hide Macro, SameMemory, SameStack, A.CopyCells, A.Execute;
    var offset, size, dst := p[s.pc].offset, p[s.pc].size, p[s.pc].destination;
    assert PlainOp(p[s.pc]);
    CopyProcessed(p, calldata, s, t.memory, dst, size, offset);
    CopyMacro(p, calldata, s, t, offset, size, dst);
    CopyInRange(calldata, offset, size, dst, t);
  }

  /** Outside arithmetic, an opcode that goes on leaves the class it declares. */
  lemma OthersDeclare(p: B.Program, calldata: seq<Fr>, s: B.Vm, t: A.AvmState)
    requires Plain(p) && Related(p, s, t) && !p[s.pc].BinaryFieldOp? && !p[s.pc].BinaryIntOp?
    requires Macro(p, calldata, s, t).Running? && B.Step(p, calldata, s).Running?
    ensures Declared(p[s.pc], Macro(p, calldata, s, t).state.memory)
  {
    match p[s.pc]
    case Cast(_, _, _) => CastDeclares(p, calldata, s, t);
    case Const(_, _, _) => ConstDeclares(p, calldata, s, t);
    case CalldataCopy(_, _, _) => CopyDeclares(p, calldata, s, t);
    case _ =>
  }

  /** The AVM does what the Brillig VM does and keeps to the declared classes exactly when the opcode is class compatible. */
  lemma ClassExact(p: B.Program, calldata: seq<Fr>, s: B.Vm, t: A.AvmState)
    requires Plain(p) && Related(p, s, t)
    ensures StepAgreesInClass(p, calldata, s, t) <==> ClassCompatible(p, calldata, s, t.memory)
  {
    if p[s.pc].BinaryFieldOp? {
      FieldClassStep(p, calldata, s, t);
    } else if p[s.pc].BinaryIntOp? {
      IntClassStep(p, calldata, s, t);
    } else {
      StepExact(p, calldata, s, t);
      if StepAgrees(p, calldata, s, t) && B.Step(p, calldata, s).Running? {
        OthersDeclare(p, calldata, s, t);
      }
    }
  }
}
