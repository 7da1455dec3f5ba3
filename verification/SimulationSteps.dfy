/** One Brillig step against the AVM instructions emitted for it, opcode by opcode. */
module SimulationSteps {
  import opened Wrappers
  import opened Numbers
  import opened FieldElement
  import Ints = BrilligArithmetic
  import B = Brillig
  import opened AvmCodec
  import opened Transpiler
  import A = AvmMachine
  import opened Simulation
  import opened SimulationValues
  import opened SimulationRelation

  /** The condition on operands, pointers and ranges under which an opcode agrees, checkable before the step. */
  ghost predicate Compatible(p: B.Program, calldata: seq<Fr>, s: B.Vm, m: A.TaggedMemory)
    requires s.pc < |p|
  {
    var next := s.pc + 1 < |p|;
    match p[s.pc]
    case BinaryFieldOp(_, op, lhs, rhs) => next && FieldOperandsSame(op, A.Get(m, lhs), A.Get(m, rhs))
    case BinaryIntOp(_, op, n, lhs, rhs) =>
      if FailsToDivide(op, n, A.Get(m, rhs)) then !next || IntOperandsSame(op, n, A.Get(m, lhs), A.Get(m, rhs))
      else next && IntOperandsSame(op, n, A.Get(m, lhs), A.Get(m, rhs))
    case Cast(_, source, n) => next && source in m && (n == 1 ==> m[source].value % 256 < 2)
    case JumpIf(condition, _) => condition in m && (next || m[condition].value != 0)
    case Jump(_) => true
    case CalldataCopy(dst, size, offset) => next && offset + size <= |calldata| && dst + size < A.MAX_MEMORY_SIZE
    case Call(_) => true
    case Const(_, n, value) =>
      next && ValidBitSize(n) && (n != 254 ==> value < Pow2(A.Width(TagFromBitSize(n))))
    case Return => s.callStack == [] || s.callStack[|s.callStack| - 1] + 1 < |p|
    case Mov(_, _) => next
    case Load(_, ptr) => next && HasTagOf(A.Get(m, ptr), UINT32) && m[ptr].value < A.MAX_MEMORY_SIZE
    case Store(ptr, _) => next && HasTagOf(A.Get(m, ptr), UINT32) && m[ptr].value < A.MAX_MEMORY_SIZE
    case Trap => true
    case Stop(offset, size) => Readable(m, offset, size)
    case _ => false
  }

  ghost predicate FieldOperandsSame(op: B.BinaryFieldOp, a: Option<A.Cell>, b: Option<A.Cell>)
  {
    WellFormed(a) && WellFormed(b) && Num(a) < P && Num(b) < P && FieldSame(op, a, b)
  }

  ghost predicate IntOperandsSame(op: Ints.BinaryIntOp, n: nat, a: Option<A.Cell>, b: Option<A.Cell>)
  {
    Operands(n, a, b) && IntSame(op, n, a, b)
  }

  /** Every word of a range exists and is defined. */
  ghost predicate Readable(m: A.TaggedMemory, offset: nat, size: nat)
  {
    offset + size < A.MAX_MEMORY_SIZE && forall a: nat :: offset <= a < offset + size ==> a in m
  }

  /** The operation fails in the Brillig VM. */
  predicate FailsToDivide(op: Ints.BinaryIntOp, n: nat, b: Option<A.Cell>)
  {
    op.UnsignedDiv? && Num(b) % Pow2(n) == 0
  }

  /** The AVM run of the instructions emitted for the current opcode. */
  ghost function Macro(p: B.Program, calldata: seq<Fr>, s: B.Vm, t: A.AvmState): (r: A.AvmOutcome)
    requires AcceptedProgram(p) && Related(p, s, t)
  {
    PcBound(p, s.pc);
    A.Steps(Code(p), calldata, t, Count(p[s.pc]))
  }

  /** The current opcode does the same on both machines. */
  ghost predicate StepAgrees(p: B.Program, calldata: seq<Fr>, s: B.Vm, t: A.AvmState)
    requires AcceptedProgram(p) && Related(p, s, t)
  {
    Agrees(p, B.Step(p, calldata, s), Macro(p, calldata, s, t))
  }

  // ---------------------------------------------------------------- plumbing

  /** What the loop of the simulator makes of an executed instruction. */
  function AfterPcCheck(r: A.AvmOutcome, length: nat): (r': A.AvmOutcome)
  {
    if r.Running? && !(0 <= r.state.pc < length) then A.Halted else r
  }

  lemma OneStep(code: seq<Decoded>, calldata: seq<Fr>, t: A.AvmState)
    requires 0 <= t.pc < |code|
    ensures A.Steps(code, calldata, t, 1) == AfterPcCheck(A.Execute(calldata, code[t.pc], t), |code|)
  {
    var r := A.Step(code, calldata, t);
    if r.Running? {
      assert A.Steps(code, calldata, r.state, 0) == r;
    }
  }

  lemma MacroOfOne(p: B.Program, calldata: seq<Fr>, s: B.Vm, t: A.AvmState)
    requires AcceptedProgram(p) && Related(p, s, t) && Count(p[s.pc]) == 1
    ensures 0 <= t.pc < |Code(p)| && Macro(p, calldata, s, t) == A.Steps(Code(p), calldata, t, 1)
  {
    PcBound(p, s.pc);
  }

  lemma OneInstructionAt(p: B.Program, calldata: seq<Fr>, s: B.Vm, t: A.AvmState, i: Decoded)
    requires AcceptedProgram(p) && Related(p, s, t) && Count(p[s.pc]) == 1
    requires 0 <= t.pc < |Code(p)| && Code(p)[t.pc] == i
    ensures Macro(p, calldata, s, t) == AfterPcCheck(A.Execute(calldata, i, t), PcAt(p, |p|))
  {
    MacroOfOne(p, calldata, s, t);
    CodeLength(p);
    OneStep(Code(p), calldata, t);
  }

  lemma EmittedCode(p: B.Program, k: nat, i: Decoded)
    requires AcceptedProgram(p) && k < |p| && Count(p[k]) == 1
    requires Accepted(p[k], |p|) ==> |Emit(p, p[k])| == 1 && Denote(Emit(p, p[k])[0]) == i
    ensures PcAt(p, k) < |Code(p)| && Code(p)[PcAt(p, k)] == i
  {
    CodeAt(p, k, 0);
  }

  /** An opcode with one instruction: the macro step is that instruction. */
  lemma OneInstruction(p: B.Program, calldata: seq<Fr>, s: B.Vm, t: A.AvmState, i: Decoded)
    requires AcceptedProgram(p) && Related(p, s, t) && Count(p[s.pc]) == 1
    requires Accepted(p[s.pc], |p|) ==> |Emit(p, p[s.pc])| == 1 && Denote(Emit(p, p[s.pc])[0]) == i
    ensures Macro(p, calldata, s, t) == AfterPcCheck(A.Execute(calldata, i, t), PcAt(p, |p|))
  {
    EmittedCode(p, s.pc, i);
    OneInstructionAt(p, calldata, s, t, i);
  }

  lemma PcStep(p: B.Program, i: nat)
    requires AcceptedProgram(p) && i < |p|
    ensures PcAt(p, i + 1) == PcAt(p, i) + Count(p[i])
    ensures PcAt(p, i + 1) < PcAt(p, |p|) <==> i + 1 < |p|
    ensures PcAt(p, i) < PcAt(p, |p|)
  {
    CodeLength(p);
    PcBound(p, i);
    PcBound(p, i + 1);
  }

  /** Both machines go on behind the current opcode: they agree when a next opcode exists and the new memories are the same. */
  lemma AdvanceAgrees(p: B.Program, s: B.Vm, t: A.AvmState, inner: seq<Fr>, m: A.TaggedMemory)
    requires AcceptedProgram(p) && Related(p, s, t)
    ensures Agrees(p, B.Advance(p, s, inner),
        AfterPcCheck(A.Running(t.(pc := PcAt(p, s.pc + 1), memory := m)), PcAt(p, |p|)))
      <==> s.pc + 1 < |p| && SameMemory(inner, m)
  {
    PcStep(p, s.pc);
  }

  lemma NextIsAdvance(p: B.Program, s: B.Vm, t: A.AvmState, m: A.TaggedMemory)
    requires AcceptedProgram(p) && Related(p, s, t) && Count(p[s.pc]) == 1
    ensures A.Next(t, m) == A.Running(t.(pc := PcAt(p, s.pc + 1), memory := m))
  {
    PcStep(p, s.pc);
  }

  /** Both machines write one cell and go on: they agree when a next opcode exists and the cell is right. */
  lemma WriteAgrees(p: B.Program, s: B.Vm, t: A.AvmState, dst: nat, v: Fr, cell: A.Cell)
    requires AcceptedProgram(p) && Related(p, s, t) && Count(p[s.pc]) == 1 && (cell.value == v ==> A.WellFormedCell(cell))
    ensures Agrees(p, B.Advance(p, s, B.Write(s.memory, dst, v)),
        AfterPcCheck(A.Next(t, A.Set(t.memory, dst, Some(cell))), PcAt(p, |p|)))
      <==> s.pc + 1 < |p| && cell.value == v
  {
    var inner, m := B.Write(s.memory, dst, v), A.Set(t.memory, dst, Some(cell));
    NextIsAdvance(p, s, t, m);
    AdvanceAgrees(p, s, t, inner, m);
    if cell.value == v {
      SameAfterSet(s.memory, t.memory, dst, v, cell);
    } else {
      assert B.Read(inner, dst) == v && Num(A.Get(m, dst)) == cell.value;
    }
  }

  // ---------------------------------------------------------------- decoded arguments

  lemma WordValue(x: nat)
    requires x < U32_LIMIT
    ensures Word(x) == Operand(U32, x)
  {
    DivModUnique(x, U32_LIMIT, 0, x);
  }

  lemma TagRoundTrip(t: TypeTag)
    ensures A.TagOf(TagCode(t)) == t
  {
  }

  lemma DenoteThree(op: Op, tag: TypeTag, x: nat, y: nat, z: nat)
    requires x < U32_LIMIT && y < U32_LIMIT && z < U32_LIMIT
    ensures Denote(AvmInstruction(op, Some(ALL_DIRECT), Some(tag), [Word(x), Word(y), Word(z)]))
      == Decoded(op, [0, TagCode(tag), x, y, z])
  {
    WordValue(x);
    WordValue(y);
    WordValue(z);
    var f := Fields(AvmInstruction(op, Some(ALL_DIRECT), Some(tag), [Word(x), Word(y), Word(z)]));
    assert f == [Operand(U8, 0), Operand(U8, TagCode(tag)), Operand(U32, x), Operand(U32, y), Operand(U32, z)];
    assert ReadBacks(f) == [0, TagCode(tag), x, y, z];
  }

  lemma DenoteTriple(op: Op, x: nat, y: nat, z: nat)
    requires x < U32_LIMIT && y < U32_LIMIT && z < U32_LIMIT
    ensures Denote(AvmInstruction(op, Some(ALL_DIRECT), None, [Word(x), Word(y), Word(z)])) == Decoded(op, [0, x, y, z])
  {
    WordValue(x);
    WordValue(y);
    WordValue(z);
    var f := Fields(AvmInstruction(op, Some(ALL_DIRECT), None, [Word(x), Word(y), Word(z)]));
    assert f == [Operand(U8, 0), Operand(U32, x), Operand(U32, y), Operand(U32, z)];
    assert ReadBacks(f) == [0, x, y, z];
  }

  lemma DenoteTwo(op: Op, tag: TypeTag, x: nat, y: nat)
    requires x < U32_LIMIT && y < U32_LIMIT
    ensures Denote(AvmInstruction(op, Some(ALL_DIRECT), Some(tag), [Word(x), Word(y)])) == Decoded(op, [0, TagCode(tag), x, y])
  {
    WordValue(x);
    WordValue(y);
    var f := Fields(AvmInstruction(op, Some(ALL_DIRECT), Some(tag), [Word(x), Word(y)]));
    assert f == [Operand(U8, 0), Operand(U8, TagCode(tag)), Operand(U32, x), Operand(U32, y)];
    assert ReadBacks(f) == [0, TagCode(tag), x, y];
  }

  lemma DenotePair(op: Op, indirect: byte, x: nat, y: nat)
    requires x < U32_LIMIT && y < U32_LIMIT
    ensures Denote(AvmInstruction(op, Some(indirect), None, [Word(x), Word(y)])) == Decoded(op, [indirect, x, y])
  {
    WordValue(x);
    WordValue(y);
    var f := Fields(AvmInstruction(op, Some(indirect), None, [Word(x), Word(y)]));
    assert f == [Operand(U8, indirect), Operand(U32, x), Operand(U32, y)];
    assert ReadBacks(f) == [indirect as int, x, y];
  }

  lemma DenoteTarget(op: Op, x: nat)
    requires x < U32_LIMIT
    ensures Denote(AvmInstruction(op, None, None, [Word(x)])) == Decoded(op, [x])
  {
    WordValue(x);
    var f := Fields(AvmInstruction(op, None, None, [Word(x)]));
    assert f == [Operand(U32, x)];
    assert ReadBacks(f) == [x];
  }

  // ---------------------------------------------------------------- arithmetic

  /** The AVM side of a binary operation. */
  lemma ThreeMacro(p: B.Program, calldata: seq<Fr>, s: B.Vm, t: A.AvmState, op: Op, tag: TypeTag, x: nat, y: nat, dst: nat)
    requires AcceptedProgram(p) && Related(p, s, t) && Count(p[s.pc]) == 1 && FormatOf(op) == ThreeOperand
    requires A.InMemory(x) && A.InMemory(y) && A.InMemory(dst)
    requires Accepted(p[s.pc], |p|) ==>
      Emit(p, p[s.pc]) == [AvmInstruction(op, Some(ALL_DIRECT), Some(tag), [Word(x), Word(y), Word(dst)])]
    ensures Macro(p, calldata, s, t) == AfterPcCheck(A.ExecThree(op, tag, x, y, dst, t), PcAt(p, |p|))
  {
    var i := Decoded(op, [0, TagCode(tag), x, y, dst]);
    DenoteThree(op, tag, x, y, dst);
    OneInstruction(p, calldata, s, t, i);
    ThreeExecutes(calldata, op, tag, x, y, dst, t);
  }

  lemma ThreeExecutes(calldata: seq<Fr>, op: Op, tag: TypeTag, x: nat, y: nat, dst: nat, t: A.AvmState)
    requires FormatOf(op) == ThreeOperand
    ensures A.Execute(calldata, Decoded(op, [0, TagCode(tag), x, y, dst]), t) == A.ExecThree(op, tag, x, y, dst, t)
  {
    TagRoundTrip(tag);
  }

  lemma OperandNumbers(inner: seq<Fr>, m: A.TaggedMemory, x: nat)
    requires SameMemory(inner, m)
    ensures WellFormed(A.Get(m, x)) && B.Read(inner, x) == Num(A.Get(m, x))
  {
  }

  /** Both machines file a number under the destination, or the AVM fails. */
  lemma AluAgrees(p: B.Program, s: B.Vm, t: A.AvmState, dst: nat, v: Fr, r: A.AluResult)
    requires AcceptedProgram(p) && Related(p, s, t) && Count(p[s.pc]) == 1
    requires r.Put? && r.cell.value == v ==> A.WellFormedCell(r.cell)
    ensures Agrees(p, B.Advance(p, s, B.Write(s.memory, dst, v)), AfterPcCheck(AvmResult(t, dst, r), PcAt(p, |p|)))
      <==> s.pc + 1 < |p| && r.Put? && r.cell.value == v
  {
    if r.Put? {
      WriteAgrees(p, s, t, dst, v, r.cell);
    }
  }

  lemma FieldResultFits(op: B.BinaryFieldOp, a: Option<A.Cell>, b: Option<A.Cell>)
    requires WellFormed(a) && WellFormed(b)
    ensures var r := A.Alu(FieldOpcode(op), FIELD, a, b);
      r.Put? && r.cell.value >= 0 ==> A.WellFormedCell(r.cell)
  {
    var r := A.Alu(FieldOpcode(op), FIELD, a, b);
    if r.Put? && r.cell.value >= 0 && !op.Equals? {
      ArithmeticFits(FieldOpcode(op), a.value, b.value);
    }
  }

  lemma FieldStep(p: B.Program, calldata: seq<Fr>, s: B.Vm, t: A.AvmState)
    requires Plain(p) && Related(p, s, t) && p[s.pc].BinaryFieldOp?
    ensures StepAgrees(p, calldata, s, t) <==> Compatible(p, calldata, s, t.memory)
  {
    hide Macro, SameMemory, SameStack, A.Alu, B.EvaluateField, FieldSame, AcceptedPrefix, PcAt;
    var op := p[s.pc];
    var a, b := A.Get(t.memory, op.lhs), A.Get(t.memory, op.rhs);
    OperandNumbers(s.memory, t.memory, op.lhs);
    OperandNumbers(s.memory, t.memory, op.rhs);
    var r := A.Alu(FieldOpcode(op.fieldOp), FIELD, a, b);
    assert Macro(p, calldata, s, t) == AfterPcCheck(AvmResult(t, op.destination, r), PcAt(p, |p|)) by {
      ThreeMacro(p, calldata, s, t, FieldOpcode(op.fieldOp), FIELD, op.lhs, op.rhs, op.destination);
    }
    FieldResultFits(op.fieldOp, a, b);
    AluAgrees(p, s, t, op.destination, B.EvaluateField(op.fieldOp, Num(a), Num(b)), r);
    FieldValueExact(op.fieldOp, a, b);
  }

  lemma DividesToValue(op: Ints.BinaryIntOp, n: nat, a: Option<A.Cell>, b: Option<A.Cell>)
    requires WellFormed(a) && WellFormed(b) && !op.SignedDiv?
    ensures BrilligValue(op, n, Num(a), Num(b)) == Ints.DivisionByZero <==> FailsToDivide(op, n, b)
  {
    if !op.UnsignedDiv? {
      NoDivisionByZero(op, Num(a), Num(b), n);
    }
  }

  /** What the Brillig VM makes of an integer result. */
  function BrilligResult(p: B.Program, s: B.Vm, dst: nat, e: Ints.Eval): (r: B.Outcome)
  {
    match e
    case Value(v) => B.Advance(p, s, B.Write(s.memory, dst, v % P))
    case DivisionByZero => B.Failure
    case Panic => B.Panicked
  }

  lemma ReducedResult(p: B.Program, s: B.Vm, dst: nat, e: Ints.Eval)
    ensures BrilligResult(p, s, dst, Reduced(e)) == BrilligResult(p, s, dst, e)
  {
    if e.Value? {
      SameResidue(e.value % P, P);
    }
  }

  /** What the simulator makes of an ALU result. */
  function AvmResult(t: A.AvmState, dst: nat, r: A.AluResult): (r': A.AvmOutcome)
  {
    match r
    case Put(cell) => A.Next(t, A.Set(t.memory, dst, Some(cell)))
    case Halt => A.Halted
    case Crash => A.Crashed
  }

  lemma ResultsAgree(p: B.Program, s: B.Vm, t: A.AvmState, dst: nat, e: Ints.Eval, r: A.AluResult)
    requires AcceptedProgram(p) && Related(p, s, t) && Count(p[s.pc]) == 1
    requires e.Value? ==> e.value < P
    requires ValueMatches(e, r) && r.Put? ==> A.WellFormedCell(r.cell)
    ensures Agrees(p, BrilligResult(p, s, dst, e), AfterPcCheck(AvmResult(t, dst, r), PcAt(p, |p|))) <==>
      if e == Ints.DivisionByZero then !(s.pc + 1 < |p|) || ValueMatches(e, r) else s.pc + 1 < |p| && ValueMatches(e, r)
  {
    PcStep(p, s.pc);
    if e.Value? {
      DivModUnique(e.value, P, 0, e.value);
      AluAgrees(p, s, t, dst, e.value, r);
    }
  }

  /** Operations that check tags leave the class of their operands. */
  lemma CheckedFits(op: Ints.BinaryIntOp, n: nat, a: Option<A.Cell>, b: Option<A.Cell>)
    requires Operands(n, a, b) && !op.SignedDiv? && !A.IsUnchecked(IntOpcode(op))
    requires ValueMatches(BrilligValue(op, n, Num(a), Num(b)), A.Alu(IntOpcode(op), TagFromBitSize(n), a, b))
    ensures var r := A.Alu(IntOpcode(op), TagFromBitSize(n), a, b);
      r.Put? && A.WellFormedCell(r.cell)
  {
    hide Pow2, A.UintBits, A.Compare, Ints.Evaluate;
    NoDivisionByZero(op, Num(a), Num(b), n);
    CheckedAlu(op, TagFromBitSize(n), a, b);
    if n != 254 {
      NarrowIsReduced(op, Num(a), Num(b), n);
      ValueBelow(op, Num(a), Num(b), n);
      Pow2Monotone(n, A.Width(TagFromBitSize(n)));
    }
  }

  lemma IntFits(op: Ints.BinaryIntOp, n: nat, a: Option<A.Cell>, b: Option<A.Cell>)
    requires Operands(n, a, b) && !op.SignedDiv?
    requires ValueMatches(BrilligValue(op, n, Num(a), Num(b)), A.Alu(IntOpcode(op), TagFromBitSize(n), a, b))
    ensures var r := A.Alu(IntOpcode(op), TagFromBitSize(n), a, b);
      r.Put? ==> A.WellFormedCell(r.cell)
  {
    hide Pow2;
    if !A.IsUnchecked(IntOpcode(op)) {
      CheckedFits(op, n, a, b);
    } else if A.Alu(IntOpcode(op), TagFromBitSize(n), a, b).Put? {
      ArithmeticFits(IntOpcode(op), a.value, b.value);
    }
  }

  lemma IntOutcome(op: Ints.BinaryIntOp, n: nat, a: Option<A.Cell>, b: Option<A.Cell>)
    requires Operands(n, a, b) && !op.SignedDiv?
    ensures var e, r := BrilligValue(op, n, Num(a), Num(b)), A.Alu(IntOpcode(op), TagFromBitSize(n), a, b);
      && (ValueMatches(e, r) <==> IntSame(op, n, a, b))
      && (e == Ints.DivisionByZero <==> FailsToDivide(op, n, b))
      && (e.Value? ==> e.value < P)
      && (ValueMatches(e, r) && r.Put? ==> A.WellFormedCell(r.cell))
  {
    hide Pow2, IntSame, Ints.Evaluate, A.Alu;
    IntValueExact(op, n, a, b);
    DividesToValue(op, n, a, b);
    if ValueMatches(BrilligValue(op, n, Num(a), Num(b)), A.Alu(IntOpcode(op), TagFromBitSize(n), a, b)) {
      IntFits(op, n, a, b);
    }
  }

  lemma IntOperands(p: B.Program, s: B.Vm, t: A.AvmState)
    requires Plain(p) && Related(p, s, t) && p[s.pc].BinaryIntOp?
    ensures Operands(p[s.pc].bitSize, A.Get(t.memory, p[s.pc].lhs), A.Get(t.memory, p[s.pc].rhs)) && !p[s.pc].intOp.SignedDiv?
  {
    AcceptedAt(p, |p|, s.pc);
    OperandNumbers(s.memory, t.memory, p[s.pc].lhs);
    OperandNumbers(s.memory, t.memory, p[s.pc].rhs);
  }

  lemma IntProcessed(p: B.Program, calldata: seq<Fr>, s: B.Vm, m: A.TaggedMemory)
    requires s.pc < |p| && p[s.pc].BinaryIntOp? && SameMemory(s.memory, m)
    requires Operands(p[s.pc].bitSize, A.Get(m, p[s.pc].lhs), A.Get(m, p[s.pc].rhs))
    ensures var op := p[s.pc];
      B.Step(p, calldata, s) == BrilligResult(p, s, op.destination,
        BrilligValue(op.intOp, op.bitSize, Num(A.Get(m, op.lhs)), Num(A.Get(m, op.rhs))))
  {
    var op := p[s.pc];
    ReducedResult(p, s, op.destination, Ints.Evaluate(op.intOp, Num(A.Get(m, op.lhs)), Num(A.Get(m, op.rhs)), op.bitSize));
    OperandNumbers(s.memory, m, p[s.pc].lhs);
    OperandNumbers(s.memory, m, p[s.pc].rhs);
  }

  lemma IntMacro(p: B.Program, calldata: seq<Fr>, s: B.Vm, t: A.AvmState)
    requires Plain(p) && Related(p, s, t) && p[s.pc].BinaryIntOp? && ValidBitSize(p[s.pc].bitSize) && !p[s.pc].intOp.SignedDiv?
    ensures var op := p[s.pc];
      var r := A.Alu(IntOpcode(op.intOp), TagFromBitSize(op.bitSize), A.Get(t.memory, op.lhs), A.Get(t.memory, op.rhs));
      Macro(p, calldata, s, t) == AfterPcCheck(AvmResult(t, op.destination, r), PcAt(p, |p|))
  {
    hide A.Alu, AfterPcCheck, Macro, PcAt;
    var op := p[s.pc];
    assert PlainOp(op);
    ThreeMacro(p, calldata, s, t, IntOpcode(op.intOp), TagFromBitSize(op.bitSize), op.lhs, op.rhs, op.destination);
  }

  lemma IntStep(p: B.Program, calldata: seq<Fr>, s: B.Vm, t: A.AvmState)
    requires Plain(p) && Related(p, s, t) && p[s.pc].BinaryIntOp?
    ensures StepAgrees(p, calldata, s, t) <==> Compatible(p, calldata, s, t.memory)
  {
    var op := p[s.pc];
    var a, b := A.Get(t.memory, op.lhs), A.Get(t.memory, op.rhs);
    IntOperands(p, s, t);
    IntProcessed(p, calldata, s, t.memory);
    IntMacro(p, calldata, s, t);
    IntOutcome(op.intOp, op.bitSize, a, b);
    ResultsAgree(p, s, t, op.destination,
      BrilligValue(op.intOp, op.bitSize, Num(a), Num(b)), A.Alu(IntOpcode(op.intOp), TagFromBitSize(op.bitSize), a, b));
  }
}
