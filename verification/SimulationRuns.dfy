/** Whole runs: the emitted bytecode, decoded and executed, follows the Brillig program. */
module SimulationRuns {
  import opened Wrappers
  import opened Numbers
  import opened FieldElement
  import Ints = BrilligArithmetic
  import B = Brillig
  import opened AvmCodec
  import opened Transpiler
  import opened TranspilerCodec
  import A = AvmMachine
  import opened Simulation
  import opened SimulationRelation
  import opened SimulationSteps
  import opened SimulationMoves
  import opened Lockstep

  // ---------------------------------------------------------------- the two machines

  /** The Brillig VM as a machine. A program counter past the end does not arise from a start inside the program. */
  ghost function BrilligMachine(p: B.Program, calldata: seq<Fr>): (step: B.Vm -> Progress<B.Vm, B.Outcome>)
  {
    (s: B.Vm) =>
      if s.pc >= |p| then Done(B.Panicked)
      else match B.Step(p, calldata, s)
        case Running(s') => More(s')
        case other => Done(other)
  }

  ghost function AsProgress(a: A.AvmOutcome): (r: Progress<A.AvmState, A.AvmOutcome>)
  {
    if a.Running? then More(a.state) else Done(a)
  }

  /** The AVM simulator as a machine. */
  ghost function AvmMachineOf(code: seq<Decoded>, calldata: seq<Fr>): (step: A.AvmState -> Progress<A.AvmState, A.AvmOutcome>)
  {
    (t: A.AvmState) => if 0 <= t.pc < |code| then AsProgress(A.Step(code, calldata, t)) else Done(A.Halted)
  }

  lemma {:induction false} StepsIterate(code: seq<Decoded>, calldata: seq<Fr>, t: A.AvmState, n: nat)
    requires 0 <= t.pc < |code|
    ensures Iterate(AvmMachineOf(code, calldata), t, n) == AsProgress(A.Steps(code, calldata, t, n))
    decreases n
  {
    hide A.Execute;
    if n > 0 {
      var r := A.Step(code, calldata, t);
      if r.Running? {
        StepsIterate(code, calldata, r.state, n - 1);
      }
    }
  }

  /** How many AVM instructions the current opcode became. */
  ghost function InstructionsOf(p: B.Program): (cost: B.Vm -> nat)
    ensures forall s :: 1 <= cost(s) <= 2
  {
    (s: B.Vm) => if s.pc < |p| then Count(p[s.pc]) else 1
  }

  ghost function RelatedBy(p: B.Program): (related: (B.Vm, A.AvmState) -> bool)
  {
    (s: B.Vm, t: A.AvmState) => Related(p, s, t)
  }

  /** The current opcode meets its condition on operand types and bounds. */
  ghost function CompatibleBy(p: B.Program, calldata: seq<Fr>): (condition: (B.Vm, A.AvmState) -> bool)
  {
    (s: B.Vm, t: A.AvmState) => s.pc < |p| && Compatible(p, calldata, s, t.memory)
  }

  /** The current opcode has the same effect on both machines. */
  ghost function AgreeingBy(p: B.Program, calldata: seq<Fr>): (condition: (B.Vm, A.AvmState) -> bool)
    requires AcceptedProgram(p)
  {
    (s: B.Vm, t: A.AvmState) => Related(p, s, t) && StepAgrees(p, calldata, s, t)
  }

  /** The same return data, or failure of both. */
  ghost predicate SameResult(b: B.Outcome, a: A.AvmOutcome)
  {
    match b
    case Finished(offset, size, memory) =>
      a.Returned? && |a.output| == size && forall k :: 0 <= k < size ==> a.output[k] == Some(B.Read(memory, offset + k) as int)
    case Failure => a.Reverted? || a.Halted? || a.Crashed?
    case _ => false
  }

  ghost function SameResultFunction(): (same: (B.Outcome, A.AvmOutcome) -> bool)
  {
    (b: B.Outcome, a: A.AvmOutcome) => SameResult(b, a)
  }

  // ---------------------------------------------------------------- runs

  lemma MacroIterates(p: B.Program, calldata: seq<Fr>, s: B.Vm, t: A.AvmState)
    requires AcceptedProgram(p) && Related(p, s, t)
    ensures Iterate(AvmMachineOf(Code(p), calldata), t, InstructionsOf(p)(s)) == AsProgress(Macro(p, calldata, s, t))
  {
    PcBound(p, s.pc);
    StepsIterate(Code(p), calldata, t, Count(p[s.pc]));
  }

  lemma AgreeingCorresponds(p: B.Program, b: B.Outcome, a: A.AvmOutcome)
    requires Agrees(p, b, a)
    ensures b.Running? ==> a.Running? && Related(p, b.vm, a.state)
    ensures !b.Running? ==> !a.Running? && SameResult(b, a)
  {
  }

  /** One compatible opcode takes related states to related states or to the same result. */
  lemma StepCorresponds(p: B.Program, calldata: seq<Fr>, s: B.Vm, t: A.AvmState)
    requires Plain(p) && Related(p, s, t) && Compatible(p, calldata, s, t.memory)
    ensures Corresponds(RelatedBy(p), SameResultFunction(),
      BrilligMachine(p, calldata)(s), Iterate(AvmMachineOf(Code(p), calldata), t, InstructionsOf(p)(s)))
  {
    StepExact(p, calldata, s, t);
    MacroIterates(p, calldata, s, t);
    AgreeingCorresponds(p, B.Step(p, calldata, s), Macro(p, calldata, s, t));
  }

  /** Every opcode of the first n steps is compatible. */
  ghost predicate CompatibleRun(p: B.Program, calldata: seq<Fr>, s: B.Vm, t: A.AvmState, n: nat)
    requires AcceptedProgram(p)
  {
    Along(BrilligMachine(p, calldata), AvmMachineOf(Code(p), calldata), InstructionsOf(p), CompatibleBy(p, calldata), s, t, n)
  }

  /** Every opcode of the first n steps does the same on both machines. */
  ghost predicate LockstepRun(p: B.Program, calldata: seq<Fr>, s: B.Vm, t: A.AvmState, n: nat)
    requires AcceptedProgram(p)
  {
    Along(BrilligMachine(p, calldata), AvmMachineOf(Code(p), calldata), InstructionsOf(p), AgreeingBy(p, calldata), s, t, n)
  }

  /** The machines stay in lockstep for n steps exactly when the n opcodes they meet are compatible. */
  lemma LockstepExact(p: B.Program, calldata: seq<Fr>, s: B.Vm, t: A.AvmState, n: nat)
    requires Plain(p) && Related(p, s, t)
    ensures LockstepRun(p, calldata, s, t, n) <==> CompatibleRun(p, calldata, s, t, n)
  {
    var step, step', cost := BrilligMachine(p, calldata), AvmMachineOf(Code(p), calldata), InstructionsOf(p);
    var compatible, agreeing, related := CompatibleBy(p, calldata), AgreeingBy(p, calldata), RelatedBy(p);
    forall s, t | related(s, t)
      ensures compatible(s, t) <==> agreeing(s, t)
    {
      StepExact(p, calldata, s, t);
    }
    forall s, t | related(s, t) && compatible(s, t)
      ensures StaysRelated(related, step(s), Iterate(step', t, cost(s)))
    {
      StepCorresponds(p, calldata, s, t);
    }
    AlongEquivalent(step, step', cost, compatible, agreeing, related, s, t, n);
  }

  /** Forward simulation: n Brillig steps are answered by n to 2n AVM steps, ending in related states,
      with the same return data, or in failure of both. */
  lemma ForwardSimulation(p: B.Program, calldata: seq<Fr>, s: B.Vm, t: A.AvmState, n: nat)
    requires Plain(p) && Related(p, s, t) && CompatibleRun(p, calldata, s, t, n)
    ensures var k, b := Cost(BrilligMachine(p, calldata), InstructionsOf(p), s, n), Iterate(BrilligMachine(p, calldata), s, n);
      && k <= 2 * n && (b.More? ==> n <= k)
      && Corresponds(RelatedBy(p), SameResultFunction(), b, Iterate(AvmMachineOf(Code(p), calldata), t, k))
  {
    var step, step', cost := BrilligMachine(p, calldata), AvmMachineOf(Code(p), calldata), InstructionsOf(p);
    var compatible, related, same := CompatibleBy(p, calldata), RelatedBy(p), SameResultFunction();
    forall s, t | related(s, t) && compatible(s, t)
      ensures Corresponds(related, same, step(s), Iterate(step', t, cost(s)))
    {
      StepCorresponds(p, calldata, s, t);
    }
    RunsCorrespond(step, step', cost, compatible, related, same, s, t, n);
    CostBounds(step, cost, s, n);
  }

  const INITIAL_VM := B.Vm(0, [], [])
  const INITIAL_AVM := A.AvmState(0, map[], [])

  lemma InitiallyRelated(p: B.Program)
    requires p != []
    ensures Related(p, INITIAL_VM, INITIAL_AVM)
  {
  }

  /** From transpiler output to return data: the bytecode, decoded and run by the simulator from the initial state,
      does what the Brillig program does. */
  lemma TranspiledProgramRuns(p: B.Program, calldata: seq<Fr>, n: nat)
    requires Plain(p) && p != [B.Return] && CompatibleRun(p, calldata, INITIAL_VM, INITIAL_AVM, n)
    ensures var bytes := ProgramBytes(Transpiled(p));
      && bytes != []
      && var decoded := DecodeAll(bytes, |bytes|);
      && decoded.Ok?
      && var b := Iterate(BrilligMachine(p, calldata), INITIAL_VM, n);
      && exists k: nat :: k <= 2 * n && (b.More? ==> n <= k) &&
          Corresponds(RelatedBy(p), SameResultFunction(), b, Iterate(AvmMachineOf(decoded.value, calldata), INITIAL_AVM, k))
  {
    TranspiledDecodes(p);
    InitiallyRelated(p);
    ForwardSimulation(p, calldata, INITIAL_VM, INITIAL_AVM, n);
  }

  // ---------------------------------------------------------------- where the condition matters

  /** ADD takes its width from the left operand, not from the instruction: 255 + 1 is 256 in Brillig and 0 in the AVM. */
  lemma MixedWidthsDiffer()
    ensures Ints.Evaluate(Ints.Add, 255, 1, 32) == Ints.Value(256)
    ensures A.Alu(ADD, UINT32, Some(A.Cell(UINT8, 255)), Some(A.Cell(UINT32, 1))) == A.Put(A.Cell(UINT8, 0))
  {
    Pow2Of8();
    Pow2Of32();
  }

  /** Field division by zero is zero in Brillig and an exception in the AVM. */
  lemma FieldDivisionByZeroDiffers(a: Fr)
    ensures B.EvaluateField(B.BinaryFieldOp.Div, a, 0) == 0
    ensures A.Alu(DIV, FIELD, Some(A.Cell(FIELD, a)), Some(A.Cell(FIELD, 0))) == A.Crash
  {
    assert B.Inverse(0) == 0;
  }

  /** No class of operands makes the simulator divide by zero. */
  lemma DivisionByZeroCrashes(a: Option<A.Cell>, b: Option<A.Cell>)
    requires WellFormed(a) && WellFormed(b) && Num(b) == 0
    ensures A.Alu(DIV, FIELD, a, b) == A.Crash
  {
    if a.Some? && b.Some? {
      DivFails(a.value, b.value);
    }
  }

  /** At such a step of any program the Brillig VM goes on with zero and the simulator throws, whatever the classes. */
  lemma FieldDivisionByZeroStep(p: B.Program, calldata: seq<Fr>, s: B.Vm, t: A.AvmState)
    requires Plain(p) && Related(p, s, t) && p[s.pc].BinaryFieldOp? && p[s.pc].fieldOp.Div? && s.pc + 1 < |p|
    requires B.Read(s.memory, p[s.pc].rhs) == 0
    ensures B.Step(p, calldata, s) == B.Advance(p, s, B.Write(s.memory, p[s.pc].destination, 0))
    ensures Macro(p, calldata, s, t) == A.Crashed
  {
    var op := p[s.pc];
    assert PlainOp(op);
    OperandNumbers(s.memory, t.memory, op.lhs);
    OperandNumbers(s.memory, t.memory, op.rhs);
    FieldDivisionByZeroDiffers(B.Read(s.memory, op.lhs));
    ThreeMacro(p, calldata, s, t, DIV, FIELD, op.lhs, op.rhs, op.destination);
    DivisionByZeroCrashes(A.Get(t.memory, op.lhs), A.Get(t.memory, op.rhs));
  }

  predicate IsWideComparison(op: B.Opcode)
  {
    op.BinaryIntOp? && op.bitSize == 254 && (op.intOp.LessThan? || op.intOp.LessThanEquals?)
  }

  /** What a comparison of two numbers leaves. */
  function Comparison(orEqual: bool, x: nat, y: nat): (v: Fr)
  {
    if x < y || (orEqual && x == y) then 1 else 0
  }

  lemma WideComparisonGoesOn(p: B.Program, calldata: seq<Fr>, s: B.Vm)
    requires s.pc < |p| && IsWideComparison(p[s.pc])
    ensures var op := p[s.pc];
      var v := Comparison(op.intOp.LessThanEquals?, B.Read(s.memory, op.lhs), B.Read(s.memory, op.rhs));
      B.Step(p, calldata, s) == B.Advance(p, s, B.Write(s.memory, op.destination, v))
  {
    hide Pow2, B.Read;
    var op := p[s.pc];
    var x, y := B.Read(s.memory, op.lhs), B.Read(s.memory, op.rhs);
    ModulusBounds();
    SameResidue(x, Pow2(254));
    SameResidue(y, Pow2(254));
    SameResidue(Comparison(op.intOp.LessThanEquals?, x, y), P);
    assert Ints.Evaluate(op.intOp, x, y, 254) == Ints.Value(Comparison(op.intOp.LessThanEquals?, x, y));
  }

  lemma WideComparisonAlu(op: Op, a: Option<A.Cell>, b: Option<A.Cell>)
    requires op == LT || op == LTE
    ensures A.Alu(op, FIELD, a, b) == A.Halt
  {
  }

  /** Comparing 254-bit integers goes on with the result in the Brillig VM and halts the simulator, whatever the operands. */
  lemma WideComparisonStep(p: B.Program, calldata: seq<Fr>, s: B.Vm, t: A.AvmState)
    requires Plain(p) && Related(p, s, t) && IsWideComparison(p[s.pc])
    ensures var op := p[s.pc];
      var v := Comparison(op.intOp.LessThanEquals?, B.Read(s.memory, op.lhs), B.Read(s.memory, op.rhs));
      B.Step(p, calldata, s) == B.Advance(p, s, B.Write(s.memory, op.destination, v))
    ensures Macro(p, calldata, s, t) == A.Halted
  {
    hide Pow2, A.Alu, Macro, SameMemory, SameStack, B.Step, AcceptedPrefix, PcAt, B.Read;
    var op := p[s.pc];
    IntMacro(p, calldata, s, t);
    WideComparisonGoesOn(p, calldata, s);
    WideComparisonAlu(IntOpcode(op.intOp), A.Get(t.memory, op.lhs), A.Get(t.memory, op.rhs));
  }

  /** Running off the end finishes the Brillig VM and is an execution error of the AVM. */
  lemma RunningOffTheEndDiffers(p: B.Program, calldata: seq<Fr>, s: B.Vm, t: A.AvmState)
    requires Plain(p) && Related(p, s, t) && s.pc + 1 == |p| && p[s.pc].Mov?
    ensures B.Step(p, calldata, s).Finished? && Macro(p, calldata, s, t) == A.Halted
  {
    var op := p[s.pc];
    MoveInstruction(p, calldata, s, t, ALL_DIRECT, op.source, op.destination);
    IndirectFlags(t.memory, op.source);
    IndirectFlags(t.memory, op.destination);
    PcStep(p, s.pc);
  }
}
