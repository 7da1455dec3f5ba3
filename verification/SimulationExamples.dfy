/** Small programs on both machines: where they differ, and where they agree although the classes do not. */
module SimulationExamples {
  import opened Wrappers
  import opened Numbers
  import opened FieldElement
  import Ints = BrilligArithmetic
  import B = Brillig
  import opened AvmCodec
  import opened Transpiler
  import opened TranspilerCodec
  import A = AvmMachine
  import opened Simulation
  import opened SimulationResidues
  import opened SimulationValues
  import opened SimulationRelation
  import opened SimulationSteps
  import opened SimulationMoves
  import opened SimulationRuns
  import opened SimulationClasses
  import opened SourceClasses
  import opened SimulationTypes
  import opened Lockstep

  // ---------------------------------------------------------------- programs that are accepted

  lemma {:induction false} AllAccepted(p: B.Program, k: nat)
    requires k <= |p| && forall i :: 0 <= i < |p| ==> Accepted(p[i], |p|)
    ensures AcceptedPrefix(p, k)
  {
    if k > 0 {
      AllAccepted(p, k - 1);
    }
  }

  lemma {:induction false} PcAtMost(p: B.Program, i: nat)
    requires i <= |p|
    ensures PcAt(p, i) <= 2 * i
  {
    if i > 0 {
      PcAtMost(p, i - 1);
    }
  }

  lemma ShortIsPlain(p: B.Program)
    requires p != [] && |p| < 1000 && forall i :: 0 <= i < |p| ==> Accepted(p[i], |p|) && PlainOp(p[i])
    ensures Plain(p)
  {
    AllAccepted(p, |p|);
    PcAtMost(p, |p|);
  }

  // ---------------------------------------------------------------- one operation on two constants

  /** The constants a program can load. */
  predicate Fitting(n: nat, x: Fr)
  {
    ValidBitSize(n) && x < Pow2(if n == 254 then 128 else A.Width(TagFromBitSize(n)))
  }

  /** An operation on the first two words that writes the third. */
  predicate OnTwoWords(op: B.Opcode)
  {
    (op.BinaryFieldOp? || (op.BinaryIntOp? && !op.intOp.SignedDiv? && ValidBitSize(op.bitSize)))
    && op.destination == 2 && op.lhs == 0 && op.rhs == 1
  }

  /** Loads two constants, operates on them and returns the result. */
  function OperationProgram(n: nat, x: Fr, n': nat, y: Fr, op: B.Opcode): (p: B.Program)
  {
    [B.Const(0, n, x), B.Const(1, n', y), op, B.Stop(2, 1)]
  }

  predicate Runnable(n: nat, x: Fr, n': nat, y: Fr, op: B.Opcode)
  {
    Fitting(n, x) && Fitting(n', y) && OnTwoWords(op)
  }

  lemma OperationIsPlain(n: nat, x: Fr, n': nat, y: Fr, op: B.Opcode)
    requires Runnable(n, x, n', y, op)
    ensures Plain(OperationProgram(n, x, n', y, op))
  {
    hide Pow2, PcAt, AcceptedPrefix, BitLength;
    BitLengthAtMost(x, 128);
    BitLengthAtMost(y, 128);
    ShortIsPlain(OperationProgram(n, x, n', y, op));
  }

  /** The program returns these numbers after the given number of steps. */
  ghost predicate ProgramReturns(p: B.Program, calldata: seq<Fr>, n: nat, values: seq<nat>)
  {
    var b := Iterate(BrilligMachine(p, calldata), INITIAL_VM, n);
    && b.Done? && b.result.Finished? && b.result.size == |values|
    && forall k :: 0 <= k < |values| ==> B.Read(b.result.memory, b.result.offset + k) == values[k]
  }

  /** Its bytecode, decoded and run by the simulator, returns these. */
  ghost predicate BytecodeReturns(p: B.Program, calldata: seq<Fr>, n: nat, values: seq<nat>)
  {
    && AcceptedProgram(p)
    && var bytes := ProgramBytes(Transpiled(p));
    && DecodeAll(bytes, |bytes|).Ok?
    && var a := Iterate(AvmMachineOf(DecodeAll(bytes, |bytes|).value, calldata), INITIAL_AVM, n);
    && a.Done? && a.result.Returned? && |a.result.output| == |values|
    && forall k :: 0 <= k < |values| ==> a.result.output[k] == Some(values[k])
  }

  /** The number the Brillig VM writes. */
  ghost predicate GivesNumber(op: B.Opcode, x: Fr, y: Fr, v: Fr)
    requires OnTwoWords(op)
  {
    if op.BinaryFieldOp? then B.EvaluateField(op.fieldOp, x, y) == v
    else BrilligValue(op.intOp, op.bitSize, x, y) == Ints.Value(v)
  }

  /** The word the simulator files. */
  ghost predicate GivesCell(op: B.Opcode, a: A.Cell, b: A.Cell, cell: A.Cell)
    requires OnTwoWords(op)
  {
    if op.BinaryFieldOp? then A.Alu(FieldOpcode(op.fieldOp), FIELD, Some(a), Some(b)) == A.Put(cell)
    else A.Alu(IntOpcode(op.intOp), TagFromBitSize(op.bitSize), Some(a), Some(b)) == A.Put(cell)
  }

  // The Brillig side.

  lemma OperationWrites(p: B.Program, calldata: seq<Fr>, s: B.Vm, v: Fr)
    requires s.pc + 1 < |p| && OnTwoWords(p[s.pc])
    requires GivesNumber(p[s.pc], B.Read(s.memory, 0), B.Read(s.memory, 1), v)
    ensures BrilligMachine(p, calldata)(s) == More(s.(pc := s.pc + 1, memory := B.Write(s.memory, 2, v)))
  {
    hide Ints.Evaluate, B.EvaluateField, B.Read, B.Write, B.WriteSlice;
    if p[s.pc].BinaryIntOp? {
      assert p[s.pc] == B.BinaryIntOp(2, p[s.pc].intOp, p[s.pc].bitSize, 0, 1);
    }
  }

  lemma ConstantWrites(p: B.Program, calldata: seq<Fr>, s: B.Vm, dst: nat, n: nat, x: Fr)
    requires s.pc + 1 < |p| && p[s.pc] == B.Const(dst, n, x)
    ensures BrilligMachine(p, calldata)(s) == More(s.(pc := s.pc + 1, memory := B.Write(s.memory, dst, x)))
  {
    hide B.Write, B.WriteSlice;
  }

  lemma FourSteps<S, R>(step: S -> Progress<S, R>, s0: S, s1: S, s2: S, s3: S, r: R)
    requires step(s0) == More(s1) && step(s1) == More(s2) && step(s2) == More(s3) && step(s3) == Done(r)
    ensures Iterate(step, s0, 4) == Done(r)
  {
    assert Iterate(step, s3, 1) == Done(r);
    assert Iterate(step, s2, 2) == Iterate(step, s3, 1);
    assert Iterate(step, s1, 3) == Iterate(step, s2, 2);
    assert Iterate(step, s0, 4) == Iterate(step, s1, 3);
  }

  lemma OperationReturns(n: nat, x: Fr, n': nat, y: Fr, op: B.Opcode, calldata: seq<Fr>, v: Fr)
    requires Runnable(n, x, n', y, op) && GivesNumber(op, x, y, v)
    ensures ProgramReturns(OperationProgram(n, x, n', y, op), calldata, 4, [v])
  {
    hide GivesNumber, B.Step, B.Write, B.WriteSlice, OnTwoWords, Fitting;
    var p := OperationProgram(n, x, n', y, op);
    var m1 := B.Write([], 0, x);
    var m2 := B.Write(m1, 1, y);
    var m3 := B.Write(m2, 2, v);
    ConstantWrites(p, calldata, INITIAL_VM, 0, n, x);
    ConstantWrites(p, calldata, B.Vm(1, m1, []), 1, n', y);
    OperationWrites(p, calldata, B.Vm(2, m2, []), v);
    StopReturns(p, calldata, B.Vm(3, m3, []));
    FourSteps(BrilligMachine(p, calldata), INITIAL_VM,
      B.Vm(1, m1, []), B.Vm(2, m2, []), B.Vm(3, m3, []), B.Finished(2, 1, m3));
  }

  lemma StopReturns(p: B.Program, calldata: seq<Fr>, s: B.Vm)
    requires s.pc < |p| && p[s.pc] == B.Stop(2, 1)
    ensures BrilligMachine(p, calldata)(s) == Done(B.Finished(2, 1, s.memory))
  {
  }

  // The AVM side.

  lemma ConstantLoads(p: B.Program, calldata: seq<Fr>, s: B.Vm, t: A.AvmState, dst: nat, n: nat, x: Fr)
    requires Plain(p) && Related(p, s, t) && p[s.pc] == B.Const(dst, n, x) && Fitting(n, x) && s.pc + 1 < |p|
    ensures Macro(p, calldata, s, t)
      == A.Running(t.(pc := PcAt(p, s.pc + 1), memory := t.memory[dst := A.Cell(TagFromBitSize(n), x)]))
  {
    hide Pow2, ToU128, SameMemory, SameStack, Macro;
    assert PlainOp(p[s.pc]);
    PcStep(p, s.pc);
    if n == 254 {
      FieldConstMacro(p, calldata, s, t, dst, x);
    } else {
      SmallConstMacro(p, calldata, s, t, dst, n, x);
      ConstantFits(x, TagFromBitSize(n));
    }
  }

  /** A constant that fits takes related states to related states. */
  lemma ConstantStep(p: B.Program, calldata: seq<Fr>, s: B.Vm, t: A.AvmState, dst: nat, n: nat, x: Fr)
    requires Plain(p) && Related(p, s, t) && p[s.pc] == B.Const(dst, n, x) && Fitting(n, x) && s.pc + 1 < |p|
    ensures var s' := s.(pc := s.pc + 1, memory := B.Write(s.memory, dst, x));
      var t' := t.(pc := PcAt(p, s.pc + 1), memory := t.memory[dst := A.Cell(TagFromBitSize(n), x)]);
      Macro(p, calldata, s, t) == A.Running(t') && Related(p, s', t')
  {
    hide Pow2, ToU128, SameMemory, SameStack, Macro;
    PcStep(p, s.pc);
    ConstantLoads(p, calldata, s, t, dst, n, x);
    StepExact(p, calldata, s, t);
  }

  lemma OperationStep(p: B.Program, calldata: seq<Fr>, s: B.Vm, t: A.AvmState, a: A.Cell, b: A.Cell, cell: A.Cell)
    requires Plain(p) && Related(p, s, t) && OnTwoWords(p[s.pc]) && s.pc + 1 < |p|
    requires A.Get(t.memory, 0) == Some(a) && A.Get(t.memory, 1) == Some(b) && GivesCell(p[s.pc], a, b, cell)
    ensures Macro(p, calldata, s, t) == A.Running(t.(pc := PcAt(p, s.pc + 1), memory := t.memory[2 := cell]))
  {
    hide A.Alu, SameMemory, SameStack, Macro;
    PcStep(p, s.pc);
    if p[s.pc].BinaryFieldOp? {
      FieldMacro(p, calldata, s, t);
    } else {
      IntMacro(p, calldata, s, t);
    }
  }

  lemma MacroGoesOn(p: B.Program, calldata: seq<Fr>, s: B.Vm, t: A.AvmState, t': A.AvmState)
    requires AcceptedProgram(p) && Related(p, s, t) && Macro(p, calldata, s, t) == A.Running(t')
    ensures Iterate(AvmMachineOf(Code(p), calldata), t, Count(p[s.pc])) == More(t')
  {
    hide Macro, SameMemory, SameStack, Iterate;
    MacroIterates(p, calldata, s, t);
  }

  lemma AvmReturns(code: seq<Decoded>, calldata: seq<Fr>, t: A.AvmState, cell: A.Cell)
    requires 0 <= t.pc < |code| && code[t.pc] == Decoded(RETURN, [0, 2, 1]) && 2 in t.memory && t.memory[2] == cell
    ensures Iterate(AvmMachineOf(code, calldata), t, 1) == Done(A.Returned([Some(cell.value)]))
  {
    ReturnExecutes(calldata, 2, 1, t);
    assert A.ExecReturn(2, 1, t).output == [Some(cell.value)];
    var step := AvmMachineOf(code, calldata);
    assert step(t) == Done(A.Returned([Some(cell.value)]));
  }

  lemma ReturnsThird(p: B.Program, calldata: seq<Fr>, i: nat, t: A.AvmState, cell: A.Cell)
    requires Plain(p) && i < |p| && p[i] == B.Stop(2, 1) && t.pc == PcAt(p, i)
    requires 2 in t.memory && t.memory[2] == cell
    ensures Iterate(AvmMachineOf(Code(p), calldata), t, 1) == Done(A.Returned([Some(cell.value)]))
  {
    hide PcAt, Code, AcceptedPrefix, Iterate, Denote;
    CodeAt(p, i, 0);
    DenotePair(RETURN, ALL_DIRECT, 2, 1);
    AvmReturns(Code(p), calldata, t, cell);
  }

  lemma FourJoin<S, R>(step: S -> Progress<S, R>, s0: S, s1: S, s2: S, s3: S, r: R, j0: nat, j1: nat, j2: nat, j3: nat)
    requires Iterate(step, s0, j0) == More(s1) && Iterate(step, s1, j1) == More(s2) && Iterate(step, s2, j2) == More(s3)
    requires Iterate(step, s3, j3) == Done(r)
    ensures Iterate(step, s0, j0 + (j1 + (j2 + j3))) == Done(r)
  {
    hide Iterate;
    IterateJoins(step, s2, j2, j3);
    IterateJoins(step, s1, j1, j2 + j3);
    IterateJoins(step, s0, j0, j1 + (j2 + j3));
  }

  /** The emitted code, run by the simulator. */
  lemma OperationRuns(n: nat, x: Fr, n': nat, y: Fr, op: B.Opcode, calldata: seq<Fr>, cell: A.Cell)
    requires Runnable(n, x, n', y, op)
    requires GivesCell(op, A.Cell(TagFromBitSize(n), x), A.Cell(TagFromBitSize(n'), y), cell)
    ensures var p := OperationProgram(n, x, n', y, op);
      Plain(p) && Iterate(AvmMachineOf(Code(p), calldata), INITIAL_AVM, PcAt(p, 4)) == Done(A.Returned([Some(cell.value)]))
  {
    hide GivesCell, Macro, Iterate, Related, Plain, Code, AcceptedPrefix, Pow2, OnTwoWords, B.Write, B.WriteSlice;
    var p := OperationProgram(n, x, n', y, op);
    var a, b := A.Cell(TagFromBitSize(n), x), A.Cell(TagFromBitSize(n'), y);
    OperationIsPlain(n, x, n', y, op);
    PlainIsAccepted(p);
    InitiallyRelated(p);
    var s1, t1 := B.Vm(1, B.Write([], 0, x), []), A.AvmState(PcAt(p, 1), map[0 := a], []);
    ConstantStep(p, calldata, INITIAL_VM, INITIAL_AVM, 0, n, x);
    MacroGoesOn(p, calldata, INITIAL_VM, INITIAL_AVM, t1);
    var s2, t2 := B.Vm(2, B.Write(s1.memory, 1, y), []), A.AvmState(PcAt(p, 2), map[0 := a, 1 := b], []);
    ConstantStep(p, calldata, s1, t1, 1, n', y);
    assert t1.memory[1 := b] == t2.memory;
    MacroGoesOn(p, calldata, s1, t1, t2);
    var t3 := A.AvmState(PcAt(p, 3), t2.memory[2 := cell], []);
    OperationStep(p, calldata, s2, t2, a, b, cell);
    MacroGoesOn(p, calldata, s2, t2, t3);
    ReturnsThird(p, calldata, 3, t3, cell);
    FourJoin(AvmMachineOf(Code(p), calldata), INITIAL_AVM, t1, t2, t3, A.Returned([Some(cell.value)]),
      Count(p[0]), Count(p[1]), Count(p[2]), 1);
    assert PcAt(p, 4) == Count(p[0]) + (Count(p[1]) + (Count(p[2]) + 1));
  }

  lemma PlainIsAccepted(p: B.Program)
    requires Plain(p)
    ensures AcceptedProgram(p)
  {
  }

  lemma BytecodeFrom(p: B.Program, calldata: seq<Fr>, n: nat, value: nat)
    requires AcceptedProgram(p) && p != [B.Return]
    requires Iterate(AvmMachineOf(Code(p), calldata), INITIAL_AVM, n) == Done(A.Returned([Some(value)]))
    ensures BytecodeReturns(p, calldata, n, [value])
  {
    TranspiledDecodes(p);
  }

  /** Both return values of such a program, from transpiler output to return data. */
  lemma OperationOnBoth(n: nat, x: Fr, n': nat, y: Fr, op: B.Opcode, calldata: seq<Fr>, v: Fr, cell: A.Cell)
    requires Runnable(n, x, n', y, op) && GivesNumber(op, x, y, v) && cell.value >= 0
    requires GivesCell(op, A.Cell(TagFromBitSize(n), x), A.Cell(TagFromBitSize(n'), y), cell)
    ensures var p := OperationProgram(n, x, n', y, op);
      && Plain(p)
      && ProgramReturns(p, calldata, 4, [v])
      && BytecodeReturns(p, calldata, PcAt(p, 4), [cell.value])
  {
    hide GivesCell, GivesNumber, Iterate, Plain, ProgramReturns, BytecodeReturns, Code, AcceptedPrefix, PcAt, Runnable;
    var p := OperationProgram(n, x, n', y, op);
    OperationReturns(n, x, n', y, op, calldata, v);
    OperationRuns(n, x, n', y, op, calldata, cell);
    PlainIsAccepted(p);
    BytecodeFrom(p, calldata, PcAt(p, 4), cell.value);
  }

  lemma ProgramLength(n: nat, x: Fr, n': nat, y: Fr, op: B.Opcode)
    requires Runnable(n, x, n', y, op)
    ensures PcAt(OperationProgram(n, x, n', y, op), 4) == (if n == 254 then 2 else 1) + (if n' == 254 then 2 else 1) + 2
  {
    var p := OperationProgram(n, x, n', y, op);
    assert PcAt(p, 1) == Count(p[0]) && PcAt(p, 2) == PcAt(p, 1) + Count(p[1]);
    assert PcAt(p, 3) == PcAt(p, 2) + 1 && PcAt(p, 4) == PcAt(p, 3) + 1;
  }

  // ---------------------------------------------------------------- sums

  /** Adds two constants at w bits and returns the sum. */
  function SumProgram(w: nat, n: nat, x: Fr, n': nat, y: Fr): (p: B.Program)
  {
    OperationProgram(n, x, n', y, B.BinaryIntOp(2, Ints.Add, w, 0, 1))
  }

  lemma SumIs(w: nat, n: nat, x: Fr, n': nat, y: Fr)
    ensures SumProgram(w, n, x, n', y) == OperationProgram(n, x, n', y, B.BinaryIntOp(2, Ints.Add, w, 0, 1))
    ensures SumProgram(w, n, x, n', y)
      == [B.Const(0, n, x), B.Const(1, n', y), B.BinaryIntOp(2, Ints.Add, w, 0, 1), B.Stop(2, 1)]
  {
  }

  predicate Summands(w: nat, n: nat, x: Fr, n': nat, y: Fr)
  {
    ValidBitSize(w) && w != 254 && n != 254 && n' != 254 && Fitting(n, x) && Fitting(n', y)
  }

  lemma SumGives(w: nat, n: nat, x: Fr, n': nat, y: Fr, op: B.Opcode, cell: A.Cell)
    requires Summands(w, n, x, n', y) && op == B.BinaryIntOp(2, Ints.Add, w, 0, 1)
    requires cell == A.Cell(TagFromBitSize(n), (x + y) % Pow2(A.Width(TagFromBitSize(n))))
    ensures (x + y) % Pow2(w) < P && Runnable(n, x, n', y, op)
    ensures GivesNumber(op, x, y, (x + y) % Pow2(w))
    ensures GivesCell(op, A.Cell(TagFromBitSize(n), x), A.Cell(TagFromBitSize(n'), y), cell)
  {
    hide Pow2;
    NarrowIsReduced(Ints.Add, x, y, w);
    ReducedInField((x + y) % Pow2(w), w);
  }

  /** The sum on both machines, from transpiler output to return data: Brillig wraps at the width of the operation, the
      simulator at that of the left operand. */
  lemma SumReturns(w: nat, n: nat, x: Fr, n': nat, y: Fr, calldata: seq<Fr>)
    requires Summands(w, n, x, n', y)
    ensures Plain(SumProgram(w, n, x, n', y))
    ensures ProgramReturns(SumProgram(w, n, x, n', y), calldata, 4, [(x + y) % Pow2(w)])
    ensures BytecodeReturns(SumProgram(w, n, x, n', y), calldata, 4, [(x + y) % Pow2(A.Width(TagFromBitSize(n)))])
  {
    hide Pow2, GivesNumber, GivesCell, Plain, ProgramReturns, BytecodeReturns, SumProgram, OperationProgram, PcAt;
    var op := B.BinaryIntOp(2, Ints.Add, w, 0, 1);
    var cell := A.Cell(TagFromBitSize(n), (x + y) % Pow2(A.Width(TagFromBitSize(n))));
    SumGives(w, n, x, n', y, op, cell);
    SumIs(w, n, x, n', y);
    OperationOnBoth(n, x, n', y, op, calldata, (x + y) % Pow2(w), cell);
    ProgramLength(n, x, n', y, op);
  }

  lemma SmallSums()
    ensures Summands(32, 8, 255, 32, 1) && (255 + 1) % Pow2(32) == 256 && (255 + 1) % Pow2(A.Width(TagFromBitSize(8))) == 0
    ensures Summands(32, 8, 1, 8, 2) && (1 + 2) % Pow2(32) == 3 && (1 + 2) % Pow2(A.Width(TagFromBitSize(8))) == 3
    ensures Summands(1, 1, 1, 1, 1) && (1 + 1) % Pow2(1) == 0 && (1 + 1) % Pow2(A.Width(TagFromBitSize(1))) == 2
  {
    hide Pow2;
    OneBit();
    Pow2Of8();
    Pow2Of32();
  }

  /** 8-bit 255 plus 32-bit 1 at 32 bits: the Brillig program returns 256 and its bytecode 0. */
  lemma MixedWidthsReturn(calldata: seq<Fr>)
    ensures var p := [B.Const(0, 8, 255), B.Const(1, 32, 1), B.BinaryIntOp(2, Ints.Add, 32, 0, 1), B.Stop(2, 1)];
      Plain(p) && ProgramReturns(p, calldata, 4, [256]) && BytecodeReturns(p, calldata, 4, [0])
  {
    hide Summands, Plain, ProgramReturns, BytecodeReturns, SumProgram, OperationProgram, Pow2;
    SmallSums();
    SumIs(32, 8, 255, 32, 1);
    SumReturns(32, 8, 255, 32, 1, calldata);
  }

  /** 8-bit 1 plus 8-bit 2 at 32 bits: both return 3, although the simulator files the sum under another class. */
  lemma NarrowSumAgrees(calldata: seq<Fr>)
    ensures var p := [B.Const(0, 8, 1), B.Const(1, 8, 2), B.BinaryIntOp(2, Ints.Add, 32, 0, 1), B.Stop(2, 1)];
      Plain(p) && ProgramReturns(p, calldata, 4, [3]) && BytecodeReturns(p, calldata, 4, [3])
  {
    hide Summands, Plain, ProgramReturns, BytecodeReturns, SumProgram, OperationProgram, Pow2;
    SmallSums();
    SumIs(32, 8, 1, 8, 2);
    SumReturns(32, 8, 1, 8, 2, calldata);
  }

  /** 1 plus 1 at one bit: the Brillig program returns 0 and its bytecode 2. */
  lemma BitSumReturns(calldata: seq<Fr>)
    ensures var p := [B.Const(0, 1, 1), B.Const(1, 1, 1), B.BinaryIntOp(2, Ints.Add, 1, 0, 1), B.Stop(2, 1)];
      Plain(p) && ProgramReturns(p, calldata, 4, [0]) && BytecodeReturns(p, calldata, 4, [2])
  {
    hide Summands, Plain, ProgramReturns, BytecodeReturns, SumProgram, OperationProgram, Pow2;
    SmallSums();
    SumIs(1, 1, 1, 1, 1);
    SumReturns(1, 1, 1, 1, 1, calldata);
  }

  // ---------------------------------------------------------------- 254-bit division

  const INT_DIVISION := B.BinaryIntOp(2, Ints.UnsignedDiv, 254, 0, 1)
  const FIELD_DIVISION := B.BinaryFieldOp(2, B.BinaryFieldOp.Div, 0, 1)

  /** Two and its inverse, and what 7 / 2 is in the field. */
  lemma SevenHalves()
    ensures B.EvaluateField(B.BinaryFieldOp.Div, 7, 2) == (P + 7) / 2
  {
    assert B.Invertible(2) by {
      var half: Fr := (P + 1) / 2;
      DivModUnique(2 * half, P, 1, 1);
    }
    DivModUnique((P + 7) / 2 * 2, P, 1, 7);
    FieldQuotientExact(7, 2, (P + 7) / 2);
  }

  lemma SevenByTwo()
    ensures Fitting(254, 7) && Fitting(254, 2)
    ensures GivesNumber(INT_DIVISION, 7, 2, 3)
    ensures GivesNumber(FIELD_DIVISION, 7, 2, (P + 7) / 2)
    ensures GivesCell(INT_DIVISION, A.Cell(FIELD, 7), A.Cell(FIELD, 2), A.Cell(FIELD, (P + 7) / 2))
    ensures GivesCell(FIELD_DIVISION, A.Cell(FIELD, 7), A.Cell(FIELD, 2), A.Cell(FIELD, (P + 7) / 2))
  {
    hide Pow2;
    SevenHalves();
    Pow2Of128();
    ModulusBounds();
    SameResidue(7, Pow2(254));
    SameResidue(2, Pow2(254));
    QuotientIsReduced(7, 2, 254);
  }

  /** 7 / 2 at 254 bits: the Brillig program returns 3, and its bytecode the field quotient. */
  lemma WideDivisionReturns(calldata: seq<Fr>)
    ensures var p := [B.Const(0, 254, 7), B.Const(1, 254, 2), B.BinaryIntOp(2, Ints.UnsignedDiv, 254, 0, 1), B.Stop(2, 1)];
      Plain(p) && ProgramReturns(p, calldata, 4, [3]) && BytecodeReturns(p, calldata, 6, [(P + 7) / 2])
  {
    hide Pow2, GivesNumber, GivesCell, ProgramReturns, BytecodeReturns, Plain, PcAt, Fitting;
    assert TagFromBitSize(254) == FIELD;
    SevenByTwo();
    OperationOnBoth(254, 7, 254, 2, INT_DIVISION, calldata, 3, A.Cell(FIELD, (P + 7) / 2));
    ProgramLength(254, 7, 254, 2, INT_DIVISION);
  }

  /** Integer division at 254 bits and field division become the same instruction, for all operands. */
  lemma DivisionsConflated(p: B.Program, dst: nat, lhs: nat, rhs: nat)
    requires p != []
    ensures var i, f := B.BinaryIntOp(dst, Ints.UnsignedDiv, 254, lhs, rhs), B.BinaryFieldOp(dst, B.BinaryFieldOp.Div, lhs, rhs);
      Accepted(i, |p|) && Accepted(f, |p|) && Emit(p, i) == Emit(p, f)
  {
  }

  /** So two programs with different results have the same bytecode, and no simulator can be right about both. */
  lemma SameBytecode(calldata: seq<Fr>)
    ensures var p, q := OperationProgram(254, 7, 254, 2, INT_DIVISION), OperationProgram(254, 7, 254, 2, FIELD_DIVISION);
      && Plain(p) && Plain(q) && ProgramBytes(Transpiled(p)) == ProgramBytes(Transpiled(q))
      && ProgramReturns(p, calldata, 4, [3]) && ProgramReturns(q, calldata, 4, [(P + 7) / 2])
  {
    hide Pow2, GivesNumber, GivesCell, ProgramReturns, BytecodeReturns, Plain, PcAt, Fitting, ProgramBytes, OperationProgram;
    var p, q := OperationProgram(254, 7, 254, 2, INT_DIVISION), OperationProgram(254, 7, 254, 2, FIELD_DIVISION);
    assert TagFromBitSize(254) == FIELD;
    SevenByTwo();
    OperationOnBoth(254, 7, 254, 2, INT_DIVISION, calldata, 3, A.Cell(FIELD, (P + 7) / 2));
    OperationOnBoth(254, 7, 254, 2, FIELD_DIVISION, calldata, (P + 7) / 2, A.Cell(FIELD, (P + 7) / 2));
    PlainIsAccepted(p);
    PlainIsAccepted(q);
    SameCode(p, q);
  }

  lemma SameCode(p: B.Program, q: B.Program)
    requires p == OperationProgram(254, 7, 254, 2, INT_DIVISION) && q == OperationProgram(254, 7, 254, 2, FIELD_DIVISION)
    requires AcceptedProgram(p) && AcceptedProgram(q)
    ensures Transpiled(p) == Transpiled(q)
  {
    DivisionsConflated(p, 2, 0, 1);
    assert forall k :: 0 <= k < 4 && k != 2 ==> p[k] == q[k];
    SameEmission(p, q, 4);
  }

  lemma {:induction false} SameEmission(p: B.Program, q: B.Program, k: nat)
    requires |p| == |q| && k <= |p| && AcceptedPrefix(p, k) && AcceptedPrefix(q, k)
    requires forall i :: 0 <= i < k ==> Accepted(p[i], |p|) && Accepted(q[i], |q|) && Emit(p, p[i]) == Emit(q, q[i])
    ensures EmitPrefix(p, k) == EmitPrefix(q, k)
  {
    if k > 0 {
      SameEmission(p, q, k - 1);
    }
  }

  lemma NarrowSumSame()
    ensures var a, b := Some(A.Cell(UINT8, 1)), Some(A.Cell(UINT8, 2));
      Operands(32, a, b) && IntSame(Ints.Add, 32, a, b)
  {
    Pow2Of8();
    Pow2Of32();
  }

  /** The step of that program in which the classes part: compatible, and not class compatible. */
  lemma NarrowSumIsCompatible(p: B.Program, calldata: seq<Fr>, s: B.Vm, t: A.AvmState)
    requires Plain(p) && Related(p, s, t) && p[s.pc] == B.BinaryIntOp(2, Ints.Add, 32, 0, 1) && s.pc + 1 < |p|
    requires A.Get(t.memory, 0) == Some(A.Cell(UINT8, 1)) && A.Get(t.memory, 1) == Some(A.Cell(UINT8, 2))
    ensures Compatible(p, calldata, s, t.memory) && StepAgrees(p, calldata, s, t)
    ensures !ClassCompatible(p, calldata, s, t.memory) && !StepAgreesInClass(p, calldata, s, t)
  {
    hide SameMemory, SameStack, StepAgrees, StepAgreesInClass, IntSame, Pow2;
    NarrowSumSame();
    StepExact(p, calldata, s, t);
    ClassExact(p, calldata, s, t);
  }

  // ---------------------------------------------------------------- a program that computes on a loaded word

  /** Stores a 32-bit word through a pointer, loads it back and doubles it. */
  const HEAP: B.Program :=
    [B.Const(0, 32, 7), B.Const(1, 32, 5), B.Store(0, 1), B.Load(2, 0), B.BinaryIntOp(2, Ints.Add, 32, 2, 1), B.Stop(2, 1)]

  /** The load finds a 32-bit word. */
  const HEAP_CLAIMS: Claims := map[3 := UINT32]
  const LOADED: Typing := map[0 := UINT32, 1 := UINT32, 2 := UINT32]
  const HEAP_TYPES: seq<Typing> := [map[], map[0 := UINT32], WORDS, WORDS, LOADED, LOADED]

  lemma HeapConstants()
    ensures Checks(HEAP, 0, HEAP_CLAIMS, HEAP_TYPES, 0) && Checks(HEAP, 0, HEAP_CLAIMS, HEAP_TYPES, 1)
  {
    hide Pow2, After, Checks;
    WordIsTyped(0, 7, map[]);
    ChecksAtNext(HEAP, HEAP_CLAIMS, HEAP_TYPES, 0);
    WordIsTyped(1, 5, map[0 := UINT32]);
    ChecksAtNext(HEAP, HEAP_CLAIMS, HEAP_TYPES, 1);
  }

  lemma HeapPointers()
    ensures Checks(HEAP, 0, HEAP_CLAIMS, HEAP_TYPES, 2) && Checks(HEAP, 0, HEAP_CLAIMS, HEAP_TYPES, 3)
  {
    assert OfClass(WORDS, UINT32) == WORDS;
    assert After(B.Store(0, 1), WORDS, 0, None) == Some(WORDS);
    ChecksAtNext(HEAP, HEAP_CLAIMS, HEAP_TYPES, 2);
    assert After(B.Load(2, 0), WORDS, 0, Some(UINT32)) == Some(LOADED);
    ChecksAtNext(HEAP, HEAP_CLAIMS, HEAP_TYPES, 3);
  }

  lemma HeapEnd()
    ensures Checks(HEAP, 0, HEAP_CLAIMS, HEAP_TYPES, 4) && Checks(HEAP, 0, HEAP_CLAIMS, HEAP_TYPES, 5)
  {
    assert LOADED[2 := UINT32] == LOADED;
    assert After(B.BinaryIntOp(2, Ints.Add, 32, 2, 1), LOADED, 0, None) == Some(LOADED);
    ChecksAtNext(HEAP, HEAP_CLAIMS, HEAP_TYPES, 4);
    assert After(B.Stop(2, 1), LOADED, 0, None) == Some(LOADED);
  }

  lemma HeapChecks()
    ensures WellTyped(HEAP, 0, HEAP_CLAIMS, HEAP_TYPES)
  {
    hide Checks;
    HeapConstants();
    HeapPointers();
    HeapEnd();
  }

  /** From the addition on there is nothing to guard. */
  lemma HeapGuardedEnd(s: B.Vm, c: Classes, n: nat)
    requires s.pc == 4 || s.pc == 5
    ensures GuardedRun(HEAP, [], HEAP_CLAIMS, s, c, n)
    decreases n
  {
    if n > 0 && s.pc == 4 {
      var b := B.Step(HEAP, [], s);
      if b.Running? {
        HeapGuardedEnd(b.vm, ClassesAfter(HEAP[4], s, c), n - 1);
      }
    }
  }

  lemma HeapGuardedLoad(s: B.Vm, c: Classes, n: nat)
    requires s.pc == 3 && B.Read(s.memory, 0) == 7 && Knows(c, 7, UINT32)
    ensures GuardedRun(HEAP, [], HEAP_CLAIMS, s, c, n)
  {
    if n > 0 {
      var b := B.Step(HEAP, [], s);
      if b.Running? {
        HeapGuardedEnd(b.vm, ClassesAfter(HEAP[3], s, c), n - 1);
      }
    }
  }

  lemma HeapGuardedStore(s: B.Vm, c: Classes, n: nat)
    requires s.pc == 2 && B.Read(s.memory, 0) == 7 && Knows(c, 1, UINT32)
    ensures GuardedRun(HEAP, [], HEAP_CLAIMS, s, c, n)
  {
    Pow2Of64();
    if n > 0 {
      var b := B.Step(HEAP, [], s);
      assert b == B.Advance(HEAP, s, B.Write(s.memory, 7, B.Read(s.memory, 1)));
      HeapGuardedLoad(b.vm, ClassesAfter(HEAP[2], s, c), n - 1);
    }
  }

  lemma HeapStart(s: B.Vm, dst: nat, x: Fr, c: Classes)
    requires s.pc < |HEAP| && HEAP[s.pc] == B.Const(dst, 32, x) && s.pc + 1 < |HEAP|
    ensures B.Step(HEAP, [], s) == B.Running(s.(pc := s.pc + 1, memory := B.Write(s.memory, dst, x)))
    ensures ClassesAfter(HEAP[s.pc], s, c) == c[dst := UINT32] && Guard(HEAP, HEAP_CLAIMS, s, c)
  {
    hide B.Write, B.WriteSlice, B.Read;
  }

  lemma HeapGuarded(n: nat)
    ensures GuardedRun(HEAP, [], HEAP_CLAIMS, INITIAL_VM, map[], n)
  {
    hide B.Step, B.WriteSlice, ClassesAfter, Guard;
    HeapStart(INITIAL_VM, 0, 7, map[]);
    var s1, c1 := B.Vm(1, B.Write([], 0, 7), []), map[0 := UINT32];
    HeapStart(s1, 1, 5, c1);
    if n > 1 {
      HeapGuardedStore(B.Vm(2, B.Write(s1.memory, 1, 5), []), c1[1 := UINT32], n - 2);
      assert GuardedRun(HEAP, [], HEAP_CLAIMS, s1, c1, n - 1);
    }
  }

  /** Its bytecode simulates it for any number of steps. */
  lemma HeapRuns(n: nat)
    ensures Plain(HEAP)
    ensures var bytes := ProgramBytes(Transpiled(HEAP));
      && bytes != []
      && var decoded := DecodeAll(bytes, |bytes|);
      && decoded.Ok?
      && var b := Iterate(BrilligMachine(HEAP, []), INITIAL_VM, n);
      && exists k: nat :: k <= 2 * n && (b.More? ==> n <= k) &&
          Corresponds(RelatedBy(HEAP), SameResultFunction(), b, Iterate(AvmMachineOf(decoded.value, []), INITIAL_AVM, k))
  {
    ShortIsPlain(HEAP);
    HeapChecks();
    HeapGuarded(n);
    TypedProgramRuns(HEAP, [], HEAP_CLAIMS, HEAP_TYPES, n);
  }
}
