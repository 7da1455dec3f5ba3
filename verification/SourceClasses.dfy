/** The classes of AVM memory as a function of the Brillig run, and the conditions on that run under which it is simulated. */
module SourceClasses {
  import opened Wrappers
  import opened FieldElement
  import B = Brillig
  import opened AvmCodec
  import opened Transpiler
  import opened TranspilerCodec
  import A = AvmMachine
  import opened Simulation
  import opened SimulationValues
  import opened SimulationRelation
  import opened SimulationSteps
  import opened SimulationMoves
  import opened SimulationRuns
  import opened SimulationClasses
  import opened Lockstep

  /** The class of every address that has been written; the others are undefined in the AVM. */
  type Classes = map<nat, TypeTag>

  function Tags(m: A.TaggedMemory): (c: Classes)
  {
    map a: nat | a in m :: m[a].tag
  }

  function Block(dst: nat, size: nat): (r: Classes)
    ensures forall a :: a in r <==> dst <= a < dst + size
    ensures forall a :: a in r ==> r[a] == FIELD
  {
    if size == 0 then map[] else Block(dst, size - 1)[dst + size - 1 := FIELD]
  }

  /** Moving a word moves its class, or that it has none. */
  function Moved(c: Classes, dst: nat, source: nat): (r: Classes)
  {
    if source in c then c[dst := c[source]] else c - {dst}
  }

  /** The classes after an opcode: arithmetic leaves the class of its left operand. Of the Brillig state only the pointers
      matter. */
  function ClassesAfter(op: B.Opcode, s: B.Vm, c: Classes): (r: Classes)
  {
    match op
    case BinaryFieldOp(dst, _, lhs, _) => Moved(c, dst, lhs)
    case BinaryIntOp(dst, _, _, lhs, _) => Moved(c, dst, lhs)
    case Cast(dst, _, n) => if ValidBitSize(n) then c[dst := TagFromBitSize(n)] else c
    case Const(dst, n, _) => if ValidBitSize(n) then c[dst := TagFromBitSize(n)] else c
    case CalldataCopy(dst, size, _) => c + Block(dst, size)
    case Mov(dst, source) => Moved(c, dst, source)
    case Load(dst, ptr) => Moved(c, dst, B.Read(s.memory, ptr))
    case Store(ptr, source) => Moved(c, B.Read(s.memory, ptr), source)
    case _ => c
  }

  // ---------------------------------------------------------------- the AVM memory has these classes

  lemma TagsAfterWrite(m: A.TaggedMemory, m': A.TaggedMemory, dst: nat, tag: TypeTag)
    requires Writes(m, m', dst, tag)
    ensures Tags(m') == Tags(m)[dst := tag]
  {
  }

  lemma TagsAfterMove(m: A.TaggedMemory, dst: nat, source: nat)
    ensures Tags(A.Set(m, dst, A.Get(m, source))) == Moved(Tags(m), dst, source)
  {
  }

  lemma TagsAfterCopy(m: A.TaggedMemory, dst: nat, values: seq<Fr>)
    ensures Tags(A.CopyCells(m, dst, values)) == Tags(m) + Block(dst, |values|)
  {
  }

  lemma FiledClasses(m: A.TaggedMemory, dst: nat, lhs: nat, op: Op, inTag: TypeTag, b: Option<A.Cell>)
    requires A.Alu(op, inTag, A.Get(m, lhs), b).Put?
    ensures Tags(A.Set(m, dst, Some(A.Alu(op, inTag, A.Get(m, lhs), b).cell))) == Moved(Tags(m), dst, lhs)
  {
    hide A.Alu;
    LeftClass(op, inTag, A.Get(m, lhs), b);
  }

  lemma FieldClasses(p: B.Program, calldata: seq<Fr>, s: B.Vm, t: A.AvmState)
    requires Plain(p) && Related(p, s, t) && p[s.pc].BinaryFieldOp? && Macro(p, calldata, s, t).Running?
    ensures Tags(Macro(p, calldata, s, t).state.memory) == ClassesAfter(p[s.pc], s, Tags(t.memory))
  {
    hide A.Alu, Macro, Tags;
    var op := p[s.pc];
    var a, b := A.Get(t.memory, op.lhs), A.Get(t.memory, op.rhs);
    FieldMacro(p, calldata, s, t);
    FiledResult(p, calldata, s, t, op.destination, A.Alu(FieldOpcode(op.fieldOp), FIELD, a, b));
    FiledClasses(t.memory, op.destination, op.lhs, FieldOpcode(op.fieldOp), FIELD, b);
  }

  lemma IntClasses(p: B.Program, calldata: seq<Fr>, s: B.Vm, t: A.AvmState)
    requires Plain(p) && Related(p, s, t) && p[s.pc].BinaryIntOp? && Macro(p, calldata, s, t).Running?
    ensures Tags(Macro(p, calldata, s, t).state.memory) == ClassesAfter(p[s.pc], s, Tags(t.memory))
  {
    hide A.Alu, Macro, Tags;
    var op := p[s.pc];
    var a, b := A.Get(t.memory, op.lhs), A.Get(t.memory, op.rhs);
    IntOperands(p, s, t);
    IntMacro(p, calldata, s, t);
    FiledResult(p, calldata, s, t, op.destination, A.Alu(IntOpcode(op.intOp), TagFromBitSize(op.bitSize), a, b));
    FiledClasses(t.memory, op.destination, op.lhs, IntOpcode(op.intOp), TagFromBitSize(op.bitSize), b);
  }

  lemma ConstantClasses(p: B.Program, calldata: seq<Fr>, s: B.Vm, t: A.AvmState)
    requires Plain(p) && Related(p, s, t) && (p[s.pc].Cast? || p[s.pc].Const?) && Macro(p, calldata, s, t).Running?
    ensures Tags(Macro(p, calldata, s, t).state.memory) == ClassesAfter(p[s.pc], s, Tags(t.memory))
  {
    hide Macro, SameMemory, SameStack, Tags;
    if p[s.pc].Cast? {
      CastDeclares(p, calldata, s, t);
    } else {
      ConstDeclares(p, calldata, s, t);
    }
    TagsAfterWrite(t.memory, Macro(p, calldata, s, t).state.memory, p[s.pc].destination, TagFromBitSize(p[s.pc].bitSize));
  }

  lemma ClassesOfCopy(dst: nat, size: nat, offset: nat, s: B.Vm, c: Classes)
    ensures ClassesAfter(B.CalldataCopy(dst, size, offset), s, c) == c + Block(dst, size)
  {
  }

  lemma CopyClasses(p: B.Program, calldata: seq<Fr>, s: B.Vm, t: A.AvmState, dst: nat, size: nat, offset: nat)
    requires Plain(p) && Related(p, s, t) && p[s.pc] == B.CalldataCopy(dst, size, offset)
    requires Macro(p, calldata, s, t).Running? && B.Step(p, calldata, s).Running?
    ensures Tags(Macro(p, calldata, s, t).state.memory) == ClassesAfter(B.CalldataCopy(dst, size, offset), s, Tags(t.memory))
  {
    hide *;
    CopyDeclares(p, calldata, s, t);
    TagsAfterCopy(t.memory, dst, calldata[offset..offset + size]);
    ClassesOfCopy(dst, size, offset, s, Tags(t.memory));
  }

  lemma MovClasses(p: B.Program, calldata: seq<Fr>, s: B.Vm, t: A.AvmState)
    requires Plain(p) && Related(p, s, t) && p[s.pc].Mov? && Macro(p, calldata, s, t).Running?
    ensures Tags(Macro(p, calldata, s, t).state.memory) == ClassesAfter(p[s.pc], s, Tags(t.memory))
  {
    var dst, source := p[s.pc].destination, p[s.pc].source;
    assert PlainOp(p[s.pc]);
    MoveInstruction(p, calldata, s, t, ALL_DIRECT, source, dst);
    IndirectFlags(t.memory, source);
    IndirectFlags(t.memory, dst);
    TagsAfterMove(t.memory, dst, source);
  }

  lemma LoadClasses(p: B.Program, calldata: seq<Fr>, s: B.Vm, t: A.AvmState)
    requires Plain(p) && Related(p, s, t) && p[s.pc].Load? && Macro(p, calldata, s, t).Running?
    ensures Tags(Macro(p, calldata, s, t).state.memory) == ClassesAfter(p[s.pc], s, Tags(t.memory))
  {
    hide Macro, SameStack, Tags;
    var dst, ptr := p[s.pc].destination, p[s.pc].sourcePointer;
    assert PlainOp(p[s.pc]);
    MoveInstruction(p, calldata, s, t, ZEROTH_OPERAND_INDIRECT, ptr, dst);
    MovThroughZeroth(ptr, dst, t);
    PointerValue(s.memory, t.memory, ptr);
    TagsAfterMove(t.memory, dst, t.memory[ptr].value);
  }

  lemma StoreClasses(p: B.Program, calldata: seq<Fr>, s: B.Vm, t: A.AvmState)
    requires Plain(p) && Related(p, s, t) && p[s.pc].Store? && Macro(p, calldata, s, t).Running?
    ensures Tags(Macro(p, calldata, s, t).state.memory) == ClassesAfter(p[s.pc], s, Tags(t.memory))
  {
    hide Macro, SameStack, Tags;
    var ptr, source := p[s.pc].destinationPointer, p[s.pc].source;
    assert PlainOp(p[s.pc]);
    MoveInstruction(p, calldata, s, t, FIRST_OPERAND_INDIRECT, source, ptr);
    MovThroughFirst(source, ptr, t);
    PointerValue(s.memory, t.memory, ptr);
    TagsAfterMove(t.memory, t.memory[ptr].value, source);
  }

  predicate Jumps(op: B.Opcode)
  {
    op.Jump? || op.JumpIf? || op.Call? || op.Return?
  }

  predicate IsControl(op: Op)
  {
    op == JUMP || op == JUMPI || op == INTERNALCALL || op == INTERNALRETURN
  }

  lemma ControlKeepsMemory(calldata: seq<Fr>, i: Decoded, t: A.AvmState)
    requires IsControl(i.opcode)
    ensures A.Execute(calldata, i, t).Running? ==> A.Execute(calldata, i, t).state.memory == t.memory
  {
  }

  lemma EmitsControl(p: B.Program, op: B.Opcode)
    requires Accepted(op, |p|) && Jumps(op)
    ensures |Emit(p, op)| == 1 && IsControl(Denote(Emit(p, op)[0]).opcode)
  {
  }

  lemma JumpKeepsMemory(p: B.Program, calldata: seq<Fr>, s: B.Vm, t: A.AvmState)
    requires Plain(p) && Related(p, s, t) && Jumps(p[s.pc]) && Macro(p, calldata, s, t).Running?
    ensures Macro(p, calldata, s, t).state.memory == t.memory
  {
    hide Emit, Denote, A.Execute, IsControl;
    AcceptedAt(p, |p|, s.pc);
    EmitsControl(p, p[s.pc]);
    var i := Denote(Emit(p, p[s.pc])[0]);
    OneInstruction(p, calldata, s, t, i);
    ControlKeepsMemory(calldata, i, t);
  }

  /** After a step that agrees, the AVM memory has the classes computed from the Brillig state. */
  lemma ClassesFollow(p: B.Program, calldata: seq<Fr>, s: B.Vm, t: A.AvmState)
    requires Plain(p) && Related(p, s, t) && StepAgrees(p, calldata, s, t) && B.Step(p, calldata, s).Running?
    ensures Macro(p, calldata, s, t).Running?
    ensures Tags(Macro(p, calldata, s, t).state.memory) == ClassesAfter(p[s.pc], s, Tags(t.memory))
  {
    var op := p[s.pc];
    assert PlainOp(op);
    if op.BinaryFieldOp? {
      FieldClasses(p, calldata, s, t);
    } else if op.BinaryIntOp? {
      IntClasses(p, calldata, s, t);
    } else if op.Cast? || op.Const? {
      ConstantClasses(p, calldata, s, t);
    } else if op.CalldataCopy? {
      CopyClasses(p, calldata, s, t, op.destination, op.size, op.offset);
    } else if op.Mov? {
      MovClasses(p, calldata, s, t);
    } else if op.Load? {
      LoadClasses(p, calldata, s, t);
    } else if op.Store? {
      StoreClasses(p, calldata, s, t);
    } else {
      JumpKeepsMemory(p, calldata, s, t);
    }
  }

  // ---------------------------------------------------------------- a condition on the source run

  /** The tagged memory that belongs to a Brillig memory and its classes. */
  function Tagged(inner: seq<Fr>, c: Classes): (m: A.TaggedMemory)
  {
    map a: int | a in c :: A.Cell(c[a], B.Read(inner, a))
  }

  /** The current opcode is compatible, in terms of the Brillig state and its classes. */
  ghost predicate Fits(p: B.Program, calldata: seq<Fr>, s: B.Vm, c: Classes)
    requires s.pc < |p|
  {
    Compatible(p, calldata, s, Tagged(s.memory, c))
  }

  /** The current opcode is class compatible, in these terms. */
  ghost predicate Safe(p: B.Program, calldata: seq<Fr>, s: B.Vm, c: Classes)
    requires s.pc < |p|
  {
    ClassCompatible(p, calldata, s, Tagged(s.memory, c))
  }

  ghost predicate SameCells(m: A.TaggedMemory, m': A.TaggedMemory)
  {
    forall a: nat :: A.Get(m, a) == A.Get(m', a)
  }

  lemma TaggedIsMemory(inner: seq<Fr>, m: A.TaggedMemory)
    requires SameMemory(inner, m)
    ensures SameCells(Tagged(inner, Tags(m)), m)
  {
    forall a: nat
      ensures A.Get(Tagged(inner, Tags(m)), a) == A.Get(m, a)
    {
      assert B.Read(inner, a) == Num(A.Get(m, a));
    }
  }

  lemma SameDomain(m: A.TaggedMemory, m': A.TaggedMemory)
    requires SameCells(m, m')
    ensures forall a: nat :: (a in m <==> a in m') && (a in m ==> m[a] == m'[a])
  {
    forall a: nat
      ensures (a in m <==> a in m') && (a in m ==> m[a] == m'[a])
    {
      assert A.Get(m, a) == A.Get(m', a);
    }
  }

  /** Compatibility looks at cells at addresses only. */
  lemma CellsDecide(p: B.Program, calldata: seq<Fr>, s: B.Vm, m: A.TaggedMemory, m': A.TaggedMemory)
    requires s.pc < |p| && SameCells(m, m')
    ensures Compatible(p, calldata, s, m) <==> Compatible(p, calldata, s, m')
    ensures ClassCompatible(p, calldata, s, m) <==> ClassCompatible(p, calldata, s, m')
  {
    hide FieldOperandsSame, FieldCompatible, IntOperandsSame, IntOperandsCompatible, FailsToDivide;
    SameDomain(m, m');
  }

  lemma FitsIsCompatible(p: B.Program, calldata: seq<Fr>, s: B.Vm, t: A.AvmState)
    requires Related(p, s, t)
    ensures Fits(p, calldata, s, Tags(t.memory)) <==> Compatible(p, calldata, s, t.memory)
    ensures Safe(p, calldata, s, Tags(t.memory)) <==> ClassCompatible(p, calldata, s, t.memory)
  {
    hide Compatible, ClassCompatible, Tagged, Tags;
    TaggedIsMemory(s.memory, t.memory);
    CellsDecide(p, calldata, s, Tagged(s.memory, Tags(t.memory)), t.memory);
  }

  lemma TaggedCell(inner: seq<Fr>, c: Classes, a: nat)
    ensures IsField(A.Get(Tagged(inner, c), a)) ==> WellFormed(A.Get(Tagged(inner, c), a))
    ensures 0 <= Num(A.Get(Tagged(inner, c), a)) < P
  {
  }

  lemma SafeFits(p: B.Program, calldata: seq<Fr>, s: B.Vm, c: Classes)
    requires s.pc < |p| && Safe(p, calldata, s, c)
    ensures Fits(p, calldata, s, c)
  {
    hide FieldCompatible, IntSame, Tagged, FailsToDivide;
    if p[s.pc].BinaryFieldOp? {
      TaggedCell(s.memory, c, p[s.pc].lhs);
      TaggedCell(s.memory, c, p[s.pc].rhs);
      FieldKinds(p[s.pc].fieldOp, A.Get(Tagged(s.memory, c), p[s.pc].lhs), A.Get(Tagged(s.memory, c), p[s.pc].rhs));
    }
  }

  lemma FieldKinds(op: B.BinaryFieldOp, a: Option<A.Cell>, b: Option<A.Cell>)
    requires FieldCompatible(op, a, b)
    ensures IsField(a) && IsField(b)
  {
  }

  /** Every opcode of the first n steps of the Brillig VM is compatible for the classes along the run. */
  ghost predicate FittingRun(p: B.Program, calldata: seq<Fr>, s: B.Vm, c: Classes, n: nat)
    decreases n
  {
    n > 0 ==>
      && s.pc < |p| && Fits(p, calldata, s, c)
      && var b := B.Step(p, calldata, s);
        b.Running? ==> FittingRun(p, calldata, b.vm, ClassesAfter(p[s.pc], s, c), n - 1)
  }

  /** Every opcode of the first n steps of the Brillig VM is safe for the classes along the run. */
  ghost predicate SafeRun(p: B.Program, calldata: seq<Fr>, s: B.Vm, c: Classes, n: nat)
    decreases n
  {
    n > 0 ==>
      && s.pc < |p| && Safe(p, calldata, s, c)
      && var b := B.Step(p, calldata, s);
        b.Running? ==> SafeRun(p, calldata, b.vm, ClassesAfter(p[s.pc], s, c), n - 1)
  }

  ghost function AgreeingInClassBy(p: B.Program, calldata: seq<Fr>): (condition: (B.Vm, A.AvmState) -> bool)
    requires AcceptedProgram(p)
  {
    (s: B.Vm, t: A.AvmState) => Related(p, s, t) && StepAgreesInClass(p, calldata, s, t)
  }

  /** Every opcode of the first n steps does the same on both machines and keeps to its declared class. */
  ghost predicate ClassLockstepRun(p: B.Program, calldata: seq<Fr>, s: B.Vm, t: A.AvmState, n: nat)
    requires AcceptedProgram(p)
  {
    Along(BrilligMachine(p, calldata), AvmMachineOf(Code(p), calldata), InstructionsOf(p), AgreeingInClassBy(p, calldata), s, t, n)
  }

  /** One agreeing opcode on both machines, and what a run does after it. */
  lemma AgreeingStep(p: B.Program, calldata: seq<Fr>, s: B.Vm, t: A.AvmState)
    requires Plain(p) && Related(p, s, t) && StepAgrees(p, calldata, s, t)
    ensures var b, a := B.Step(p, calldata, s), Macro(p, calldata, s, t);
      && BrilligMachine(p, calldata)(s) == (if b.Running? then More(b.vm) else Done(b))
      && Iterate(AvmMachineOf(Code(p), calldata), t, InstructionsOf(p)(s)) == AsProgress(a)
      && (b.Running? ==> a.Running? && Related(p, b.vm, a.state))
      && (b.Running? ==> Tags(a.state.memory) == ClassesAfter(p[s.pc], s, Tags(t.memory)))
  {
    hide ClassesAfter, Tags;
    MacroIterates(p, calldata, s, t);
    if B.Step(p, calldata, s).Running? {
      ClassesFollow(p, calldata, s, t);
    }
  }

  lemma FitsExact(p: B.Program, calldata: seq<Fr>, s: B.Vm, t: A.AvmState)
    requires Plain(p) && Related(p, s, t)
    ensures StepAgrees(p, calldata, s, t) <==> Fits(p, calldata, s, Tags(t.memory))
    ensures StepAgreesInClass(p, calldata, s, t) <==> Safe(p, calldata, s, Tags(t.memory))
  {
    hide Fits, Safe, Compatible, ClassCompatible, Tags, StepAgrees, StepAgreesInClass;
    StepExact(p, calldata, s, t);
    ClassExact(p, calldata, s, t);
    FitsIsCompatible(p, calldata, s, t);
  }

  /** The machines stay in lockstep, memory compared as numbers, exactly when the Brillig run fits: the condition needs no
      AVM at all. */
  lemma {:induction false} FittingRunExact(p: B.Program, calldata: seq<Fr>, s: B.Vm, t: A.AvmState, n: nat)
    requires Plain(p) && Related(p, s, t)
    ensures LockstepRun(p, calldata, s, t, n) <==> FittingRun(p, calldata, s, Tags(t.memory), n)
    decreases n
  {
    hide Fits, ClassesAfter, Tags, StepAgrees, Macro, B.Step, Code, Iterate, SameMemory, SameStack, AcceptedPrefix;
    if n > 0 {
      FitsExact(p, calldata, s, t);
      if StepAgrees(p, calldata, s, t) {
        AgreeingStep(p, calldata, s, t);
        if B.Step(p, calldata, s).Running? {
          FittingRunExact(p, calldata, B.Step(p, calldata, s).vm, Macro(p, calldata, s, t).state, n - 1);
        }
      }
    }
  }

  /** They stay in lockstep with the declared classes exactly when the Brillig run is safe. */
  lemma {:induction false} SafeRunExact(p: B.Program, calldata: seq<Fr>, s: B.Vm, t: A.AvmState, n: nat)
    requires Plain(p) && Related(p, s, t)
    ensures ClassLockstepRun(p, calldata, s, t, n) <==> SafeRun(p, calldata, s, Tags(t.memory), n)
    decreases n
  {
    hide Safe, ClassesAfter, Tags, StepAgrees, Declared, Macro, B.Step, Code, Iterate, SameMemory, SameStack, AcceptedPrefix;
    if n > 0 {
      FitsExact(p, calldata, s, t);
      if StepAgreesInClass(p, calldata, s, t) {
        AgreeingStep(p, calldata, s, t);
        if B.Step(p, calldata, s).Running? {
          SafeRunExact(p, calldata, B.Step(p, calldata, s).vm, Macro(p, calldata, s, t).state, n - 1);
        }
      }
    }
  }

  /** A safe run fits. */
  lemma {:induction false} SafeRunFits(p: B.Program, calldata: seq<Fr>, s: B.Vm, c: Classes, n: nat)
    requires SafeRun(p, calldata, s, c, n)
    ensures FittingRun(p, calldata, s, c, n)
    decreases n
  {
    hide Safe, Fits, ClassesAfter;
    if n > 0 {
      SafeFits(p, calldata, s, c);
      var b := B.Step(p, calldata, s);
      if b.Running? {
        SafeRunFits(p, calldata, b.vm, ClassesAfter(p[s.pc], s, c), n - 1);
      }
    }
  }

  /** A program whose Brillig run from the initial state fits is simulated by its bytecode. */
  lemma FittingProgramRuns(p: B.Program, calldata: seq<Fr>, n: nat)
    requires Plain(p) && p != [B.Return] && FittingRun(p, calldata, INITIAL_VM, map[], n)
    ensures var bytes := ProgramBytes(Transpiled(p));
      && bytes != []
      && var decoded := DecodeAll(bytes, |bytes|);
      && decoded.Ok?
      && var b := Iterate(BrilligMachine(p, calldata), INITIAL_VM, n);
      && exists k: nat :: k <= 2 * n && (b.More? ==> n <= k) &&
          Corresponds(RelatedBy(p), SameResultFunction(), b, Iterate(AvmMachineOf(decoded.value, calldata), INITIAL_AVM, k))
  {
    TranspiledDecodes(p);
    InitiallyRelated(p);
    assert Tags(INITIAL_AVM.memory) == map[];
    FittingRunExact(p, calldata, INITIAL_VM, INITIAL_AVM, n);
    LockstepExact(p, calldata, INITIAL_VM, INITIAL_AVM, n);
    TranspiledProgramRuns(p, calldata, n);
  }

  /** So is one whose run is safe. */
  lemma SafeProgramRuns(p: B.Program, calldata: seq<Fr>, n: nat)
    requires Plain(p) && p != [B.Return] && SafeRun(p, calldata, INITIAL_VM, map[], n)
    ensures var bytes := ProgramBytes(Transpiled(p));
      && bytes != []
      && var decoded := DecodeAll(bytes, |bytes|);
      && decoded.Ok?
      && var b := Iterate(BrilligMachine(p, calldata), INITIAL_VM, n);
      && exists k: nat :: k <= 2 * n && (b.More? ==> n <= k) &&
          Corresponds(RelatedBy(p), SameResultFunction(), b, Iterate(AvmMachineOf(decoded.value, calldata), INITIAL_AVM, k))
  {
    SafeRunFits(p, calldata, INITIAL_VM, map[], n);
    FittingProgramRuns(p, calldata, n);
  }
}
