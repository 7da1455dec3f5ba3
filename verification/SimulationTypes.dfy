/** A static check of operand types under which every run is simulated. */
module SimulationTypes {
  import opened Wrappers
  import opened Numbers
  import opened FieldElement
  import Ints = BrilligArithmetic
  import B = Brillig
  import opened AvmCodec
  import opened Transpiler
  import A = AvmMachine
  import opened Simulation
  import opened SimulationRelation
  import opened SimulationSteps
  import opened SimulationRuns
  import opened SimulationClasses
  import opened SourceClasses
  import opened Lockstep

  /** The addresses known to be defined, with their classes. */
  type Typing = Classes

  predicate Knows(g: Typing, a: nat, t: TypeTag)
  {
    a in g && g[a] == t
  }

  predicate Within(g: Typing, c: Classes)
  {
    forall a :: a in g ==> a in c && g[a] == c[a]
  }

  /** The class that a load is said to find, if one is given for its position. */
  type Claims = map<nat, TypeTag>

  function ClaimAt(claims: Claims, i: nat): (r: Option<TypeTag>)
  {
    if i in claims then Some(claims[i]) else None
  }

  /** What is known after an opcode, or None where the opcode does not check. A load gives the claimed class, and storing
      through a pointer keeps only the addresses that have the class of the stored word. */
  ghost function After(op: B.Opcode, g: Typing, calldataLength: nat, claim: Option<TypeTag>): (r: Option<Typing>)
  {
    match op
    case BinaryFieldOp(dst, _, lhs, rhs) => if Knows(g, lhs, FIELD) && Knows(g, rhs, FIELD) then Some(g[dst := FIELD]) else None
    case BinaryIntOp(dst, _, n, lhs, rhs) =>
      if ValidBitSize(n) && Knows(g, lhs, TagFromBitSize(n)) && Knows(g, rhs, TagFromBitSize(n)) then Some(g[dst := TagFromBitSize(n)])
      else None
    case Cast(dst, source, n) => if source in g && ValidBitSize(n) then Some(g[dst := TagFromBitSize(n)]) else None
    case JumpIf(condition, _) => if condition in g then Some(g) else None
    case CalldataCopy(dst, size, offset) =>
      if offset + size <= calldataLength && dst + size < A.MAX_MEMORY_SIZE then Some(g + Block(dst, size)) else None
    case Const(dst, n, value) =>
      if ValidBitSize(n) && (n != 254 ==> value < Pow2(A.Width(TagFromBitSize(n)))) then Some(g[dst := TagFromBitSize(n)]) else None
    case Mov(dst, source) => Some(Moved(g, dst, source))
    case Load(dst, ptr) =>
      if Knows(g, ptr, UINT32) then Some(if claim.Some? then g[dst := claim.value] else g - {dst}) else None
    case Store(ptr, source) =>
      if Knows(g, ptr, UINT32) then Some(if source in g then OfClass(g, g[source]) else map[]) else None
    case Stop(offset, size) =>
      if offset + size < A.MAX_MEMORY_SIZE && forall a: nat :: offset <= a < offset + size ==> a in g then Some(g) else None
    case _ => Some(g)
  }

  function OfClass(g: Typing, t: TypeTag): (r: Typing)
  {
    map a | a in g && g[a] == t :: t
  }

  /** Where control can go next; a return goes behind any call. */
  ghost predicate Successor(p: B.Program, i: nat, j: nat)
    requires i < |p|
  {
    match p[i]
    case Jump(location) => j == location
    case JumpIf(_, location) => j == location || j == i + 1
    case Call(location) => j == location
    case Return => exists c: nat :: c < |p| && p[c].Call? && j == c + 1
    case Trap => false
    case Stop(_, _) => false
    case _ => j == i + 1
  }

  /** A typing for every opcode that checks there and at every edge; nothing is known at the start. */
  ghost predicate WellTyped(p: B.Program, calldataLength: nat, claims: Claims, types: seq<Typing>)
  {
    && |types| == |p|
    && (p != [] ==> types[0] == map[])
    && (forall i {:trigger types[i]} :: 0 <= i < |p| ==> Checks(p, calldataLength, claims, types, i))
  }

  ghost predicate Checks(p: B.Program, calldataLength: nat, claims: Claims, types: seq<Typing>, i: nat)
    requires i < |p| == |types|
  {
    var g := After(p[i], types[i], calldataLength, ClaimAt(claims, i));
    g.Some? && forall j: nat {:trigger Successor(p, i, j)} :: Successor(p, i, j) ==> j < |p| && Within(types[j], g.value)
  }

  /** Integer operations of 254 bits and of one bit are compatible for some numbers of their class only. */
  ghost predicate NumbersFit(op: Ints.BinaryIntOp, n: nat, x: Fr, y: Fr)
  {
    n == 1 || n == 254 ==>
      IntOperandsCompatible(op, n, Some(A.Cell(TagFromBitSize(n), x)), Some(A.Cell(TagFromBitSize(n), y)))
  }

  /** What no type tells, in terms of the Brillig run alone: divisors of field divisions, operands of 254 bits and of one bit,
      the range of pointers, and that a load finds a word of the claimed class. */
  ghost predicate Guard(p: B.Program, claims: Claims, s: B.Vm, c: Classes)
    requires s.pc < |p|
  {
    match p[s.pc]
    case BinaryFieldOp(_, op, _, rhs) => op.Div? ==> B.Read(s.memory, rhs) != 0
    case BinaryIntOp(_, op, n, lhs, rhs) => NumbersFit(op, n, B.Read(s.memory, lhs), B.Read(s.memory, rhs))
    case Cast(_, source, n) => n == 1 ==> B.Read(s.memory, source) % 256 < 2
    case Load(_, ptr) =>
      B.Read(s.memory, ptr) < A.MAX_MEMORY_SIZE && (s.pc in claims ==> Knows(c, B.Read(s.memory, ptr), claims[s.pc]))
    case Store(ptr, _) => B.Read(s.memory, ptr) < A.MAX_MEMORY_SIZE
    case _ => true
  }

  ghost predicate Calls(p: B.Program, stack: seq<nat>)
  {
    forall k :: 0 <= k < |stack| ==> stack[k] < |p| && p[stack[k]].Call?
  }

  /** Related states whose AVM memory has the typing of the current opcode. */
  ghost predicate TypedStates(p: B.Program, types: seq<Typing>, s: B.Vm, t: A.AvmState)
  {
    Related(p, s, t) && |types| == |p| && Within(types[s.pc], Tags(t.memory)) && Calls(p, s.callStack)
  }

  // ---------------------------------------------------------------- checked opcodes are compatible

  /** Operands of the declared width are always compatible at 8 to 128 bits. */
  lemma TypedIntCompatible(op: Ints.BinaryIntOp, n: nat, a: Option<A.Cell>, b: Option<A.Cell>)
    requires PlainWidth(n) && WellFormed(a) && WellFormed(b)
    requires HasTagOf(a, TagFromBitSize(n)) && HasTagOf(b, TagFromBitSize(n))
    ensures IntCompatible(op, n, a, b)
  {
    hide Pow2, IntCompatible;
    TagWidth(n);
    SameResidue(Num(b), Pow2(n));
    WordsCompatible(op, n, a, b);
  }

  lemma KnownTag(m: A.TaggedMemory, g: Typing, a: nat)
    requires Within(g, Tags(m)) && a in g
    ensures a in m && HasTagOf(A.Get(m, a), g[a])
  {
  }

  lemma HasNext(p: B.Program, calldataLength: nat, claims: Claims, types: seq<Typing>, i: nat)
    requires |types| == |p| && i < |p| && Checks(p, calldataLength, claims, types, i) && Successor(p, i, i + 1)
    ensures i + 1 < |p|
  {
  }

  lemma TypedCell(m: A.TaggedMemory, inner: seq<Fr>, g: Typing, a: nat)
    requires SameMemory(inner, m) && Within(g, Tags(m)) && a in g
    ensures A.Get(m, a) == Some(A.Cell(g[a], B.Read(inner, a)))
  {
    KnownTag(m, g, a);
    assert B.Read(inner, a) == Num(A.Get(m, a));
  }

  lemma TypedIntStep(p: B.Program, calldata: seq<Fr>, claims: Claims, types: seq<Typing>, s: B.Vm, t: A.AvmState)
    requires TypedStates(p, types, s, t) && Checks(p, |calldata|, claims, types, s.pc) && p[s.pc].BinaryIntOp?
    requires Guard(p, claims, s, Tags(t.memory))
    ensures ClassCompatible(p, calldata, s, t.memory)
  {
    hide Pow2, IntCompatible, SameMemory, SameStack;
    var op := p[s.pc];
    HasNext(p, |calldata|, claims, types, s.pc);
    TypedCell(t.memory, s.memory, types[s.pc], op.lhs);
    TypedCell(t.memory, s.memory, types[s.pc], op.rhs);
    OperandNumbers(s.memory, t.memory, op.lhs);
    OperandNumbers(s.memory, t.memory, op.rhs);
    if PlainWidth(op.bitSize) {
      TypedIntCompatible(op.intOp, op.bitSize, A.Get(t.memory, op.lhs), A.Get(t.memory, op.rhs));
    }
  }

  lemma TypedFieldStep(p: B.Program, calldata: seq<Fr>, claims: Claims, types: seq<Typing>, s: B.Vm, t: A.AvmState)
    requires TypedStates(p, types, s, t) && Checks(p, |calldata|, claims, types, s.pc) && p[s.pc].BinaryFieldOp?
    requires Guard(p, claims, s, Tags(t.memory))
    ensures ClassCompatible(p, calldata, s, t.memory)
  {
    var op := p[s.pc];
    HasNext(p, |calldata|, claims, types, s.pc);
    KnownTag(t.memory, types[s.pc], op.lhs);
    KnownTag(t.memory, types[s.pc], op.rhs);
    OperandNumbers(s.memory, t.memory, op.rhs);
  }

  lemma TypedPointerStep(p: B.Program, calldata: seq<Fr>, claims: Claims, types: seq<Typing>, s: B.Vm, t: A.AvmState)
    requires TypedStates(p, types, s, t) && Checks(p, |calldata|, claims, types, s.pc) && (p[s.pc].Load? || p[s.pc].Store?)
    requires Guard(p, claims, s, Tags(t.memory))
    ensures ClassCompatible(p, calldata, s, t.memory)
  {
    var ptr := if p[s.pc].Load? then p[s.pc].sourcePointer else p[s.pc].destinationPointer;
    HasNext(p, |calldata|, claims, types, s.pc);
    KnownTag(t.memory, types[s.pc], ptr);
    OperandNumbers(s.memory, t.memory, ptr);
  }

  lemma TypedReturnStep(p: B.Program, calldata: seq<Fr>, claims: Claims, types: seq<Typing>, s: B.Vm, t: A.AvmState)
    requires TypedStates(p, types, s, t) && Checks(p, |calldata|, claims, types, s.pc) && p[s.pc].Return?
    ensures ClassCompatible(p, calldata, s, t.memory)
  {
    if s.callStack != [] {
      var c := s.callStack[|s.callStack| - 1];
      assert Successor(p, s.pc, c + 1);
    }
  }

  lemma TypedStopStep(p: B.Program, calldata: seq<Fr>, claims: Claims, types: seq<Typing>, s: B.Vm, t: A.AvmState)
    requires TypedStates(p, types, s, t) && Checks(p, |calldata|, claims, types, s.pc) && p[s.pc].Stop?
    ensures ClassCompatible(p, calldata, s, t.memory)
  {
    forall a: nat | a in types[s.pc]
      ensures a in t.memory
    {
      KnownTag(t.memory, types[s.pc], a);
    }
  }

  /** A checked opcode whose guard holds is compatible. */
  lemma CheckedIsCompatible(p: B.Program, calldata: seq<Fr>, claims: Claims, types: seq<Typing>, s: B.Vm, t: A.AvmState)
    requires Plain(p) && TypedStates(p, types, s, t) && Checks(p, |calldata|, claims, types, s.pc)
    requires Guard(p, claims, s, Tags(t.memory))
    ensures ClassCompatible(p, calldata, s, t.memory)
  {
    assert PlainOp(p[s.pc]);
    match p[s.pc]
    case BinaryFieldOp(_, _, _, _) => TypedFieldStep(p, calldata, claims, types, s, t);
    case BinaryIntOp(_, _, _, _, _) => TypedIntStep(p, calldata, claims, types, s, t);
    case Load(_, _) => TypedPointerStep(p, calldata, claims, types, s, t);
    case Store(_, _) => TypedPointerStep(p, calldata, claims, types, s, t);
    case JumpIf(condition, _) =>
      HasNext(p, |calldata|, claims, types, s.pc);
      KnownTag(t.memory, types[s.pc], condition);
    case Return => TypedReturnStep(p, calldata, claims, types, s, t);
    case Stop(_, _) => TypedStopStep(p, calldata, claims, types, s, t);
    case Cast(_, source, _) =>
      HasNext(p, |calldata|, claims, types, s.pc);
      KnownTag(t.memory, types[s.pc], source);
      OperandNumbers(s.memory, t.memory, source);
    case CalldataCopy(_, _, _) => HasNext(p, |calldata|, claims, types, s.pc);
    case Const(_, _, _) => HasNext(p, |calldata|, claims, types, s.pc);
    case Mov(_, _) => HasNext(p, |calldata|, claims, types, s.pc);
    case _ =>
  }

  // ---------------------------------------------------------------- typings are kept

  /** What the check computes holds of the classes after the opcode. */
  lemma TypingKept(p: B.Program, calldataLength: nat, claims: Claims, g: Typing, s: B.Vm, c: Classes)
    requires s.pc < |p| && Within(g, c) && Guard(p, claims, s, c)
    requires After(p[s.pc], g, calldataLength, ClaimAt(claims, s.pc)).Some?
    ensures Within(After(p[s.pc], g, calldataLength, ClaimAt(claims, s.pc)).value, ClassesAfter(p[s.pc], s, c))
  {
  }

  // ---------------------------------------------------------------- typed runs

  lemma GoesToSuccessor(p: B.Program, calldata: seq<Fr>, s: B.Vm)
    requires s.pc < |p| && PlainOp(p[s.pc]) && Calls(p, s.callStack) && B.Step(p, calldata, s).Running?
    ensures var s' := B.Step(p, calldata, s).vm;
      s'.pc < |p| && Successor(p, s.pc, s'.pc) && Calls(p, s'.callStack)
  {
    hide B.Read, B.Write, B.WriteSlice, B.EvaluateField, Ints.Evaluate, Pow2;
    if p[s.pc].Return? {
      var c := s.callStack[|s.callStack| - 1];
      assert p[c].Call?;
    }
  }

  lemma WithinTransitive(g: Typing, g': Typing, c: Classes)
    requires Within(g, g') && Within(g', c)
    ensures Within(g, c)
  {
  }

  /** A checked step takes typed states to typed states. */
  lemma TypedStep(p: B.Program, calldata: seq<Fr>, claims: Claims, types: seq<Typing>, s: B.Vm, t: A.AvmState)
    requires Plain(p) && WellTyped(p, |calldata|, claims, types) && TypedStates(p, types, s, t)
    requires Guard(p, claims, s, Tags(t.memory))
    ensures StepAgreesInClass(p, calldata, s, t)
    ensures var b, a := B.Step(p, calldata, s), Macro(p, calldata, s, t);
      b.Running? ==> a.Running? && TypedStates(p, types, b.vm, a.state)
  {
    assert Checks(p, |calldata|, claims, types, s.pc) by {
      var g := types[s.pc];
    }
    CheckedIsCompatible(p, calldata, claims, types, s, t);
    ClassExact(p, calldata, s, t);
    var b, a := B.Step(p, calldata, s), Macro(p, calldata, s, t);
    if b.Running? {
      ClassesFollow(p, calldata, s, t);
      TypingKept(p, |calldata|, claims, types[s.pc], s, Tags(t.memory));
      GoesToSuccessor(p, calldata, s);
      var g := After(p[s.pc], types[s.pc], |calldata|, ClaimAt(claims, s.pc)).value;
      WithinTransitive(types[b.vm.pc], g, Tags(a.state.memory));
    }
  }

  /** The guards hold along the first n steps of the Brillig VM. */
  ghost predicate GuardedRun(p: B.Program, calldata: seq<Fr>, claims: Claims, s: B.Vm, c: Classes, n: nat)
    decreases n
  {
    n > 0 ==>
      && s.pc < |p| && Guard(p, claims, s, c)
      && var b := B.Step(p, calldata, s);
        b.Running? ==> GuardedRun(p, calldata, claims, b.vm, ClassesAfter(p[s.pc], s, c), n - 1)
  }

  /** A guarded run of a program that type checks is safe. */
  lemma {:induction false} TypedRunIsSafe(p: B.Program, calldata: seq<Fr>, claims: Claims, types: seq<Typing>, s: B.Vm, t: A.AvmState, n: nat)
    requires Plain(p) && WellTyped(p, |calldata|, claims, types) && TypedStates(p, types, s, t)
    requires GuardedRun(p, calldata, claims, s, Tags(t.memory), n)
    ensures SafeRun(p, calldata, s, Tags(t.memory), n)
    decreases n
  {
    hide Guard, Safe, ClassesAfter, Tags, StepAgrees, Declared, WellTyped;
    if n > 0 {
      TypedStep(p, calldata, claims, types, s, t);
      FitsExact(p, calldata, s, t);
      if B.Step(p, calldata, s).Running? {
        AgreeingStep(p, calldata, s, t);
        TypedRunIsSafe(p, calldata, claims, types, B.Step(p, calldata, s).vm, Macro(p, calldata, s, t).state, n - 1);
      }
    }
  }

  /** Every program that type checks is simulated from its initial state for as long as its Brillig run meets the guards: it
      divides by no zero field element, follows no pointer outside AVM memory, loads words of the claimed classes, and its
      254-bit and 1-bit integer operations have compatible operands. Same return data, or failure of both. */
  lemma TypedProgramRuns(p: B.Program, calldata: seq<Fr>, claims: Claims, types: seq<Typing>, n: nat)
    requires Plain(p) && p != [B.Return] && WellTyped(p, |calldata|, claims, types)
    requires GuardedRun(p, calldata, claims, INITIAL_VM, map[], n)
    ensures var bytes := ProgramBytes(Transpiled(p));
      && bytes != []
      && var decoded := DecodeAll(bytes, |bytes|);
      && decoded.Ok?
      && var b := Iterate(BrilligMachine(p, calldata), INITIAL_VM, n);
      && exists k: nat :: k <= 2 * n && (b.More? ==> n <= k) &&
          Corresponds(RelatedBy(p), SameResultFunction(), b, Iterate(AvmMachineOf(decoded.value, calldata), INITIAL_AVM, k))
  {
    InitiallyRelated(p);
    assert Tags(INITIAL_AVM.memory) == map[];
    TypedRunIsSafe(p, calldata, claims, types, INITIAL_VM, INITIAL_AVM, n);
    SafeProgramRuns(p, calldata, n);
  }

  // ---------------------------------------------------------------- a program that checks

  /** Counts a 32-bit word down to zero and returns it. */
  const COUNTDOWN: B.Program :=
    [B.Const(0, 32, 3), B.Const(1, 32, 1), B.BinaryIntOp(0, Ints.Sub, 32, 0, 1), B.JumpIf(0, 2), B.Stop(0, 1)]

  const WORDS: Typing := map[0 := UINT32, 1 := UINT32]
  const COUNTDOWN_TYPES: seq<Typing> := [map[], map[0 := UINT32], WORDS, WORDS, WORDS]

  /** An opcode with one successor checks when that successor knows no more than what holds after it. */
  lemma ChecksAtNext(p: B.Program, claims: Claims, types: seq<Typing>, i: nat)
    requires |types| == |p| && i + 1 < |p| && After(p[i], types[i], 0, ClaimAt(claims, i)) == Some(types[i + 1])
    requires p[i].Const? || p[i].BinaryIntOp? || p[i].Load? || p[i].Store?
    ensures Checks(p, 0, claims, types, i)
  {
  }

  lemma WordIsTyped(dst: nat, x: Fr, g: Typing)
    requires x < 0x1_0000_0000
    ensures After(B.Const(dst, 32, x), g, 0, None) == Some(g[dst := UINT32])
  {
    hide Pow2;
    Pow2Of32();
  }

  lemma CountdownConstants()
    ensures Checks(COUNTDOWN, 0, map[], COUNTDOWN_TYPES, 0) && Checks(COUNTDOWN, 0, map[], COUNTDOWN_TYPES, 1)
  {
    hide Pow2, After, Checks;
    WordIsTyped(0, 3, map[]);
    ChecksAtNext(COUNTDOWN, map[], COUNTDOWN_TYPES, 0);
    WordIsTyped(1, 1, map[0 := UINT32]);
    ChecksAtNext(COUNTDOWN, map[], COUNTDOWN_TYPES, 1);
  }

  lemma CountdownBody()
    ensures Checks(COUNTDOWN, 0, map[], COUNTDOWN_TYPES, 2)
  {
    assert WORDS[0 := UINT32] == WORDS;
    assert After(B.BinaryIntOp(0, Ints.Sub, 32, 0, 1), WORDS, 0, None) == Some(WORDS);
    ChecksAtNext(COUNTDOWN, map[], COUNTDOWN_TYPES, 2);
  }

  lemma CountdownEnd()
    ensures Checks(COUNTDOWN, 0, map[], COUNTDOWN_TYPES, 3) && Checks(COUNTDOWN, 0, map[], COUNTDOWN_TYPES, 4)
  {
    assert After(B.JumpIf(0, 2), WORDS, 0, None) == Some(WORDS);
    assert After(B.Stop(0, 1), WORDS, 0, None) == Some(WORDS);
  }

  lemma CountdownChecks()
    ensures WellTyped(COUNTDOWN, 0, map[], COUNTDOWN_TYPES)
  {
    CountdownConstants();
    CountdownBody();
    CountdownEnd();
  }
}
