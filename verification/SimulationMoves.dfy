/** One Brillig step against the AVM instructions emitted for it: constants, moves, control flow. */
module SimulationMoves {
  import opened Wrappers
  import opened Numbers
  import opened FieldElement
  import B = Brillig
  import opened AvmCodec
  import opened Transpiler
  import A = AvmMachine
  import opened Simulation
  import opened SimulationResidues
  import opened SimulationRelation
  import opened SimulationSteps

  // ---------------------------------------------------------------- casts and constants

  lemma ReduceTwice(v: nat, m: nat)
    requires 0 < m <= P
    ensures v % m % P == v % m
  {
    var r := v % m;
    DivModUnique(r, P, 0, r);
  }

  lemma CellValueBelowP(c: A.Cell)
    requires A.WellFormedCell(c)
    ensures 0 <= c.value < P
  {
    if Integral(c.tag) {
      Pow2Monotone(A.Width(c.tag), 128);
      ModulusBounds();
    }
  }

  /** The value CAST computes is the one Brillig computes. */
  lemma FieldCastValue(v: Fr)
    ensures v % Pow2(254) % P == v
  {
    ModulusBounds();
    SameResidue(v, Pow2(254));
    SameResidue(v, P);
  }

  lemma IntegralCastValue(v: Fr, n: nat)
    requires n <= 128
    ensures v % Pow2(n) % P == v % Pow2(n)
  {
    PowerBelowP(n);
    ReduceTwice(v, Pow2(n));
  }

  /** What CAST computes: truncation to the width of the class. */
  function CastValue(n: nat, v: nat): (r: nat)
    requires ValidBitSize(n)
  {
    if n == 254 then v else v % Pow2(A.Width(TagFromBitSize(n)))
  }

  /** It is what Brillig computes, except that a cast to one bit keeps eight. */
  lemma CastValueExact(n: nat, v: Fr)
    requires ValidBitSize(n)
    ensures v % Pow2(n) % P == CastValue(n, v) <==> (n == 1 ==> v % 256 < 2)
  {
    if n == 254 {
      hide Pow2;
      FieldCastValue(v);
    } else if n == 1 {
      BitCastValue(v);
    } else {
      TagWidth(n);
      IntegralCastValue(v, n);
    }
  }

  lemma BitCastValue(v: Fr)
    ensures v % Pow2(1) % P == v % Pow2(8) <==> v % 256 < 2
  {
    Pow2Of8();
    assert Pow2(1) == 2;
    IntegralCastValue(v, 1);
    WrapExact(v, 8, 1);
  }

  /** CAST leaves a number of the declared type. */
  lemma CastResult(t: A.AvmState, dst: nat, source: nat, n: nat)
    requires A.InMemory(source) && A.InMemory(dst) && source in t.memory && A.WellFormedCell(t.memory[source])
    requires ValidBitSize(n)
    ensures 0 <= t.memory[source].value < P
    ensures var cell := A.Cell(TagFromBitSize(n), CastValue(n, t.memory[source].value));
      && A.ExecCast(TagFromBitSize(n), source, dst, t) == A.Next(t, A.Set(t.memory, dst, Some(cell)))
      && A.WellFormedCell(cell)
  {
    CellValueBelowP(t.memory[source]);
  }

  lemma CastAgrees(p: B.Program, s: B.Vm, t: A.AvmState, dst: nat, source: nat, n: nat)
    requires AcceptedProgram(p) && Related(p, s, t) && Count(p[s.pc]) == 1 && A.InMemory(source) && A.InMemory(dst)
    requires ValidBitSize(n)
    ensures Agrees(p, B.Advance(p, s, B.Write(s.memory, dst, B.Read(s.memory, source) % Pow2(n) % P)),
        AfterPcCheck(A.ExecCast(TagFromBitSize(n), source, dst, t), PcAt(p, |p|)))
      <==> s.pc + 1 < |p| && source in t.memory && (n == 1 ==> t.memory[source].value % 256 < 2)
  {
    hide Pow2;
    assert B.Read(s.memory, source) == Num(A.Get(t.memory, source));
    if source in t.memory {
      CastResult(t, dst, source, n);
      var v := t.memory[source].value;
      CastValueExact(n, v);
      WriteAgrees(p, s, t, dst, v % Pow2(n) % P, A.Cell(TagFromBitSize(n), CastValue(n, v)));
    }
  }

  lemma CastExecutes(calldata: seq<Fr>, tag: TypeTag, source: nat, dst: nat, t: A.AvmState)
    ensures A.Execute(calldata, Decoded(CAST, [0, TagCode(tag), source, dst]), t) == A.ExecCast(tag, source, dst, t)
  {
    TagRoundTrip(tag);
  }

  /** The AVM side of a cast. */
  lemma CastMacro(p: B.Program, calldata: seq<Fr>, s: B.Vm, t: A.AvmState)
    requires Plain(p) && Related(p, s, t) && p[s.pc].Cast?
    ensures Macro(p, calldata, s, t)
      == AfterPcCheck(A.ExecCast(TagFromBitSize(p[s.pc].bitSize), p[s.pc].source, p[s.pc].destination, t), PcAt(p, |p|))
  {
    var op := p[s.pc];
    var tag, source, dst := TagFromBitSize(op.bitSize), op.source, op.destination;
    DenoteTwo(CAST, tag, source, dst);
    OneInstruction(p, calldata, s, t, Decoded(CAST, [0, TagCode(tag), source, dst]));
    CastExecutes(calldata, tag, source, dst, t);
  }

  lemma CastStep(p: B.Program, calldata: seq<Fr>, s: B.Vm, t: A.AvmState)
    requires Plain(p) && Related(p, s, t) && p[s.pc].Cast?
    ensures StepAgrees(p, calldata, s, t) <==> Compatible(p, calldata, s, t.memory)
  {
    CastMacro(p, calldata, s, t);
    CastAgrees(p, s, t, p[s.pc].destination, p[s.pc].source, p[s.pc].bitSize);
  }

  /** SET stores the constant it was emitted for, the sign with which 64-bit operands are read notwithstanding. */
  lemma ReadBackMod(ty: OperandType, v: nat)
    requires v < Pow2(8 * Size(ty))
    ensures ReadBack(ty, v) % Pow2(8 * Size(ty)) == v
  {
    var m := Pow2(8 * Size(ty));
    if ReadBack(ty, v) == v {
      DivModUnique(v, m, 0, v);
    } else {
      DivModUnique(v - m, m, -1, v);
    }
  }

  lemma TagSize(tag: TypeTag)
    requires Integral(tag)
    ensures 8 * Size(ConstType(tag)) == A.Width(tag)
  {
  }

  lemma DenoteSet(tag: TypeTag, dst: nat, value: nat)
    requires Integral(tag) && dst < U32_LIMIT
    ensures var ty := ConstType(tag);
      Denote(EmitSet(tag, dst, value)) == Decoded(SET, [0, TagCode(tag), ReadBack(ty, value % Pow2(8 * Size(ty))), dst])
  {
    WordValue(dst);
    var ty := ConstType(tag);
    var v := value % Pow2(8 * Size(ty));
    var f := Fields(EmitSet(tag, dst, value));
    assert f == [Operand(U8, 0), Operand(U8, TagCode(tag)), Operand(ty, v), Operand(U32, dst)];
    assert ReadBacks(f) == [0, TagCode(tag), ReadBack(ty, v), dst];
  }

  lemma SetStores(calldata: seq<Fr>, tag: TypeTag, dst: nat, v: int, t: A.AvmState)
    requires Integral(tag) && A.InMemory(dst)
    ensures A.Execute(calldata, Decoded(SET, [0, TagCode(tag), v, dst]), t)
      == A.Next(t, A.Set(t.memory, dst, Some(A.Cell(tag, v % Pow2(A.Width(tag))))))
  {
    TagRoundTrip(tag);
  }

  lemma SetExecutes(calldata: seq<Fr>, tag: TypeTag, dst: nat, value: nat, t: A.AvmState)
    requires Integral(tag) && A.InMemory(dst)
    ensures A.Execute(calldata, Denote(EmitSet(tag, dst, value)), t)
      == A.Next(t, A.Set(t.memory, dst, Some(A.Cell(tag, value % Pow2(A.Width(tag))))))
  {
    TagSize(tag);
    var ty := ConstType(tag);
    var v := value % Pow2(8 * Size(ty));
    DenoteSet(tag, dst, value);
    SetStores(calldata, tag, dst, ReadBack(ty, v), t);
    ReadBackMod(ty, v);
  }

  /** A constant survives the narrowing to its type exactly when it fits. */
  lemma ConstantFits(value: Fr, tag: TypeTag)
    requires Integral(tag)
    ensures ToU128(value) % Pow2(A.Width(tag)) == value <==> value < Pow2(A.Width(tag))
  {
    var w := A.Width(tag);
    if value < Pow2(w) {
      Pow2Monotone(w, 128);
      LowBytes(value);
      SameResidue(value, Pow2(128));
      SameResidue(value, Pow2(w));
    }
  }

  lemma EmitsSet(p: B.Program, dst: nat, n: nat, value: Fr)
    requires Accepted(B.Const(dst, n, value), |p|) && n != 254
    ensures Integral(TagFromBitSize(n))
    ensures Emit(p, B.Const(dst, n, value)) == [EmitSet(TagFromBitSize(n), dst, ToU128(value))]
  {
  }

  /** The AVM side of a constant below 254 bits. */
  lemma SmallConstMacro(p: B.Program, calldata: seq<Fr>, s: B.Vm, t: A.AvmState, dst: nat, n: nat, value: Fr)
    requires AcceptedProgram(p) && Related(p, s, t) && p[s.pc] == B.Const(dst, n, value) && n != 254 && A.InMemory(dst)
    ensures ValidBitSize(n) && Integral(TagFromBitSize(n))
    ensures var tag := TagFromBitSize(n);
      var cell := A.Cell(tag, ToU128(value) % Pow2(A.Width(tag)));
      Macro(p, calldata, s, t) == AfterPcCheck(A.Next(t, A.Set(t.memory, dst, Some(cell))), PcAt(p, |p|))
  {
    AcceptedAt(p, |p|, s.pc);
    EmitsSet(p, dst, n, value);
    var v := ToU128(value);
    OneInstruction(p, calldata, s, t, Denote(EmitSet(TagFromBitSize(n), dst, v)));
    SetExecutes(calldata, TagFromBitSize(n), dst, v, t);
  }

  /** Both sides of such a constant agree when it fits. */
  lemma SmallConstAgrees(p: B.Program, s: B.Vm, t: A.AvmState, dst: nat, n: nat, value: Fr)
    requires AcceptedProgram(p) && Related(p, s, t) && Count(p[s.pc]) == 1
    requires ValidBitSize(n) && Integral(TagFromBitSize(n))
    ensures var tag := TagFromBitSize(n);
      var cell := A.Cell(tag, ToU128(value) % Pow2(A.Width(tag)));
      Agrees(p, B.Advance(p, s, B.Write(s.memory, dst, value)),
        AfterPcCheck(A.Next(t, A.Set(t.memory, dst, Some(cell))), PcAt(p, |p|)))
      <==> s.pc + 1 < |p| && value < Pow2(A.Width(tag))
  {
    var tag := TagFromBitSize(n);
    ConstantFits(value, tag);
    WriteAgrees(p, s, t, dst, value, A.Cell(tag, ToU128(value) % Pow2(A.Width(tag))));
  }

  lemma SmallConstProcessed(p: B.Program, calldata: seq<Fr>, s: B.Vm, m: A.TaggedMemory, dst: nat, n: nat, value: Fr)
    requires s.pc < |p| && p[s.pc] == B.Const(dst, n, value) && n != 254 && ValidBitSize(n) && Integral(TagFromBitSize(n))
    ensures B.Step(p, calldata, s) == B.Advance(p, s, B.Write(s.memory, dst, value))
    ensures Compatible(p, calldata, s, m) <==> s.pc + 1 < |p| && value < Pow2(A.Width(TagFromBitSize(n)))
  {
    hide Pow2;
  }

  lemma SmallConstStep(p: B.Program, calldata: seq<Fr>, s: B.Vm, t: A.AvmState)
    requires Plain(p) && Related(p, s, t) && p[s.pc].Const? && p[s.pc].bitSize != 254
    ensures StepAgrees(p, calldata, s, t) <==> Compatible(p, calldata, s, t.memory)
  {
    var dst, n, value := p[s.pc].destination, p[s.pc].bitSize, p[s.pc].value;
    SmallConstMacro(p, calldata, s, t, dst, n, value);
    SmallConstAgrees(p, s, t, dst, n, value);
    SmallConstProcessed(p, calldata, s, t.memory, dst, n, value);
    var tag := TagFromBitSize(n);
    var cell := A.Cell(tag, ToU128(value) % Pow2(A.Width(tag)));
    Concluded(p, calldata, s, t, B.Advance(p, s, B.Write(s.memory, dst, value)), A.Next(t, A.Set(t.memory, dst, Some(cell))),
      s.pc + 1 < |p| && value < Pow2(A.Width(tag)));
  }

  lemma TwoSteps(code: seq<Decoded>, calldata: seq<Fr>, t: A.AvmState, t': A.AvmState)
    requires 0 <= t.pc < |code| && A.Execute(calldata, code[t.pc], t) == A.Running(t') && 0 <= t'.pc < |code|
    ensures A.Steps(code, calldata, t, 2) == A.Steps(code, calldata, t', 1)
  {
    assert A.Step(code, calldata, t) == A.Running(t');
  }

  /** The SET and CAST of a field constant leave the constant as a field element. */
  lemma SetThenCast(code: seq<Decoded>, calldata: seq<Fr>, t: A.AvmState, dst: nat, v: nat, value: Fr)
    requires 0 <= t.pc && t.pc + 1 < |code| && A.InMemory(dst) && v % Pow2(128) == value
    requires code[t.pc] == Denote(EmitSet(UINT128, dst, v))
    requires code[t.pc + 1] == Denote(EmitCast(dst, dst, FIELD))
    ensures A.Steps(code, calldata, t, 2)
      == AfterPcCheck(A.Running(t.(pc := t.pc + 2, memory := A.Set(t.memory, dst, Some(A.Cell(FIELD, value))))), |code|)
  {
    var middle := t.(pc := t.pc + 1, memory := A.Set(t.memory, dst, Some(A.Cell(UINT128, value))));
    assert A.Execute(calldata, code[t.pc], t) == A.Running(middle) by {
      SetExecutes(calldata, UINT128, dst, v, t);
    }
    TwoSteps(code, calldata, t, middle);
    OneStep(code, calldata, middle);
    CastInPlace(calldata, middle, t.memory, dst, value);
  }

  lemma CastInPlace(calldata: seq<Fr>, t: A.AvmState, m: A.TaggedMemory, dst: nat, value: Fr)
    requires A.InMemory(dst) && t.memory == A.Set(m, dst, Some(A.Cell(UINT128, value)))
    ensures A.Execute(calldata, Denote(EmitCast(dst, dst, FIELD)), t) == A.Next(t, A.Set(m, dst, Some(A.Cell(FIELD, value))))
  {
    DenoteTwo(CAST, FIELD, dst, dst);
    CastExecutes(calldata, FIELD, dst, dst, t);
    assert A.Set(t.memory, dst, Some(A.Cell(FIELD, value))) == A.Set(m, dst, Some(A.Cell(FIELD, value)));
  }

  /** The instructions of a field constant take the AVM to the state the Brillig VM is in. */
  lemma FieldConstAgrees(p: B.Program, s: B.Vm, t: A.AvmState, dst: nat, value: Fr)
    requires AcceptedProgram(p) && Related(p, s, t) && p[s.pc] == B.Const(dst, 254, value)
    ensures var cell := A.Cell(FIELD, value);
      Agrees(p, B.Advance(p, s, B.Write(s.memory, dst, value)),
        AfterPcCheck(A.Running(t.(pc := t.pc + 2, memory := A.Set(t.memory, dst, Some(cell)))), PcAt(p, |p|)))
      <==> s.pc + 1 < |p|
  {
    var inner, m := B.Write(s.memory, dst, value), A.Set(t.memory, dst, Some(A.Cell(FIELD, value)));
    PcStep(p, s.pc);
    AdvanceAgrees(p, s, t, inner, m);
    SameAfterSet(s.memory, t.memory, dst, value, A.Cell(FIELD, value));
  }

  lemma FieldConstMacro(p: B.Program, calldata: seq<Fr>, s: B.Vm, t: A.AvmState, dst: nat, value: Fr)
    requires AcceptedProgram(p) && Related(p, s, t) && p[s.pc] == B.Const(dst, 254, value) && A.InMemory(dst)
    ensures var cell := A.Cell(FIELD, value);
      Macro(p, calldata, s, t)
      == AfterPcCheck(A.Running(t.(pc := t.pc + 2, memory := A.Set(t.memory, dst, Some(cell)))), PcAt(p, |p|))
  {
    hide Denote, EmitSet, EmitCast, ToU128;
    var code := Code(p);
    FieldConstAt(p, s.pc, dst, value);
    SetThenCast(code, calldata, t, dst, ToU128(value), value);
  }

  lemma FieldConstAt(p: B.Program, i: nat, dst: nat, value: Fr)
    requires AcceptedProgram(p) && i < |p| && p[i] == B.Const(dst, 254, value) && A.InMemory(dst)
    ensures |Code(p)| == PcAt(p, |p|) && PcAt(p, i) + 1 < |Code(p)|
    ensures Code(p)[PcAt(p, i)] == Denote(EmitSet(UINT128, dst, ToU128(value)))
    ensures Code(p)[PcAt(p, i) + 1] == Denote(EmitCast(dst, dst, FIELD))
    ensures ToU128(value) % Pow2(128) == value
  {
    hide PcAt, Denote, Emit, EmitSet, EmitCast, ToU128;
    CodeLength(p);
    CodeAt(p, i, 0);
    CodeAt(p, i, 1);
    FieldConstCode(p, dst, value);
  }

  lemma FieldConstCode(p: B.Program, dst: nat, value: Fr)
    requires A.InMemory(dst) && Accepted(B.Const(dst, 254, value), |p|)
    ensures Emit(p, B.Const(dst, 254, value)) == [EmitSet(UINT128, dst, ToU128(value)), EmitCast(dst, dst, FIELD)]
    ensures ToU128(value) % Pow2(128) == value
  {
    SameResidue(dst, U32_LIMIT);
    ConstantBelow(value);
  }

  lemma FieldConstStep(p: B.Program, calldata: seq<Fr>, s: B.Vm, t: A.AvmState)
    requires Plain(p) && Related(p, s, t) && p[s.pc].Const? && p[s.pc].bitSize == 254
    ensures StepAgrees(p, calldata, s, t) <==> Compatible(p, calldata, s, t.memory)
  {
    var op := p[s.pc];
    FieldConstMacro(p, calldata, s, t, op.destination, op.value);
    FieldConstAgrees(p, s, t, op.destination, op.value);
  }

  lemma ConstantBelow(value: Fr)
    requires BitLength(value) <= 128
    ensures ToU128(value) % Pow2(128) == value
  {
    TryIntoU128Exact(value);
    SameResidue(value, Pow2(128));
  }

  /** From what each machine does, and when that agrees, to the statement about the step. */
  lemma Concluded(p: B.Program, calldata: seq<Fr>, s: B.Vm, t: A.AvmState, b: B.Outcome, a: A.AvmOutcome, condition: bool)
    requires AcceptedProgram(p) && Related(p, s, t)
    requires B.Step(p, calldata, s) == b && Macro(p, calldata, s, t) == AfterPcCheck(a, PcAt(p, |p|))
    requires Agrees(p, b, AfterPcCheck(a, PcAt(p, |p|))) <==> condition
    requires Compatible(p, calldata, s, t.memory) <==> condition
    ensures StepAgrees(p, calldata, s, t) <==> Compatible(p, calldata, s, t.memory)
  {
  }

  // ---------------------------------------------------------------- moves

  lemma MovExecutes(calldata: seq<Fr>, indirect: byte, x: nat, y: nat, t: A.AvmState)
    ensures A.Execute(calldata, Decoded(MOV, [indirect, x, y]), t) == A.ExecMov(indirect, x, y, t)
  {
  }

  lemma IndirectFlags(m: A.TaggedMemory, x: nat)
    ensures A.Resolve(m, ALL_DIRECT, 0, x) == Some(x) == A.Resolve(m, ALL_DIRECT, 1, x)
    ensures A.Resolve(m, ZEROTH_OPERAND_INDIRECT, 1, x) == Some(x) == A.Resolve(m, FIRST_OPERAND_INDIRECT, 0, x)
    ensures A.Resolve(m, ZEROTH_OPERAND_INDIRECT, 0, x)
      == A.Resolve(m, FIRST_OPERAND_INDIRECT, 1, x)
      == if HasTagOf(A.Get(m, x), UINT32) then Some(m[x].value) else None
  {
    assert Pow2(0) == 1 && Pow2(1) == 2;
  }

  lemma MoveInstruction(p: B.Program, calldata: seq<Fr>, s: B.Vm, t: A.AvmState, indirect: byte, x: nat, y: nat)
    requires AcceptedProgram(p) && Related(p, s, t) && Count(p[s.pc]) == 1 && A.InMemory(x) && A.InMemory(y)
    requires Accepted(p[s.pc], |p|) ==> Emit(p, p[s.pc]) == [EmitMov(indirect, x, y)]
    ensures Macro(p, calldata, s, t) == AfterPcCheck(A.ExecMov(indirect, x, y, t), PcAt(p, |p|))
  {
    DenotePair(MOV, indirect, x, y);
    OneInstruction(p, calldata, s, t, Decoded(MOV, [indirect, x, y]));
    MovExecutes(calldata, indirect, x, y, t);
  }

  /** Moving a word, defined or not, agrees whenever there is a next opcode. */
  lemma MovedAgrees(p: B.Program, s: B.Vm, t: A.AvmState, dst: nat, src: nat)
    requires AcceptedProgram(p) && Related(p, s, t) && Count(p[s.pc]) == 1
    ensures Agrees(p, B.Advance(p, s, B.Write(s.memory, dst, B.Read(s.memory, src))),
        AfterPcCheck(A.Next(t, A.Set(t.memory, dst, A.Get(t.memory, src))), PcAt(p, |p|)))
      <==> s.pc + 1 < |p|
  {
    var inner, m := B.Write(s.memory, dst, B.Read(s.memory, src)), A.Set(t.memory, dst, A.Get(t.memory, src));
    NextIsAdvance(p, s, t, m);
    AdvanceAgrees(p, s, t, inner, m);
    SameAfterMove(s.memory, t.memory, dst, src);
  }

  lemma MovStep(p: B.Program, calldata: seq<Fr>, s: B.Vm, t: A.AvmState)
    requires Plain(p) && Related(p, s, t) && p[s.pc].Mov?
    ensures StepAgrees(p, calldata, s, t) <==> Compatible(p, calldata, s, t.memory)
  {
    var op := p[s.pc];
    MoveInstruction(p, calldata, s, t, ALL_DIRECT, op.source, op.destination);
    IndirectFlags(t.memory, op.source);
    IndirectFlags(t.memory, op.destination);
    MovedAgrees(p, s, t, op.destination, op.source);
  }

  /** A pointer the AVM accepts holds the address the Brillig VM uses. */
  lemma PointerValue(inner: seq<Fr>, m: A.TaggedMemory, ptr: nat)
    requires SameMemory(inner, m) && HasTagOf(A.Get(m, ptr), UINT32)
    ensures B.Read(inner, ptr) == m[ptr].value < Pow2(64)
  {
    assert B.Read(inner, ptr) == Num(A.Get(m, ptr));
    assert A.WellFormedCell(m[ptr]);
    Pow2Monotone(32, 64);
  }

  // Through a pointer: what each machine does, and when they agree.

  function BrilligLoad(p: B.Program, s: B.Vm, dst: nat, ptr: nat): (r: B.Outcome)
  {
    if B.Read(s.memory, ptr) < Pow2(64) then B.Advance(p, s, B.Write(s.memory, dst, B.Read(s.memory, B.Read(s.memory, ptr))))
    else B.Panicked
  }

  function BrilligStore(p: B.Program, s: B.Vm, ptr: nat, source: nat): (r: B.Outcome)
  {
    if B.Read(s.memory, ptr) < Pow2(64) then B.Advance(p, s, B.Write(s.memory, B.Read(s.memory, ptr), B.Read(s.memory, source)))
    else B.Panicked
  }

  predicate GoodPointer(m: A.TaggedMemory, ptr: nat)
  {
    HasTagOf(A.Get(m, ptr), UINT32) && m[ptr].value < A.MAX_MEMORY_SIZE
  }

  lemma LoadProcessed(p: B.Program, calldata: seq<Fr>, s: B.Vm, m: A.TaggedMemory, dst: nat, ptr: nat)
    requires s.pc < |p| && p[s.pc] == B.Load(dst, ptr)
    ensures B.Step(p, calldata, s) == BrilligLoad(p, s, dst, ptr)
    ensures Compatible(p, calldata, s, m) <==> s.pc + 1 < |p| && GoodPointer(m, ptr)
  {
  }

  lemma StoreProcessed(p: B.Program, calldata: seq<Fr>, s: B.Vm, m: A.TaggedMemory, ptr: nat, source: nat)
    requires s.pc < |p| && p[s.pc] == B.Store(ptr, source)
    ensures B.Step(p, calldata, s) == BrilligStore(p, s, ptr, source)
    ensures Compatible(p, calldata, s, m) <==> s.pc + 1 < |p| && GoodPointer(m, ptr)
  {
  }

  lemma MovThroughZeroth(ptr: nat, dst: nat, t: A.AvmState)
    requires A.InMemory(dst) && WellFormedMemory(t.memory)
    ensures A.ExecMov(ZEROTH_OPERAND_INDIRECT, ptr, dst, t) ==
      if !HasTagOf(A.Get(t.memory, ptr), UINT32) then A.Halted
      else if t.memory[ptr].value < A.MAX_MEMORY_SIZE then A.Next(t, A.Set(t.memory, dst, A.Get(t.memory, t.memory[ptr].value)))
      else A.Crashed
  {
    IndirectFlags(t.memory, ptr);
    IndirectFlags(t.memory, dst);
  }

  lemma MovThroughFirst(source: nat, ptr: nat, t: A.AvmState)
    requires A.InMemory(source) && WellFormedMemory(t.memory)
    ensures A.ExecMov(FIRST_OPERAND_INDIRECT, source, ptr, t) ==
      if !HasTagOf(A.Get(t.memory, ptr), UINT32) then A.Halted
      else if t.memory[ptr].value < A.MAX_MEMORY_SIZE then A.Next(t, A.Set(t.memory, t.memory[ptr].value, A.Get(t.memory, source)))
      else A.Crashed
  {
    IndirectFlags(t.memory, source);
    IndirectFlags(t.memory, ptr);
  }

  ghost predicate WellFormedMemory(m: A.TaggedMemory)
  {
    forall a :: a in m ==> A.WellFormedCell(m[a])
  }

  /** An AVM that fails agrees only with a failing Brillig VM. */
  lemma FailureAgrees(p: B.Program, b: B.Outcome, a: A.AvmOutcome)
    requires a.Halted? || a.Crashed?
    ensures Agrees(p, b, AfterPcCheck(a, PcAt(p, |p|))) <==> b.Failure?
  {
  }

  lemma LoadAgrees(p: B.Program, s: B.Vm, t: A.AvmState, dst: nat, ptr: nat)
    requires AcceptedProgram(p) && Related(p, s, t) && Count(p[s.pc]) == 1 && A.InMemory(dst)
    ensures Agrees(p, BrilligLoad(p, s, dst, ptr),
        AfterPcCheck(A.ExecMov(ZEROTH_OPERAND_INDIRECT, ptr, dst, t), PcAt(p, |p|)))
      <==> s.pc + 1 < |p| && GoodPointer(t.memory, ptr)
  {
    var b, a := BrilligLoad(p, s, dst, ptr), A.ExecMov(ZEROTH_OPERAND_INDIRECT, ptr, dst, t);
    MovThroughZeroth(ptr, dst, t);
    if GoodPointer(t.memory, ptr) {
      PointerValue(s.memory, t.memory, ptr);
      MovedAgrees(p, s, t, dst, t.memory[ptr].value);
    } else {
      FailureAgrees(p, b, a);
    }
  }

  lemma StoreAgrees(p: B.Program, s: B.Vm, t: A.AvmState, ptr: nat, source: nat)
    requires AcceptedProgram(p) && Related(p, s, t) && Count(p[s.pc]) == 1 && A.InMemory(source)
    ensures Agrees(p, BrilligStore(p, s, ptr, source),
        AfterPcCheck(A.ExecMov(FIRST_OPERAND_INDIRECT, source, ptr, t), PcAt(p, |p|)))
      <==> s.pc + 1 < |p| && GoodPointer(t.memory, ptr)
  {
    var b, a := BrilligStore(p, s, ptr, source), A.ExecMov(FIRST_OPERAND_INDIRECT, source, ptr, t);
    MovThroughFirst(source, ptr, t);
    if GoodPointer(t.memory, ptr) {
      PointerValue(s.memory, t.memory, ptr);
      MovedAgrees(p, s, t, t.memory[ptr].value, source);
    } else {
      FailureAgrees(p, b, a);
    }
  }

  lemma LoadStep(p: B.Program, calldata: seq<Fr>, s: B.Vm, t: A.AvmState)
    requires Plain(p) && Related(p, s, t) && p[s.pc].Load?
    ensures StepAgrees(p, calldata, s, t) <==> Compatible(p, calldata, s, t.memory)
  {
    var dst, ptr := p[s.pc].destination, p[s.pc].sourcePointer;
    MoveInstruction(p, calldata, s, t, ZEROTH_OPERAND_INDIRECT, ptr, dst);
    LoadProcessed(p, calldata, s, t.memory, dst, ptr);
    LoadAgrees(p, s, t, dst, ptr);
    Concluded(p, calldata, s, t, BrilligLoad(p, s, dst, ptr), A.ExecMov(ZEROTH_OPERAND_INDIRECT, ptr, dst, t),
      s.pc + 1 < |p| && GoodPointer(t.memory, ptr));
  }

  lemma StoreStep(p: B.Program, calldata: seq<Fr>, s: B.Vm, t: A.AvmState)
    requires Plain(p) && Related(p, s, t) && p[s.pc].Store?
    ensures StepAgrees(p, calldata, s, t) <==> Compatible(p, calldata, s, t.memory)
  {
    var ptr, source := p[s.pc].destinationPointer, p[s.pc].source;
    MoveInstruction(p, calldata, s, t, FIRST_OPERAND_INDIRECT, source, ptr);
    StoreProcessed(p, calldata, s, t.memory, ptr, source);
    StoreAgrees(p, s, t, ptr, source);
    Concluded(p, calldata, s, t, BrilligStore(p, s, ptr, source), A.ExecMov(FIRST_OPERAND_INDIRECT, source, ptr, t),
      s.pc + 1 < |p| && GoodPointer(t.memory, ptr));
  }

  lemma CopyExecutes(calldata: seq<Fr>, offset: nat, size: nat, dst: nat, t: A.AvmState)
    ensures A.Execute(calldata, Decoded(CALLDATACOPY, [0, offset, size, dst]), t)
      == A.ExecCalldataCopy(calldata, offset, size, dst, t)
  {
  }

  function BrilligCopy(p: B.Program, s: B.Vm, calldata: seq<Fr>, offset: nat, size: nat, dst: nat): (r: B.Outcome)
  {
    if offset + size <= |calldata| then B.Advance(p, s, B.WriteSlice(s.memory, dst, calldata[offset..offset + size]))
    else B.Panicked
  }

  lemma CopyProcessed(p: B.Program, calldata: seq<Fr>, s: B.Vm, m: A.TaggedMemory, dst: nat, size: nat, offset: nat)
    requires s.pc < |p| && p[s.pc] == B.CalldataCopy(dst, size, offset)
    ensures B.Step(p, calldata, s) == BrilligCopy(p, s, calldata, offset, size, dst)
    ensures Compatible(p, calldata, s, m) <==>
      s.pc + 1 < |p| && offset + size <= |calldata| && dst + size < A.MAX_MEMORY_SIZE
  {
  }

  lemma CopyInRange(calldata: seq<Fr>, offset: nat, size: nat, dst: nat, t: A.AvmState)
    requires offset + size <= |calldata| && A.InMemory(dst)
    ensures A.ExecCalldataCopy(calldata, offset, size, dst, t) == if dst + size < A.MAX_MEMORY_SIZE
      then A.Next(t, A.CopyCells(t.memory, dst, calldata[offset..offset + size])) else A.Crashed
  {
  }

  /** Both machines write the same run of cells and go on. */
  lemma CopiedAgrees(p: B.Program, s: B.Vm, t: A.AvmState, dst: nat, values: seq<Fr>)
    requires AcceptedProgram(p) && Related(p, s, t) && Count(p[s.pc]) == 1
    ensures Agrees(p, B.Advance(p, s, B.WriteSlice(s.memory, dst, values)),
        AfterPcCheck(A.Next(t, A.CopyCells(t.memory, dst, values)), PcAt(p, |p|)))
      <==> s.pc + 1 < |p|
  {
    var inner, m := B.WriteSlice(s.memory, dst, values), A.CopyCells(t.memory, dst, values);
    NextIsAdvance(p, s, t, m);
    AdvanceAgrees(p, s, t, inner, m);
    SameAfterCopy(s.memory, t.memory, dst, values);
  }

  lemma CopyAgrees(p: B.Program, s: B.Vm, t: A.AvmState, calldata: seq<Fr>, offset: nat, size: nat, dst: nat)
    requires AcceptedProgram(p) && Related(p, s, t) && Count(p[s.pc]) == 1 && A.InMemory(dst)
    ensures Agrees(p, BrilligCopy(p, s, calldata, offset, size, dst),
        AfterPcCheck(A.ExecCalldataCopy(calldata, offset, size, dst, t), PcAt(p, |p|)))
      <==> s.pc + 1 < |p| && offset + size <= |calldata| && dst + size < A.MAX_MEMORY_SIZE
  {
    if offset + size <= |calldata| {
      CopyInRange(calldata, offset, size, dst, t);
      CopiedAgrees(p, s, t, dst, calldata[offset..offset + size]);
    }
  }

  /** The AVM side of a calldata copy. */
  lemma CopyMacro(p: B.Program, calldata: seq<Fr>, s: B.Vm, t: A.AvmState, offset: nat, size: nat, dst: nat)
    requires Plain(p) && Related(p, s, t) && p[s.pc] == B.CalldataCopy(dst, size, offset)
    ensures Macro(p, calldata, s, t) == AfterPcCheck(A.ExecCalldataCopy(calldata, offset, size, dst, t), PcAt(p, |p|))
  {
    DenoteTriple(CALLDATACOPY, offset, size, dst);
    OneInstruction(p, calldata, s, t, Decoded(CALLDATACOPY, [0, offset, size, dst]));
    CopyExecutes(calldata, offset, size, dst, t);
  }

  lemma CalldataCopyStep(p: B.Program, calldata: seq<Fr>, s: B.Vm, t: A.AvmState)
    requires Plain(p) && Related(p, s, t) && p[s.pc].CalldataCopy?
    ensures StepAgrees(p, calldata, s, t) <==> Compatible(p, calldata, s, t.memory)
  {
    var offset, size, dst := p[s.pc].offset, p[s.pc].size, p[s.pc].destination;
    CopyMacro(p, calldata, s, t, offset, size, dst);
    CopyProcessed(p, calldata, s, t.memory, dst, size, offset);
    CopyAgrees(p, s, t, calldata, offset, size, dst);
    Concluded(p, calldata, s, t, BrilligCopy(p, s, calldata, offset, size, dst), A.ExecCalldataCopy(calldata, offset, size, dst, t),
      s.pc + 1 < |p| && offset + size <= |calldata| && dst + size < A.MAX_MEMORY_SIZE);
  }

  // ---------------------------------------------------------------- control flow

  lemma GotoAgrees(p: B.Program, s: B.Vm, t: A.AvmState, location: nat, callStack: seq<nat>, callStack': seq<int>)
    requires AcceptedProgram(p) && Related(p, s, t) && location <= |p| && SameStack(p, callStack, callStack')
    ensures Agrees(p, B.Goto(p, s.(callStack := callStack), location),
        AfterPcCheck(A.Running(t.(pc := PcAt(p, location), callStack := callStack')), PcAt(p, |p|)))
      <==> location < |p|
  {
    CodeLength(p);
    PcBound(p, location);
  }

  lemma TargetFits(p: B.Program, location: nat)
    requires Plain(p) && location <= |p|
    ensures PcAt(p, location) < U32_LIMIT
  {
    CodeLength(p);
    PcBound(p, location);
  }

  lemma TargetExecutes(calldata: seq<Fr>, target: nat, t: A.AvmState)
    ensures A.Execute(calldata, Decoded(JUMP, [target]), t) == A.Running(t.(pc := target))
    ensures A.Execute(calldata, Decoded(INTERNALCALL, [target]), t)
      == A.Running(t.(pc := target, callStack := t.callStack + [t.pc + 1]))
  {
  }

  lemma JumpStep(p: B.Program, calldata: seq<Fr>, s: B.Vm, t: A.AvmState)
    requires Plain(p) && Related(p, s, t) && p[s.pc].Jump?
    ensures StepAgrees(p, calldata, s, t) <==> Compatible(p, calldata, s, t.memory)
  {
    AcceptedAt(p, |p|, s.pc);
    var location := p[s.pc].location;
    var target := PcAt(p, location);
    assert Macro(p, calldata, s, t) == AfterPcCheck(A.Running(t.(pc := target)), PcAt(p, |p|)) by {
      TargetFits(p, location);
      DenoteTarget(JUMP, target);
      OneInstruction(p, calldata, s, t, Decoded(JUMP, [target]));
      TargetExecutes(calldata, target, t);
    }
    assert B.Step(p, calldata, s) == B.Goto(p, s.(callStack := s.callStack), location);
    GotoAgrees(p, s, t, location, s.callStack, t.callStack);
  }

  lemma CallStep(p: B.Program, calldata: seq<Fr>, s: B.Vm, t: A.AvmState)
    requires Plain(p) && Related(p, s, t) && p[s.pc].Call?
    ensures StepAgrees(p, calldata, s, t) <==> Compatible(p, calldata, s, t.memory)
  {
    hide PcAt, SameMemory, Denote, AcceptedPrefix, Macro;
    AcceptedAt(p, |p|, s.pc);
    var location := p[s.pc].location;
    var target := PcAt(p, location);
    var callStack, callStack' := s.callStack + [s.pc], t.callStack + [t.pc + 1];
    assert Macro(p, calldata, s, t) == AfterPcCheck(A.Running(t.(pc := target, callStack := callStack')), PcAt(p, |p|)) by {
      TargetFits(p, location);
      DenoteTarget(INTERNALCALL, target);
      OneInstruction(p, calldata, s, t, Decoded(INTERNALCALL, [target]));
      TargetExecutes(calldata, target, t);
    }
    assert B.Step(p, calldata, s) == B.Goto(p, s.(callStack := callStack), location);
    GotoAgrees(p, s, t, location, callStack, callStack');
  }

  function AvmJumpIf(t: A.AvmState, target: nat, condition: nat): (r: A.AvmOutcome)
  {
    if condition !in t.memory then A.Crashed
    else A.Running(t.(pc := if t.memory[condition].value == 0 then t.pc + 1 else target))
  }

  lemma JumpIfExecutes(calldata: seq<Fr>, target: nat, condition: nat, t: A.AvmState)
    requires A.InMemory(condition)
    ensures A.Execute(calldata, Decoded(JUMPI, [0, target, condition]), t) == AvmJumpIf(t, target, condition)
  {
  }

  function BrilligJumpIf(p: B.Program, s: B.Vm, condition: nat, location: nat): (r: B.Outcome)
  {
    B.Goto(p, s, if B.Read(s.memory, condition) != 0 then location else s.pc + 1)
  }

  lemma JumpIfProcessed(p: B.Program, calldata: seq<Fr>, s: B.Vm, m: A.TaggedMemory, condition: nat, location: nat)
    requires s.pc < |p| && p[s.pc] == B.JumpIf(condition, location)
    ensures B.Step(p, calldata, s) == BrilligJumpIf(p, s, condition, location)
    ensures Compatible(p, calldata, s, m) <==> condition in m && (s.pc + 1 < |p| || m[condition].value != 0)
  {
  }

  lemma JumpIfAgrees(p: B.Program, s: B.Vm, t: A.AvmState, condition: nat, location: nat)
    requires AcceptedProgram(p) && Related(p, s, t) && Count(p[s.pc]) == 1 && location < |p|
    ensures Agrees(p, BrilligJumpIf(p, s, condition, location),
        AfterPcCheck(AvmJumpIf(t, PcAt(p, location), condition), PcAt(p, |p|)))
      <==> condition in t.memory && (s.pc + 1 < |p| || t.memory[condition].value != 0)
  {
    assert B.Read(s.memory, condition) == Num(A.Get(t.memory, condition));
    PcStep(p, s.pc);
    GotoAgrees(p, s, t, location, s.callStack, t.callStack);
    GotoAgrees(p, s, t, s.pc + 1, s.callStack, t.callStack);
  }

  lemma JumpIfStep(p: B.Program, calldata: seq<Fr>, s: B.Vm, t: A.AvmState)
    requires Plain(p) && Related(p, s, t) && p[s.pc].JumpIf?
    ensures StepAgrees(p, calldata, s, t) <==> Compatible(p, calldata, s, t.memory)
  {
    AcceptedAt(p, |p|, s.pc);
    var condition, location := p[s.pc].condition, p[s.pc].location;
    var target := PcAt(p, location);
    assert Macro(p, calldata, s, t) == AfterPcCheck(AvmJumpIf(t, target, condition), PcAt(p, |p|)) by {
      TargetFits(p, location);
      DenotePair(JUMPI, ALL_DIRECT, target, condition);
      OneInstruction(p, calldata, s, t, Decoded(JUMPI, [0, target, condition]));
      JumpIfExecutes(calldata, target, condition, t);
    }
    JumpIfProcessed(p, calldata, s, t.memory, condition, location);
    JumpIfAgrees(p, s, t, condition, location);
    Concluded(p, calldata, s, t, BrilligJumpIf(p, s, condition, location), AvmJumpIf(t, target, condition),
      condition in t.memory && (s.pc + 1 < |p| || t.memory[condition].value != 0));
  }

  function AvmReturn(t: A.AvmState): (r: A.AvmOutcome)
  {
    if t.callStack == [] then A.Halted
    else A.Running(t.(pc := t.callStack[|t.callStack| - 1], callStack := t.callStack[..|t.callStack| - 1]))
  }

  lemma InternalReturnExecutes(calldata: seq<Fr>, t: A.AvmState)
    ensures A.Execute(calldata, Decoded(INTERNALRETURN, []), t) == AvmReturn(t)
  {
  }

  function BrilligReturn(p: B.Program, s: B.Vm): (r: B.Outcome)
  {
    if s.callStack == [] then B.Failure
    else B.Goto(p, s.(callStack := s.callStack[..|s.callStack| - 1]), s.callStack[|s.callStack| - 1] + 1)
  }

  predicate ReturnsInside(p: B.Program, s: B.Vm)
  {
    s.callStack == [] || s.callStack[|s.callStack| - 1] + 1 < |p|
  }

  lemma ReturnProcessed(p: B.Program, calldata: seq<Fr>, s: B.Vm, m: A.TaggedMemory)
    requires s.pc < |p| && p[s.pc].Return?
    ensures B.Step(p, calldata, s) == BrilligReturn(p, s)
    ensures Compatible(p, calldata, s, m) <==> ReturnsInside(p, s)
  {
  }

  lemma StackPops(p: B.Program, s: seq<nat>, t: seq<int>)
    requires AcceptedProgram(p) && SameStack(p, s, t) && s != []
    ensures SameStack(p, s[..|s| - 1], t[..|t| - 1])
    ensures s[|s| - 1] < |p| && t[|t| - 1] == PcAt(p, s[|s| - 1] + 1)
  {
    hide PcAt;
    PcStep(p, s[|s| - 1]);
  }

  lemma ReturnAgrees(p: B.Program, s: B.Vm, t: A.AvmState)
    requires AcceptedProgram(p) && Related(p, s, t)
    ensures Agrees(p, BrilligReturn(p, s), AfterPcCheck(AvmReturn(t), PcAt(p, |p|))) <==> ReturnsInside(p, s)
  {
    if s.callStack != [] {
      var top := |s.callStack| - 1;
      StackPops(p, s.callStack, t.callStack);
      GotoAgrees(p, s, t, s.callStack[top] + 1, s.callStack[..top], t.callStack[..top]);
    }
  }

  lemma ReturnMacro(p: B.Program, calldata: seq<Fr>, s: B.Vm, t: A.AvmState)
    requires Plain(p) && Related(p, s, t) && p[s.pc].Return?
    ensures Macro(p, calldata, s, t) == AfterPcCheck(AvmReturn(t), PcAt(p, |p|))
  {
    hide PcAt, Macro, AfterPcCheck, AvmReturn, A.Execute, SameMemory, SameStack;
    assert Denote(AvmInstruction(INTERNALRETURN, None, None, [])) == Decoded(INTERNALRETURN, []);
    OneInstruction(p, calldata, s, t, Decoded(INTERNALRETURN, []));
    InternalReturnExecutes(calldata, t);
  }

  lemma ReturnStep(p: B.Program, calldata: seq<Fr>, s: B.Vm, t: A.AvmState)
    requires Plain(p) && Related(p, s, t) && p[s.pc].Return?
    ensures StepAgrees(p, calldata, s, t) <==> Compatible(p, calldata, s, t.memory)
  {
    hide BrilligReturn, AvmReturn, ReturnsInside, Compatible, Agrees, PcAt;
    ReturnMacro(p, calldata, s, t);
    ReturnProcessed(p, calldata, s, t.memory);
    ReturnAgrees(p, s, t);
    Concluded(p, calldata, s, t, BrilligReturn(p, s), AvmReturn(t), ReturnsInside(p, s));
  }

  lemma RevertExecutes(calldata: seq<Fr>, t: A.AvmState)
    ensures A.Execute(calldata, Decoded(REVERT, [0, 0, 0]), t) == A.Reverted
  {
  }

  lemma TrapProcessed(p: B.Program, calldata: seq<Fr>, s: B.Vm)
    requires s.pc < |p| && p[s.pc].Trap?
    ensures B.Step(p, calldata, s) == B.Failure
    ensures forall m: A.TaggedMemory :: Compatible(p, calldata, s, m)
  {
  }

  lemma TrapStep(p: B.Program, calldata: seq<Fr>, s: B.Vm, t: A.AvmState)
    requires Plain(p) && Related(p, s, t) && p[s.pc].Trap?
    ensures StepAgrees(p, calldata, s, t) <==> Compatible(p, calldata, s, t.memory)
  {
    TrapProcessed(p, calldata, s);
    assert Macro(p, calldata, s, t) == A.Reverted by {
      DenotePair(REVERT, ALL_DIRECT, 0, 0);
      OneInstruction(p, calldata, s, t, Decoded(REVERT, [0, 0, 0]));
      RevertExecutes(calldata, t);
    }
    Concluded(p, calldata, s, t, B.Failure, A.Reverted, true);
  }

  lemma ReturnExecutes(calldata: seq<Fr>, offset: nat, size: nat, t: A.AvmState)
    ensures A.Execute(calldata, Decoded(RETURN, [0, offset, size]), t) == A.ExecReturn(offset, size, t)
  {
  }

  /** Return data agrees when the AVM can read all of it. */
  lemma StopAgrees(p: B.Program, inner: seq<Fr>, t: A.AvmState, offset: nat, size: nat)
    requires SameMemory(inner, t.memory)
    ensures Agrees(p, B.Finished(offset, size, inner), A.ExecReturn(offset, size, t)) <==>
      Readable(t.memory, offset, size)
  {
    if offset + size < A.MAX_MEMORY_SIZE {
      var output := A.ExecReturn(offset, size, t).output;
      forall k: nat | k < size
        ensures output[k] == Some(B.Read(inner, offset + k) as int) <==> offset + k in t.memory
      {
        assert B.Read(inner, offset + k) == Num(A.Get(t.memory, offset + k));
      }
      if !Readable(t.memory, offset, size) {
        var a: nat :| offset <= a < offset + size && a !in t.memory;
        assert output[a - offset] == None;
      }
    }
  }

  lemma StopProcessed(p: B.Program, calldata: seq<Fr>, s: B.Vm)
    requires s.pc < |p| && p[s.pc].Stop?
    ensures B.Step(p, calldata, s) == B.Finished(p[s.pc].returnOffset, p[s.pc].returnSize, s.memory)
    ensures forall m: A.TaggedMemory :: Compatible(p, calldata, s, m) <==> Readable(m, p[s.pc].returnOffset, p[s.pc].returnSize)
  {
  }

  lemma StopStep(p: B.Program, calldata: seq<Fr>, s: B.Vm, t: A.AvmState)
    requires Plain(p) && Related(p, s, t) && p[s.pc].Stop?
    ensures StepAgrees(p, calldata, s, t) <==> Compatible(p, calldata, s, t.memory)
  {
    var offset, size := p[s.pc].returnOffset, p[s.pc].returnSize;
    assert Macro(p, calldata, s, t) == A.ExecReturn(offset, size, t) by {
      DenotePair(RETURN, ALL_DIRECT, offset, size);
      OneInstruction(p, calldata, s, t, Decoded(RETURN, [0, offset, size]));
      ReturnExecutes(calldata, offset, size, t);
    }
    StopProcessed(p, calldata, s);
    StopAgrees(p, s.memory, t, offset, size);
  }

  // ---------------------------------------------------------------- every opcode

  /** The AVM does what the Brillig VM does on the current opcode exactly when the opcode is compatible:
      for every plain program, every pair of related states and every calldata. */
  lemma StepExact(p: B.Program, calldata: seq<Fr>, s: B.Vm, t: A.AvmState)
    requires Plain(p) && Related(p, s, t)
    ensures StepAgrees(p, calldata, s, t) <==> Compatible(p, calldata, s, t.memory)
  {
    assert PlainOp(p[s.pc]);
    match p[s.pc]
    case BinaryFieldOp(_, _, _, _) => FieldStep(p, calldata, s, t);
    case BinaryIntOp(_, _, _, _, _) => IntStep(p, calldata, s, t);
    case Cast(_, _, _) => CastStep(p, calldata, s, t);
    case JumpIf(_, _) => JumpIfStep(p, calldata, s, t);
    case Jump(_) => JumpStep(p, calldata, s, t);
    case CalldataCopy(_, _, _) => CalldataCopyStep(p, calldata, s, t);
    case Call(_) => CallStep(p, calldata, s, t);
    case Const(_, n, _) =>
      if n == 254 {
        FieldConstStep(p, calldata, s, t);
      } else {
        SmallConstStep(p, calldata, s, t);
      }
    case Return => ReturnStep(p, calldata, s, t);
    case Mov(_, _) => MovStep(p, calldata, s, t);
    case Load(_, _) => LoadStep(p, calldata, s, t);
    case Store(_, _) => StoreStep(p, calldata, s, t);
    case Trap => TrapStep(p, calldata, s, t);
    case Stop(_, _) => StopStep(p, calldata, s, t);
  }
}
