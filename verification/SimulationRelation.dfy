/** Related states of the Brillig VM and the AVM, and what it means for one step to agree. */
module SimulationRelation {
  import opened Wrappers
  import opened FieldElement
  import B = Brillig
  import opened AvmCodec
  import opened Transpiler
  import A = AvmMachine
  import opened Simulation

  // ---------------------------------------------------------------- programs

  predicate PlainOp(op: B.Opcode)
  {
    match op
    case BinaryFieldOp(dst, _, lhs, rhs) => A.InMemory(dst) && A.InMemory(lhs) && A.InMemory(rhs)
    case BinaryIntOp(dst, _, _, lhs, rhs) => A.InMemory(dst) && A.InMemory(lhs) && A.InMemory(rhs)
    case Cast(dst, source, _) => A.InMemory(dst) && A.InMemory(source)
    case JumpIf(condition, _) => A.InMemory(condition)
    case Jump(_) => true
    case CalldataCopy(dst, size, offset) => A.InMemory(dst) && size < U32_LIMIT && offset < U32_LIMIT
    case Call(_) => true
    case Const(dst, _, _) => A.InMemory(dst)
    case Return => true
    case Mov(dst, source) => A.InMemory(dst) && A.InMemory(source)
    case Load(dst, ptr) => A.InMemory(dst) && A.InMemory(ptr)
    case Store(ptr, source) => A.InMemory(ptr) && A.InMemory(source)
    case Trap => true
    case Stop(offset, size) => offset < U32_LIMIT && size < U32_LIMIT
    case _ => false
  }

  /** Accepted programs without foreign calls, black boxes or addresses the AVM does not have. */
  ghost predicate Plain(p: B.Program)
  {
    && AcceptedProgram(p) && PcAt(p, |p|) < U32_LIMIT
    && forall k :: 0 <= k < |p| ==> Accepted(p[k], |p|) && PlainOp(p[k])
  }

  /** What the simulator runs. */
  function Code(p: B.Program): (r: seq<Decoded>)
    requires AcceptedProgram(p)
  {
    DenoteAll(Transpiled(p))
  }

  lemma CodeAt(p: B.Program, i: nat, k: nat)
    requires AcceptedProgram(p) && i < |p| && k < Count(p[i])
    ensures Accepted(p[i], |p|) && |Emit(p, p[i])| == Count(p[i])
    ensures PcAt(p, i) + k < |Code(p)| && Code(p)[PcAt(p, i) + k] == Denote(Emit(p, p[i])[k])
  {
    EmittedAt(p, i, k);
  }

  lemma CodeLength(p: B.Program)
    requires AcceptedProgram(p)
    ensures |Code(p)| == PcAt(p, |p|)
  {
    PassesAgree(p, |p|);
  }

  lemma PcBound(p: B.Program, i: nat)
    requires AcceptedProgram(p) && i <= |p|
    ensures PcAt(p, i) <= |Code(p)| && (PcAt(p, i) < |Code(p)| <==> i < |p|)
  {
    CodeLength(p);
    if i < |p| {
      PcIncreasing(p, i, |p|);
    }
  }

  // ---------------------------------------------------------------- states

  /** The same numbers at every address, with undefined standing for zero. */
  ghost predicate SameMemory(inner: seq<Fr>, m: A.TaggedMemory)
  {
    (forall a: nat :: B.Read(inner, a) == Num(A.Get(m, a))) &&
    (forall a :: a in m ==> A.WellFormedCell(m[a]))
  }

  ghost predicate SameStack(p: B.Program, s: seq<nat>, t: seq<int>)
  {
    |s| == |t| &&
    forall k :: 0 <= k < |s| ==> s[k] < |p| && Count(p[s[k]]) == 1 && t[k] == PcAt(p, s[k]) + 1
  }

  ghost predicate Related(p: B.Program, s: B.Vm, t: A.AvmState)
  {
    s.pc < |p| && t.pc == PcAt(p, s.pc) && SameMemory(s.memory, t.memory) && SameStack(p, s.callStack, t.callStack)
  }

  /** The two machines do the same: related states, the same return data, or failure of both. */
  ghost predicate Agrees(p: B.Program, b: B.Outcome, a: A.AvmOutcome)
  {
    match b
    case Running(s) => a.Running? && Related(p, s, a.state)
    case Finished(offset, size, memory) =>
      a.Returned? && |a.output| == size && forall k :: 0 <= k < size ==> a.output[k] == Some(B.Read(memory, offset + k) as int)
    case Failure => a.Reverted? || a.Halted? || a.Crashed?
    case _ => false
  }

  // ---------------------------------------------------------------- memory updates

  lemma SameAfterSet(inner: seq<Fr>, m: A.TaggedMemory, dst: nat, v: Fr, cell: A.Cell)
    requires SameMemory(inner, m) && A.WellFormedCell(cell)
    ensures SameMemory(B.Write(inner, dst, v), A.Set(m, dst, Some(cell))) <==> cell.value == v
  {
    var inner', m' := B.Write(inner, dst, v), A.Set(m, dst, Some(cell));
    assert B.Read(inner', dst) == v && Num(A.Get(m', dst)) == cell.value;
    if cell.value == v {
      forall a: nat
        ensures B.Read(inner', a) == Num(A.Get(m', a))
      {
        assert B.Read(inner, a) == Num(A.Get(m, a));
      }
    }
  }

  lemma SameAfterMove(inner: seq<Fr>, m: A.TaggedMemory, dst: nat, src: nat)
    requires SameMemory(inner, m)
    ensures SameMemory(B.Write(inner, dst, B.Read(inner, src)), A.Set(m, dst, A.Get(m, src)))
  {
    var inner', m' := B.Write(inner, dst, B.Read(inner, src)), A.Set(m, dst, A.Get(m, src));
    forall a: nat
      ensures B.Read(inner', a) == Num(A.Get(m', a))
    {
      assert B.Read(inner, a) == Num(A.Get(m, a)) && B.Read(inner, src) == Num(A.Get(m, src));
    }
  }

  lemma CopyKeepsKind(m: A.TaggedMemory, dst: nat, values: seq<Fr>)
    requires forall a :: a in m ==> A.WellFormedCell(m[a])
    ensures forall a :: a in A.CopyCells(m, dst, values) ==> A.WellFormedCell(A.CopyCells(m, dst, values)[a])
  {
  }

  lemma SameAfterCopy(inner: seq<Fr>, m: A.TaggedMemory, dst: nat, values: seq<Fr>)
    requires SameMemory(inner, m)
    ensures SameMemory(B.WriteSlice(inner, dst, values), A.CopyCells(m, dst, values))
  {
    var inner', m' := B.WriteSlice(inner, dst, values), A.CopyCells(m, dst, values);
    CopyKeepsKind(m, dst, values);
    forall a: nat
      ensures B.Read(inner', a) == Num(A.Get(m', a))
    {
      assert B.Read(inner, a) == Num(A.Get(m, a));
    }
  }
}
