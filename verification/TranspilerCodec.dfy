/** The transpiler's bytecode read by the simulator's decoder. */
module TranspilerCodec {
  import opened Wrappers
  import opened Numbers
  import opened FieldElement
  import opened Brillig
  import opened AvmCodec
  import opened Transpiler

  lemma WordFits(x: nat)
    ensures Fits(Word(x))
  {
    Pow2Of32();
  }

  lemma ByteFits(b: byte)
    ensures Fits(Operand(U8, b))
  {
    Pow2Of8();
  }

  lemma HeaderFits(i: AvmInstruction)
    ensures |Header(i)| == (if i.indirect.Some? then 1 else 0) + (if i.tag.Some? then 1 else 0)
    ensures forall o <- Header(i) :: Fits(o) && o.typ == U8
  {
    if i.indirect.Some? {
      ByteFits(i.indirect.value);
    }
    if i.tag.Some? {
      ByteFits(TagCode(i.tag.value));
    }
  }

  function WordCount(f: Format): (n: nat)
  {
    match f
    case ThreeOperand => 3
    case TwoOperand => 2
    case Septuple => 7
    case Quadruple => 4
    case Triple => 3
    case Pair => 2
    case Single => 1
    case Target => 1
    case Bare => 0
    case Constant => 0
  }

  lemma FormatSplits(format: Format)
    requires format != Constant
    ensures WireFormat(format)
      == (if HasIndirect(format) then [U8] else []) + (if HasTag(format) then [U8] else []) + seq(WordCount(format), _ => U32)
  {
  }

  lemma WordTypes(i: AvmInstruction, format: Format)
    requires format != Constant && (i.indirect.Some? <==> HasIndirect(format)) && (i.tag.Some? <==> HasTag(format))
    requires |i.operands| == WordCount(format) && forall o <- i.operands :: o.typ == U32
    ensures Types(Fields(i)) == WireFormat(format)
  {
    hide WireFormat, WordCount, TagCode, Pow2;
    FormatSplits(format);
    HeaderFits(i);
    var header := (if HasIndirect(format) then [U8] else []) + (if HasTag(format) then [U8] else []);
    assert Types(Header(i)) == header;
    assert Types(Fields(i)) == header + seq(WordCount(format), _ => U32);
  }

  /** Shape of an instruction whose operands are all 32-bit words. */
  lemma WordShape(i: AvmInstruction, format: Format)
    requires format != Constant && (i.indirect.Some? <==> HasIndirect(format)) && (i.tag.Some? <==> HasTag(format))
    requires |i.operands| == WordCount(format)
    requires forall o <- i.operands :: Fits(o) && o.typ == U32
    ensures Shaped(i, format)
  {
    HeaderFits(i);
    WordTypes(i, format);
  }

  lemma TagWidths(tag: TypeTag)
    requires Integral(tag)
    ensures SetType(TagCode(tag)) == Some(ConstType(tag))
  {
  }

  lemma ConstantShape(i: AvmInstruction, tag: TypeTag, t: OperandType, a: Operand, b: Operand)
    requires i.opcode == SET && i.indirect.Some? && i.tag == Some(tag) && i.operands == [a, b]
    requires SetType(TagCode(tag)) == Some(t) && a.typ == t && b.typ == U32 && Fits(a) && Fits(b)
    ensures WellShaped(i)
  {
    hide Fits, TagCode;
    HeaderFits(i);
    assert Types(Fields(i)) == [U8, U8, t, U32];
  }

  lemma NarrowedFits(t: OperandType, value: nat)
    ensures Fits(Operand(t, value % Pow2(8 * Size(t))))
  {
  }

  lemma SetShape(tag: TypeTag, dest: nat, value: nat)
    requires Integral(tag)
    ensures WellShaped(EmitSet(tag, dest, value))
  {
    var i, t := EmitSet(tag, dest, value), ConstType(tag);
    NarrowedFits(t, value);
    WordFits(dest);
    TagWidths(tag);
    ConstantShape(i, tag, t, Operand(t, value % Pow2(8 * Size(t))), Word(dest));
  }

  lemma ThreeShape(op: Op, indirect: byte, tag: Option<TypeTag>, x: nat, y: nat, z: nat)
    requires FormatOf(op) == if tag.Some? then ThreeOperand else Triple
    ensures WellShaped(AvmInstruction(op, Some(indirect), tag, [Word(x), Word(y), Word(z)]))
  {
    WordFits(x);
    WordFits(y);
    WordFits(z);
    WordShape(AvmInstruction(op, Some(indirect), tag, [Word(x), Word(y), Word(z)]), FormatOf(op));
  }

  lemma TwoShape(op: Op, indirect: byte, tag: Option<TypeTag>, x: nat, y: nat)
    requires FormatOf(op) == if tag.Some? then TwoOperand else Pair
    ensures WellShaped(AvmInstruction(op, Some(indirect), tag, [Word(x), Word(y)]))
  {
    WordFits(x);
    WordFits(y);
    WordShape(AvmInstruction(op, Some(indirect), tag, [Word(x), Word(y)]), FormatOf(op));
  }

  lemma OneShape(op: Op, indirect: Option<byte>, x: nat)
    requires FormatOf(op) == if indirect.Some? then Single else Target
    ensures WellShaped(AvmInstruction(op, indirect, None, [Word(x)]))
  {
    WordFits(x);
    WordShape(AvmInstruction(op, indirect, None, [Word(x)]), FormatOf(op));
  }

  lemma ForeignShape(name: string, destinations: seq<ValueOrArray>, inputs: seq<ValueOrArray>)
    requires EmitForeignCall(name, destinations, inputs).Some?
    ensures WellShaped(EmitForeignCall(name, destinations, inputs).value)
  {
    if name == "keccak256" {
      ThreeShape(KECCAK, 3, None, destinations[0].pointer, inputs[0].pointer, inputs[0].size);
    } else if name == "sha256" {
      ThreeShape(SHA256, 3, None, destinations[0].pointer, inputs[0].pointer, inputs[0].size);
    } else if name == "poseidon" {
      ThreeShape(POSEIDON, 1, None, destinations[0].address, inputs[0].pointer, inputs[0].size);
    } else {
      OneShape(Getter(name).value, Some(ALL_DIRECT), destinations[0].address);
    }
  }

  lemma DataShape(p: Program, op: Opcode)
    requires Accepted(op, |p|) && IsData(op)
    ensures forall i <- Emit(p, op) :: WellShaped(i)
  {
    hide WellShaped, PcAt, Pow2, ToU128;
    match op
    case BinaryFieldOp(dst, fieldOp, lhs, rhs) => ThreeShape(FieldOpcode(fieldOp), ALL_DIRECT, Some(FIELD), lhs, rhs, dst);
    case BinaryIntOp(dst, intOp, bitSize, lhs, rhs) =>
      ThreeShape(IntOpcode(intOp), ALL_DIRECT, Some(TagFromBitSize(bitSize)), lhs, rhs, dst);
    case Cast(dst, source, bitSize) => TwoShape(CAST, ALL_DIRECT, Some(TagFromBitSize(bitSize)), source, dst);
    case CalldataCopy(dst, size, offset) => ThreeShape(CALLDATACOPY, ALL_DIRECT, None, offset, size, dst);
    case Const(dst, bitSize, value) =>
      SetShape(if TagFromBitSize(bitSize) != FIELD then TagFromBitSize(bitSize) else UINT128, dst, ToU128(value));
      TwoShape(CAST, ALL_DIRECT, Some(FIELD), dst % U32_LIMIT, dst % U32_LIMIT);
  }

  predicate IsData(op: Opcode)
  {
    op.BinaryFieldOp? || op.BinaryIntOp? || op.Cast? || op.Const? || op.CalldataCopy?
  }

  predicate IsMove(op: Opcode)
  {
    op.Mov? || op.Load? || op.Store? || op.Trap? || op.Stop?
  }

  lemma MoveShape(p: Program, op: Opcode)
    requires Accepted(op, |p|) && IsMove(op)
    ensures forall i <- Emit(p, op) :: WellShaped(i)
  {
    match op
    case Mov(dst, source) => TwoShape(MOV, ALL_DIRECT, None, source, dst);
    case Load(dst, ptr) => TwoShape(MOV, ZEROTH_OPERAND_INDIRECT, None, ptr, dst);
    case Store(ptr, source) => TwoShape(MOV, FIRST_OPERAND_INDIRECT, None, source, ptr);
    case Trap => TwoShape(REVERT, ALL_DIRECT, None, 0, 0);
    case Stop(offset, size) => TwoShape(RETURN, ALL_DIRECT, None, offset, size);
  }

  lemma ControlShape(p: Program, op: Opcode)
    requires Accepted(op, |p|) && !IsData(op) && !IsMove(op)
    ensures forall i <- Emit(p, op) :: WellShaped(i)
  {
    match op
    case JumpIf(condition, location) => TwoShape(JUMPI, ALL_DIRECT, None, PcAt(p, location), condition);
    case Jump(location) => OneShape(JUMP, None, PcAt(p, location));
    case Call(location) => OneShape(INTERNALCALL, None, PcAt(p, location));
    case Return => WordShape(AvmInstruction(INTERNALRETURN, None, None, []), Bare);
    case ForeignCall(name, destinations, inputs) => ForeignShape(name, destinations, inputs);
    case BlackBox(b) => ThreeShape(PEDERSEN, 1, None, b.output, b.inputs, b.inputsSize);
  }

  /** Every emitted instruction has the shape its opcode (and, for SET, its tag) prescribes. */
  lemma EmitWellShaped(p: Program, op: Opcode)
    requires Accepted(op, |p|)
    ensures forall i <- Emit(p, op) :: WellShaped(i)
  {
    if IsData(op) {
      DataShape(p, op);
    } else if IsMove(op) {
      MoveShape(p, op);
    } else {
      ControlShape(p, op);
    }
  }

  lemma {:induction false} PrefixWellShaped(p: Program, n: nat)
    requires n <= |p| && AcceptedPrefix(p, n)
    ensures forall k :: 0 <= k < |EmitPrefix(p, n)| ==> WellShaped(EmitPrefix(p, n)[k])
  {
    if n > 0 {
      PrefixWellShaped(p, n - 1);
      EmitWellShaped(p, p[n - 1]);
    }
  }

  lemma OnlyReturnEmitsReturn(p: Program)
    requires AcceptedProgram(p)
    ensures Transpiled(p) == [AvmInstruction(INTERNALRETURN, None, None, [])] <==> p == [Opcode.Return]
  {
    PassesAgree(p, |p|);
    EmittedAt(p, 0, 0);
    if |p| > 1 {
      PcIncreasing(p, 0, 1);
      PcIncreasing(p, 1, |p|);
    }
  }

  /** The simulator decodes the bytecode of every accepted program to exactly the emitted instructions,
      with the single exception of the program that is one Return. */
  lemma TranspiledDecodes(p: Program)
    requires AcceptedProgram(p)
    ensures ProgramBytes(Transpiled(p)) != []
    ensures DecodeAll(ProgramBytes(Transpiled(p)), |ProgramBytes(Transpiled(p))|) == Ok(DenoteAll(Transpiled(p)))
      <==> p != [Opcode.Return]
  {
    PrefixWellShaped(p, |p|);
    PassesAgree(p, |p|);
    EmittedAt(p, 0, 0);
    BytecodeDecodes(Transpiled(p));
    OnlyReturnEmitsReturn(p);
  }

  /** Different emitted programs have different bytecode. */
  lemma TranspiledUnique(p: Program, q: Program)
    requires AcceptedProgram(p) && AcceptedProgram(q)
    requires ProgramBytes(Transpiled(p)) == ProgramBytes(Transpiled(q))
    ensures Transpiled(p) == Transpiled(q)
  {
    PrefixWellShaped(p, |p|);
    PrefixWellShaped(q, |q|);
    UniquelyDecodable(Transpiled(p), Transpiled(q));
  }
}
