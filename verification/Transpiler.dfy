/** The two-pass Brillig to AVM transpiler. */
module Transpiler {
  import opened Wrappers
  import opened Numbers
  import opened FieldElement
  import Ints = BrilligArithmetic
  import opened Brillig
  import opened AvmCodec

  const U32_LIMIT: nat := 0x1_0000_0000
  const ALL_DIRECT: byte := 0
  const ZEROTH_OPERAND_INDIRECT: byte := 1
  const FIRST_OPERAND_INDIRECT: byte := 2

  /** A 32-bit operand; `as u32` keeps the low 32 bits. */
  function Word(x: nat): (o: Operand)
  {
    Operand(U32, x % U32_LIMIT)
  }

  predicate ValidBitSize(n: nat)
  {
    n in {1, 8, 16, 32, 64, 128, 254}
  }

  /** `tag_from_bit_size`. */
  function TagFromBitSize(n: nat): (t: TypeTag)
    requires ValidBitSize(n)
  {
    if n == 1 || n == 8 then UINT8
    else if n == 16 then UINT16
    else if n == 32 then UINT32
    else if n == 64 then UINT64
    else if n == 128 then UINT128
    else FIELD
  }

  function ConstType(t: TypeTag): (r: OperandType)
    requires Integral(t)
  {
    match t case UINT8 => U8 case UINT16 => U16 case UINT32 => U32 case UINT64 => U64 case UINT128 => U128
  }

  // ---------------------------------------------------------------- emitters

  function EmitSet(tag: TypeTag, dest: nat, value: nat): (i: AvmInstruction)
    requires Integral(tag)
  {
    var t := ConstType(tag);
    AvmInstruction(SET, Some(ALL_DIRECT), Some(tag), [Operand(t, value % Pow2(8 * Size(t))), Word(dest)])
  }

  function EmitCast(source: nat, destination: nat, tag: TypeTag): (i: AvmInstruction)
  {
    AvmInstruction(CAST, Some(ALL_DIRECT), Some(tag), [Word(source), Word(destination)])
  }

  function EmitMov(indirect: byte, source: nat, dest: nat): (i: AvmInstruction)
  {
    AvmInstruction(MOV, Some(indirect), None, [Word(source), Word(dest)])
  }

  function FieldOpcode(op: BinaryFieldOp): (r: Op)
  {
    match op case Add => ADD case Sub => SUB case Mul => MUL case Div => DIV case Equals => EQ
  }

  function IntOpcode(op: Ints.BinaryIntOp): (r: Op)
    requires !op.SignedDiv?
  {
    match op
    case Add => ADD case Sub => SUB case Mul => MUL case UnsignedDiv => DIV case Equals => EQ
    case LessThan => LT case LessThanEquals => LTE case And => AND case Or => OR case Xor => XOR
    case Shl => SHL case Shr => SHR
  }

  /** Environment getters by foreign-call name. */
  function Getter(name: string): (r: Option<Op>)
  {
    if name == "address" then Some(ADDRESS) else if name == "storageAddress" then Some(STORAGEADDRESS)
    else if name == "origin" then Some(ORIGIN) else if name == "sender" then Some(SENDER)
    else if name == "portal" then Some(PORTAL) else if name == "feePerL1Gas" then Some(FEEPERL1GAS)
    else if name == "feePerL2Gas" then Some(FEEPERL2GAS) else if name == "feePerDaGas" then Some(FEEPERDAGAS)
    else if name == "chainId" then Some(CHAINID) else if name == "version" then Some(VERSION)
    else if name == "blockNumber" then Some(BLOCKNUMBER) else if name == "timestamp" then Some(TIMESTAMP)
    else None
  }

  /** `handle_foreign_call`: one instruction, or a panic. */
  function EmitForeignCall(name: string, destinations: seq<ValueOrArray>, inputs: seq<ValueOrArray>): (r: Option<AvmInstruction>)
  {
    if name == "keccak256" || name == "sha256" then
      if |inputs| >= 1 && inputs[0].HeapArray? && |destinations| == 1 && destinations[0].HeapArray? && destinations[0].size == 2
      then Some(AvmInstruction(if name == "keccak256" then KECCAK else SHA256, Some(3), None,
        [Word(destinations[0].pointer), Word(inputs[0].pointer), Word(inputs[0].size)]))
      else None
    else if name == "poseidon" then
      if |inputs| >= 1 && inputs[0].HeapArray? && |destinations| == 1 && destinations[0].MemoryAddress?
      then Some(AvmInstruction(POSEIDON, Some(1), None,
        [Word(destinations[0].address), Word(inputs[0].pointer), Word(inputs[0].size)]))
      else None
    else if inputs == [] && |destinations| == 1 && destinations[0].MemoryAddress? && Getter(name).Some?
    then Some(AvmInstruction(Getter(name).value, Some(ALL_DIRECT), None, [Word(destinations[0].address)]))
    else None
  }

  /** The opcodes the transpiler processes without panicking. */
  predicate Accepted(op: Opcode, programLength: nat)
  {
    match op
    case BinaryIntOp(_, intOp, bitSize, _, _) => !intOp.SignedDiv? && ValidBitSize(bitSize)
    case Cast(_, _, bitSize) => ValidBitSize(bitSize)
    case JumpIfNot(_, _) => false
    case JumpIf(_, location) => location < programLength
    case Jump(location) => location < programLength
    case Call(location) => location < programLength
    case Const(_, bitSize, value) => ValidBitSize(bitSize) && (bitSize == 254 ==> BitLength(value) <= 128)
    case ForeignCall(name, destinations, inputs) => EmitForeignCall(name, destinations, inputs).Some?
    case BlackBox(blackBox) => blackBox.PedersenHash?
    case _ => true
  }

  predicate AcceptedPrefix(p: Program, k: nat)
    requires k <= |p|
  {
    k == 0 || (AcceptedPrefix(p, k - 1) && Accepted(p[k - 1], |p|))
  }

  predicate AcceptedProgram(p: Program)
  {
    p != [] && AcceptedPrefix(p, |p|)
  }

  lemma {:induction false} AcceptedAt(p: Program, k: nat, i: nat)
    requires i < k <= |p| && AcceptedPrefix(p, k)
    ensures Accepted(p[i], |p|) && AcceptedPrefix(p, i)
    decreases k
  {
    if i < k - 1 {
      AcceptedAt(p, k - 1, i);
    }
  }

  lemma {:induction false} RejectedAt(p: Program, k: nat, i: nat)
    requires i < k <= |p| && !Accepted(p[i], |p|)
    ensures !AcceptedPrefix(p, k)
    decreases k
  {
    if i < k - 1 {
      RejectedAt(p, k - 1, i);
    }
  }

  // ---------------------------------------------------------------- pass one: the pc map

  /** How many AVM instructions pass one counts for an opcode. */
  function Count(op: Opcode): (n: nat)
    ensures 1 <= n <= 2
  {
    if op.Const? && op.bitSize == 254 then 2 else 1
  }

  /** AVM instructions before Brillig instruction i. */
  function PcAt(p: Program, i: nat): (n: nat)
    requires i <= |p|
  {
    if i == 0 then 0 else PcAt(p, i - 1) + Count(p[i - 1])
  }

  /** `map_brillig_pcs_to_avm_pcs`; indexing an empty map panics. */
  method MapPcs(initialOffset: nat, p: Program) returns (pcMap: array<nat>, ok: bool)
    ensures ok <==> p != []
    ensures ok ==> pcMap.Length == |p| && forall i {:trigger pcMap[i]} :: 0 <= i < |p| ==> pcMap[i] == initialOffset + PcAt(p, i)
  {
    pcMap := new nat[|p|](_ => 0);
    if |p| == 0 {
      return pcMap, false;
    }
    pcMap[0] := initialOffset;
    var i := 0;
    while i < |p| - 1
      invariant 0 <= i <= |p| - 1
      invariant forall k {:trigger pcMap[k]} :: 0 <= k <= i ==> pcMap[k] == initialOffset + PcAt(p, k)
    {
      var count := if p[i].Const? && p[i].bitSize == 254 then 2 else 1;
      pcMap[i + 1] := pcMap[i] + count;
      i := i + 1;
    }
    ok := true;
  }

  // ---------------------------------------------------------------- pass two: instructions

  /** The instructions emitted for one opcode, jump targets taken through the pc map. */
  function Emit(p: Program, op: Opcode): (r: seq<AvmInstruction>)
    requires Accepted(op, |p|)
  {
    match op
    case BinaryFieldOp(dst, fieldOp, lhs, rhs) =>
      [AvmInstruction(FieldOpcode(fieldOp), Some(ALL_DIRECT), Some(FIELD), [Word(lhs), Word(rhs), Word(dst)])]
    case BinaryIntOp(dst, intOp, bitSize, lhs, rhs) =>
      [AvmInstruction(IntOpcode(intOp), Some(ALL_DIRECT), Some(TagFromBitSize(bitSize)), [Word(lhs), Word(rhs), Word(dst)])]
    case Cast(dst, source, bitSize) => [EmitCast(source, dst, TagFromBitSize(bitSize))]
    case JumpIf(condition, location) =>
      [AvmInstruction(JUMPI, Some(ALL_DIRECT), None, [Word(PcAt(p, location)), Word(condition)])]
    case Jump(location) => [AvmInstruction(JUMP, None, None, [Word(PcAt(p, location))])]
    case CalldataCopy(dst, size, offset) =>
      [AvmInstruction(CALLDATACOPY, Some(ALL_DIRECT), None, [Word(offset), Word(size), Word(dst)])]
    case Call(location) => [AvmInstruction(INTERNALCALL, None, None, [Word(PcAt(p, location))])]
    case Const(dst, bitSize, value) =>
      if TagFromBitSize(bitSize) != FIELD then [EmitSet(TagFromBitSize(bitSize), dst, ToU128(value))]
      else [EmitSet(UINT128, dst, ToU128(value)), EmitCast(dst % U32_LIMIT, dst % U32_LIMIT, FIELD)]
    case Return => [AvmInstruction(INTERNALRETURN, None, None, [])]
    case ForeignCall(name, destinations, inputs) => [EmitForeignCall(name, destinations, inputs).value]
    case Mov(dst, source) => [EmitMov(ALL_DIRECT, source, dst)]
    case Load(dst, ptr) => [EmitMov(ZEROTH_OPERAND_INDIRECT, ptr, dst)]
    case Store(ptr, source) => [EmitMov(FIRST_OPERAND_INDIRECT, source, ptr)]
    case BlackBox(b) => [AvmInstruction(PEDERSEN, Some(1), None, [Word(b.output), Word(b.inputs), Word(b.inputsSize)])]
    case Trap => [AvmInstruction(REVERT, Some(ALL_DIRECT), None, [Word(0), Word(0)])]
    case Stop(offset, size) => [AvmInstruction(RETURN, Some(ALL_DIRECT), None, [Word(offset), Word(size)])]
  }

  function EmitPrefix(p: Program, k: nat): (r: seq<AvmInstruction>)
    requires k <= |p| && AcceptedPrefix(p, k)
  {
    if k == 0 then [] else EmitPrefix(p, k - 1) + Emit(p, p[k - 1])
  }

  function Transpiled(p: Program): (r: seq<AvmInstruction>)
    requires AcceptedProgram(p)
  {
    EmitPrefix(p, |p|)
  }

  lemma {:induction false} ProgramBytesConcat(a: seq<AvmInstruction>, b: seq<AvmInstruction>)
    ensures ProgramBytes(a + b) == ProgramBytes(a) + ProgramBytes(b)
  {
    if a == [] {
      assert a + b == b;
    } else {
      assert (a + b)[1..] == a[1..] + b;
      ProgramBytesConcat(a[1..], b);
    }
  }

  /** `brillig_to_avm`: the concatenated bytes of the emitted instructions, or a panic. */
  method BrilligToAvm(p: Program) returns (r: Result<seq<byte>>)
    ensures r.Ok? <==> AcceptedProgram(p)
    ensures r.Ok? ==> r.value == ProgramBytes(Transpiled(p))
  {
    hide Emit, Accepted;
    var pcMap, ok := MapPcs(0, p);
    if !ok {
      return Err("index out of bounds");
    }
    var avmInstrs, k := [], 0;
    while k < |p|
      invariant 0 <= k <= |p| && AcceptedPrefix(p, k)
      invariant avmInstrs == EmitPrefix(p, k)
    {
      if !Accepted(p[k], |p|) {
        RejectedAt(p, |p|, k);
        return Err("Transpiler doesn't know how to process this instruction");
      }
      avmInstrs := avmInstrs + EmitWith(p, pcMap, p[k]);
      k := k + 1;
    }
    var bytecode := Serialize(avmInstrs);
    r := Ok(bytecode);
  }

  method Serialize(code: seq<AvmInstruction>) returns (bytecode: seq<byte>)
    ensures bytecode == ProgramBytes(code)
  {
    bytecode := [];
    var j := 0;
    while j < |code|
      invariant 0 <= j <= |code|
      invariant bytecode == ProgramBytes(code[..j])
    {
      var bytes := ToBytes(code[j]);
      ProgramBytesConcat(code[..j], [code[j]]);
      assert ProgramBytes([code[j]]) == InstructionBytes(code[j]);
      assert code[..j] + [code[j]] == code[..j + 1];
      bytecode := bytecode + bytes;
      j := j + 1;
    }
    assert code[..j] == code;
  }

  /** Pass two reads jump targets from the map pass one filled. */
  function EmitWith(p: Program, pcMap: array<nat>, op: Opcode): (r: seq<AvmInstruction>)
    reads pcMap
    requires Accepted(op, |p|) && pcMap.Length == |p|
    requires forall i {:trigger pcMap[i]} :: 0 <= i < |p| ==> pcMap[i] == PcAt(p, i)
    ensures r == Emit(p, op)
  {
    match op
    case JumpIf(condition, location) =>
      [AvmInstruction(JUMPI, Some(ALL_DIRECT), None, [Word(pcMap[location]), Word(condition)])]
    case Jump(location) => [AvmInstruction(JUMP, None, None, [Word(pcMap[location])])]
    case Call(location) => [AvmInstruction(INTERNALCALL, None, None, [Word(pcMap[location])])]
    case _ => Emit(p, op)
  }

  // ---------------------------------------------------------------- the passes agree

  /** Pass one counts what pass two emits. */
  lemma CountIsEmitted(p: Program, op: Opcode)
    requires Accepted(op, |p|)
    ensures |Emit(p, op)| == Count(op)
  {
  }

  lemma {:induction false} PassesAgree(p: Program, k: nat)
    requires k <= |p| && AcceptedPrefix(p, k)
    ensures |EmitPrefix(p, k)| == PcAt(p, k)
  {
    if k > 0 {
      hide Emit, Count;
      PassesAgree(p, k - 1);
      CountIsEmitted(p, p[k - 1]);
    }
  }

  lemma {:induction false} PcIncreasing(p: Program, i: nat, j: nat)
    requires i < j <= |p|
    ensures PcAt(p, i) + Count(p[i]) <= PcAt(p, j)
    decreases j
  {
    if i < j - 1 {
      PcIncreasing(p, i, j - 1);
    }
  }

  lemma {:induction false} PrefixStable(p: Program, k: nat, n: nat)
    requires k <= n <= |p| && AcceptedPrefix(p, n)
    ensures AcceptedPrefix(p, k)
    ensures EmitPrefix(p, k) <= EmitPrefix(p, n)
    decreases n
  {
    if k < n {
      PrefixStable(p, k, n - 1);
    }
  }

  lemma PrefixIndex<T>(a: seq<T>, b: seq<T>, n: nat)
    requires a <= b && n < |a|
    ensures n < |b| && b[n] == a[n]
  {
  }

  lemma EmittedInPrefix(p: Program, i: nat, k: nat)
    requires i < |p| && AcceptedPrefix(p, i + 1) && k < Count(p[i])
    ensures |Emit(p, p[i])| == Count(p[i])
    ensures PcAt(p, i) + k < |EmitPrefix(p, i + 1)| && EmitPrefix(p, i + 1)[PcAt(p, i) + k] == Emit(p, p[i])[k]
  {
    PassesAgree(p, i);
    CountIsEmitted(p, p[i]);
  }

  /** The instructions of Brillig instruction i sit at pc_map[i] in the output. */
  lemma EmittedAt(p: Program, i: nat, k: nat)
    requires AcceptedProgram(p) && i < |p| && k < Count(p[i])
    ensures Accepted(p[i], |p|)
    ensures |Emit(p, p[i])| == Count(p[i])
    ensures PcAt(p, i) + k < |Transpiled(p)| && Transpiled(p)[PcAt(p, i) + k] == Emit(p, p[i])[k]
  {
    AcceptedAt(p, |p|, i);
    PrefixStable(p, i + 1, |p|);
    EmittedInPrefix(p, i, k);
    PrefixIndex(EmitPrefix(p, i + 1), EmitPrefix(p, |p|), PcAt(p, i) + k);
  }

  /** The target of a JUMP, JUMPI or INTERNALCALL. */
  function Target(op: Opcode): (r: Option<nat>)
  {
    match op
    case Jump(location) => Some(location)
    case JumpIf(_, location) => Some(location)
    case Call(location) => Some(location)
    case _ => None
  }

  lemma EmittedTarget(p: Program, op: Opcode)
    requires Accepted(op, |p|) && Target(op).Some?
    ensures Target(op).value < |p| && |Emit(p, op)| == 1
    ensures Emit(p, op)[0].operands != [] && Emit(p, op)[0].operands[0] == Word(PcAt(p, Target(op).value))
  {
  }

  /** Every emitted jump goes to the first AVM instruction of its Brillig target,
      never between the two instructions of a field constant. */
  lemma JumpTargets(p: Program, i: nat)
    requires AcceptedProgram(p) && i < |p| && Target(p[i]).Some? && |Transpiled(p)| < U32_LIMIT
    ensures Accepted(p[i], |p|) && Target(p[i]).value < |p|
    ensures PcAt(p, i) < |Transpiled(p)| && Transpiled(p)[PcAt(p, i)].operands != []
    ensures Transpiled(p)[PcAt(p, i)].operands[0].value == PcAt(p, Target(p[i]).value)
    ensures Accepted(p[Target(p[i]).value], |p|) && StartsInstruction(p, Target(p[i]).value)
  {
    var target := Target(p[i]).value;
    EmittedAt(p, i, 0);
    EmittedTarget(p, p[i]);
    FirstInstruction(p, target);
    DivModUnique(PcAt(p, target), U32_LIMIT, 0, PcAt(p, target));
  }

  /** pc_map[i] is the first AVM instruction of i and no CAST of a SET/CAST pair. */
  ghost predicate StartsInstruction(p: Program, i: nat)
    requires AcceptedProgram(p) && i < |p| && Accepted(p[i], |p|)
  {
    && PcAt(p, i) < |Transpiled(p)| && Emit(p, p[i]) != []
    && Transpiled(p)[PcAt(p, i)] == Emit(p, p[i])[0]
    && forall k :: 0 <= k < |p| && Count(p[k]) == 2 ==> PcAt(p, i) != PcAt(p, k) + 1
  }

  lemma FirstInstruction(p: Program, i: nat)
    requires AcceptedProgram(p) && i < |p|
    ensures Accepted(p[i], |p|) && StartsInstruction(p, i)
  {
    EmittedAt(p, i, 0);
    forall k | 0 <= k < |p| && Count(p[k]) == 2
      ensures PcAt(p, i) != PcAt(p, k) + 1
    {
      if k < i {
        PcIncreasing(p, k, i);
      } else if i < k {
        PcIncreasing(p, i, k);
      }
    }
  }
}
