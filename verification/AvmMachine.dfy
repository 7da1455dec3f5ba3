/** The AVM simulator: tagged memory, the ALU with its run-time type checks, and one step. */
module AvmMachine {
  import opened Wrappers
  import opened Numbers
  import opened Bits
  import opened FieldElement
  import Ints = BrilligArithmetic
  import B = Brillig
  import opened AvmCodec

  const MAX_MEMORY_SIZE: nat := 0xffff_fffe

  /** A memory value object: its class and its number. */
  datatype Cell = Cell(tag: TypeTag, value: int)

  /** Absent words are undefined. */
  type TaggedMemory = map<int, Cell>

  datatype AvmState = AvmState(pc: int, memory: TaggedMemory, callStack: seq<int>)

  /** Running; returned or reverted normally; halted by an AVM execution error; or crashed by any other exception. */
  datatype AvmOutcome =
    | Running(state: AvmState)
    | Returned(output: seq<Option<int>>)
    | Reverted
    | Halted
    | Crashed

  function Width(t: TypeTag): (w: nat)
    requires Integral(t)
  {
    match t case UINT8 => 8 case UINT16 => 16 case UINT32 => 32 case UINT64 => 64 case UINT128 => 128
  }

  function TagOf(code: int): (t: TypeTag)
  {
    if code == 1 then UINT8 else if code == 2 then UINT16 else if code == 3 then UINT32
    else if code == 4 then UINT64 else if code == 5 then UINT128 else if code == 6 then FIELD
    else if code == 0 then UNINITIALIZED else INVALID
  }

  /** What a memory value object of a class may hold. */
  predicate WellFormedCell(c: Cell)
  {
    if Integral(c.tag) then 0 <= c.value < Pow2(Width(c.tag)) else c.tag == FIELD && 0 <= c.value < P
  }

  // ---------------------------------------------------------------- the ALU

  datatype AluResult = Put(cell: Cell) | Halt | Crash

  /** The unsigned classes: masking after add and mul, one correction after sub, BigInt division. */
  function UintArithmetic(op: Op, x: int, y: int, m: nat): (r: Option<int>)
    requires m > 0
  {
    match op
    case ADD => Some((x + y) % m)
    case SUB => Some(if x - y >= 0 then x - y else x - y + m)
    case MUL => Some((x * y) % m)
    case _ => if y == 0 then None else Some(Ints.TruncDiv(x, y))
  }

  /** The field class; dividing by zero throws. */
  ghost function FieldArithmetic(op: Op, x: Fr, y: Fr): (r: Option<int>)
  {
    match op
    case ADD => Some(B.EvaluateField(B.BinaryFieldOp.Add, x, y))
    case SUB => Some(B.EvaluateField(B.BinaryFieldOp.Sub, x, y))
    case MUL => Some(B.EvaluateField(B.BinaryFieldOp.Mul, x, y))
    case _ => if y == 0 then None else Some(B.EvaluateField(B.BinaryFieldOp.Div, x, y))
  }

  function PutOrCrash(tag: TypeTag, v: Option<int>): (r: AluResult)
  {
    if v.Some? then Put(Cell(tag, v.value)) else Crash
  }

  /** ADD, SUB, MUL and DIV dispatch on the class of the left operand and never look at the instruction's tag;
      a right operand of the wrong kind throws. */
  ghost function Arithmetic(op: Op, a: Cell, b: Cell): (r: AluResult)
  {
    if Integral(a.tag) && Integral(b.tag) then
      PutOrCrash(a.tag, UintArithmetic(op, a.value, b.value, Pow2(Width(a.tag))))
    else if a.tag == FIELD && b.tag == FIELD && WellFormedCell(a) && WellFormedCell(b) then
      PutOrCrash(FIELD, FieldArithmetic(op, a.value, b.value))
    else Crash
  }

  function BitOpOf(op: Op): (r: BitOp)
  {
    if op == Op.AND then BitOp.And else if op == Op.OR then BitOp.Or else BitOp.Xor
  }

  /** The bitwise operations and shifts of the unsigned classes. */
  function UintBits(op: Op, x: nat, y: nat, m: nat): (r: nat)
    requires m > 0
  {
    if op == SHL then ShiftLeft(x, Pow2(y), m)
    else if op == SHR then ShiftRight(x, Pow2(y))
    else Bitwise(BitOpOf(op), x, y)
  }

  function ShiftLeft(x: nat, factor: nat, m: nat): (r: nat)
    requires m > 0
  {
    MulNonneg(x, factor);
    (x * factor) % m
  }

  function ShiftRight(x: nat, divisor: nat): (r: nat)
    requires divisor > 0
  {
    x / divisor
  }

  function Compare(op: Op, x: int, y: int): (r: int)
  {
    if (op != LT && x == y) || (op != EQ && x < y) then 1 else 0
  }

  predicate IsComparison(op: Op)
  {
    op.EQ? || op.LT? || op.LTE?
  }

  /** Comparisons and bitwise operations first check both operands against the instruction's tag. */
  function Checked(op: Op, inTag: TypeTag, a: Cell, b: Cell): (r: AluResult)
  {
    if a.tag != inTag || b.tag != inTag then Halt
    else if IsComparison(op) then
      if op != EQ && !Integral(inTag) then Halt else Put(Cell(inTag, Compare(op, a.value, b.value)))
    else if !Integral(inTag) || a.value < 0 || b.value < 0 then Crash
    else Put(Cell(inTag, UintBits(op, a.value, b.value, Pow2(Width(inTag)))))
  }

  predicate IsUnchecked(op: Op)
  {
    op.ADD? || op.SUB? || op.MUL? || op.DIV?
  }

  /** An operand that is undefined throws in an unchecked operation and fails the tag check otherwise. */
  ghost function Alu(op: Op, inTag: TypeTag, a: Option<Cell>, b: Option<Cell>): (r: AluResult)
  {
    if a.None? || b.None? then (if IsUnchecked(op) then Crash else Halt)
    else if IsUnchecked(op) then Arithmetic(op, a.value, b.value)
    else Checked(op, inTag, a.value, b.value)
  }

  // ---------------------------------------------------------------- instructions

  predicate InMemory(offset: int)
  {
    0 <= offset < MAX_MEMORY_SIZE
  }

  function Get(m: TaggedMemory, offset: int): (r: Option<Cell>)
  {
    if offset in m then Some(m[offset]) else None
  }

  /** Storing undefined leaves the word undefined. */
  function Set(m: TaggedMemory, offset: int, v: Option<Cell>): (r: TaggedMemory)
  {
    if v.Some? then m[offset := v.value] else m - {offset}
  }

  function Next(t: AvmState, memory: TaggedMemory): (r: AvmOutcome)
  {
    Running(t.(pc := t.pc + 1, memory := memory))
  }

  /** Truncation to an integral class. */
  function IntegralFromTag(v: int, tag: TypeTag): (c: Cell)
    requires Integral(tag)
  {
    Cell(tag, v % Pow2(Width(tag)))
  }

  /** Bit k of the indirect byte makes operand k a pointer, which must be a UINT32. */
  function Resolve(m: TaggedMemory, indirect: int, k: nat, offset: int): (r: Option<int>)
  {
    if indirect / Pow2(k) % 2 == 0 then Some(offset)
    else if offset in m && m[offset].tag == UINT32 then Some(m[offset].value)
    else None
  }

  function CopyCells(m: TaggedMemory, dst: int, values: seq<Fr>): (r: TaggedMemory)
    ensures forall a :: a in r <==> a in m || dst <= a < dst + |values|
    ensures forall a :: a in r ==> r[a] == if dst <= a < dst + |values| then Cell(FIELD, values[a - dst]) else m[a]
  {
    if values == [] then m
    else
      var last := |values| - 1;
      CopyCells(m, dst, values[..last])[dst + last := Cell(FIELD, values[last])]
  }

  ghost function ExecThree(op: Op, inTag: TypeTag, a: int, b: int, dst: int, t: AvmState): (r: AvmOutcome)
  {
    if !InMemory(a) || !InMemory(b) || !InMemory(dst) then Crashed
    else match Alu(op, inTag, Get(t.memory, a), Get(t.memory, b))
      case Put(cell) => Next(t, Set(t.memory, dst, Some(cell)))
      case Halt => Halted
      case Crash => Crashed
  }

  function ExecCast(tag: TypeTag, a: int, dst: int, t: AvmState): (r: AvmOutcome)
  {
    if !InMemory(a) || !InMemory(dst) || a !in t.memory then Crashed
    else if tag == FIELD then
      if t.memory[a].value < P then Next(t, Set(t.memory, dst, Some(Cell(FIELD, t.memory[a].value)))) else Crashed
    else if Integral(tag) then Next(t, Set(t.memory, dst, Some(IntegralFromTag(t.memory[a].value, tag))))
    else Crashed
  }

  function ExecMov(indirect: int, src: int, dst: int, t: AvmState): (r: AvmOutcome)
  {
    match (Resolve(t.memory, indirect, 0, src), Resolve(t.memory, indirect, 1, dst))
    case (Some(s), Some(d)) => if InMemory(s) && InMemory(d) then Next(t, Set(t.memory, d, Get(t.memory, s))) else Crashed
    case _ => Halted
  }

  function ExecReturn(offset: int, size: int, t: AvmState): (r: AvmOutcome)
  {
    if offset < 0 || size < 0 || offset >= MAX_MEMORY_SIZE || offset + size >= MAX_MEMORY_SIZE then Crashed
    else Returned(seq(size, k requires 0 <= k => if offset + k in t.memory then Some(t.memory[offset + k].value) else None))
  }

  function ExecCalldataCopy(calldata: seq<Fr>, offset: int, size: int, dst: int, t: AvmState): (r: AvmOutcome)
  {
    if offset < 0 || size < 0 || dst < 0 then Crashed
    else
      var from := if offset < |calldata| then offset else |calldata|;
      var to := if offset + size < |calldata| then offset + size else |calldata|;
      var values := if from <= to then calldata[from..to] else [];
      if dst >= MAX_MEMORY_SIZE || dst + |values| >= MAX_MEMORY_SIZE then Crashed
      else Next(t, CopyCells(t.memory, dst, values))
  }

  /** `instruction.execute` for the instructions of plain programs; the others have no meaning here. */
  ghost function Execute(calldata: seq<Fr>, i: Decoded, t: AvmState): (r: AvmOutcome)
  {
    var n := |i.args|;
    match FormatOf(i.opcode)
    case ThreeOperand =>
      if n == 5 then ExecThree(i.opcode, TagOf(i.args[1]), i.args[2], i.args[3], i.args[4], t) else Crashed
    case TwoOperand => if n == 4 && i.opcode == CAST then ExecCast(TagOf(i.args[1]), i.args[2], i.args[3], t) else Crashed
    case Constant =>
      if n != 4 || !InMemory(i.args[3]) then Crashed
      else if !Integral(TagOf(i.args[1])) then Halted
      else Next(t, Set(t.memory, i.args[3], Some(IntegralFromTag(i.args[2], TagOf(i.args[1])))))
    case Pair =>
      if n != 3 then Crashed
      else if i.opcode == MOV then ExecMov(i.args[0], i.args[1], i.args[2], t)
      else if i.opcode == JUMPI then
        if !InMemory(i.args[2]) || i.args[2] !in t.memory then Crashed
        else if t.memory[i.args[2]].value == 0 then Next(t, t.memory) else Running(t.(pc := i.args[1]))
      else if i.opcode == RETURN then ExecReturn(i.args[1], i.args[2], t)
      else if i.opcode == REVERT then Reverted
      else Crashed
    case Target =>
      if n != 1 then Crashed
      else if i.opcode == JUMP then Running(t.(pc := i.args[0]))
      else Running(t.(pc := i.args[0], callStack := t.callStack + [t.pc + 1]))
    case Bare =>
      if t.callStack == [] then Halted
      else
        var top := |t.callStack| - 1;
        Running(t.(pc := t.callStack[top], callStack := t.callStack[..top]))
    case Triple =>
      if n == 4 && i.opcode == CALLDATACOPY then ExecCalldataCopy(calldata, i.args[1], i.args[2], i.args[3], t) else Crashed
    case _ => Crashed
  }

  /** One turn of `executeInstructions`: a program counter past the end is an execution error. */
  ghost function Step(code: seq<Decoded>, calldata: seq<Fr>, t: AvmState): (r: AvmOutcome)
    requires 0 <= t.pc < |code|
  {
    match Execute(calldata, code[t.pc], t)
    case Running(t') => if 0 <= t'.pc < |code| then Running(t') else Halted
    case other => other
  }

  /** At most n steps, stopping at the first outcome that is not running. */
  ghost function Steps(code: seq<Decoded>, calldata: seq<Fr>, t: AvmState, n: nat): (r: AvmOutcome)
    requires 0 <= t.pc < |code|
    ensures r.Running? ==> 0 <= r.state.pc < |code|
    decreases n
  {
    if n == 0 then Running(t)
    else match Step(code, calldata, t)
      case Running(t') => Steps(code, calldata, t', n - 1)
      case other => other
  }
}
