/** Brillig opcodes, the auto-growing memory, and one step of the Brillig VM. */
module Brillig {
  import opened Numbers
  import opened FieldElement
  import Ints = BrilligArithmetic

  datatype BinaryFieldOp = Add | Sub | Mul | Div | Equals

  datatype ValueOrArray =
    | MemoryAddress(address: nat)
    | HeapArray(pointer: nat, size: nat)
    | HeapVector(vectorPointer: nat, sizeAddress: nat)

  datatype BlackBoxOp =
    | PedersenHash(inputs: nat, inputsSize: nat, output: nat)
    | OtherBlackBox

  datatype Opcode =
    | BinaryFieldOp(destination: nat, fieldOp: BinaryFieldOp, lhs: nat, rhs: nat)
    | BinaryIntOp(destination: nat, intOp: Ints.BinaryIntOp, bitSize: nat, lhs: nat, rhs: nat)
    | Cast(destination: nat, source: nat, bitSize: nat)
    | JumpIfNot(condition: nat, location: nat)
    | JumpIf(condition: nat, location: nat)
    | Jump(location: nat)
    | CalldataCopy(destination: nat, size: nat, offset: nat)
    | Call(location: nat)
    | Const(destination: nat, bitSize: nat, value: Fr)
    | Return
    | ForeignCall(name: string, destinations: seq<ValueOrArray>, inputs: seq<ValueOrArray>)
    | Mov(destination: nat, source: nat)
    | Load(destination: nat, sourcePointer: nat)
    | Store(destinationPointer: nat, source: nat)
    | BlackBox(blackBox: BlackBoxOp)
    | Trap
    | Stop(returnOffset: nat, returnSize: nat)

  type Program = seq<Opcode>

  // ---------------------------------------------------------------- memory

  /** What an address reads as: zero past the end. */
  function Read(inner: seq<Fr>, ptr: nat): (r: Fr)
  {
    if ptr < |inner| then inner[ptr] else 0
  }

  function Resized(inner: seq<Fr>, size: nat): (r: seq<Fr>)
    ensures |r| >= size && |r| >= |inner|
    ensures forall a: nat :: Read(r, a) == Read(inner, a)
  {
    if |inner| >= size then inner else inner + seq(size - |inner|, _ => 0)
  }

  function WriteSlice(inner: seq<Fr>, ptr: nat, values: seq<Fr>): (r: seq<Fr>)
    ensures forall a: nat :: Read(r, a) == if ptr <= a < ptr + |values| then values[a - ptr] else Read(inner, a)
  {
    var grown := Resized(inner, ptr + |values|);
    assert forall a: nat :: Read(grown, a) == Read(inner, a);
    grown[..ptr] + values + grown[ptr + |values|..]
  }

  function Write(inner: seq<Fr>, ptr: nat, value: Fr): (r: seq<Fr>)
    ensures forall a: nat :: Read(r, a) == if a == ptr then value else Read(inner, a)
  {
    WriteSlice(inner, ptr, [value])
  }

  /** A vector that grows with zeros when written past its end. */
  class Memory {
    var inner: seq<Fr>

    constructor ()
      ensures inner == []
    {
      inner := [];
    }

    method ReadAt(ptr: nat) returns (v: Fr)
      ensures v == Read(inner, ptr)
    {
      v := if ptr < |inner| then inner[ptr] else 0;
    }

    method ResizeToFit(size: nat)
      modifies this
      ensures inner == Resized(old(inner), size)
    {
      var newSize := if |inner| > size then |inner| else size;
      inner := inner + seq(newSize - |inner|, _ => 0);
    }

    /** Exactly one address changes, however far past the end it lies. */
    method WriteAt(ptr: nat, value: Fr)
      modifies this
      ensures inner == Write(old(inner), ptr, value)
      ensures forall a: nat :: Read(inner, a) == if a == ptr then value else old(Read(inner, a))
    {
      ResizeToFit(ptr + 1);
      inner := inner[ptr := value];
    }

    method WriteSliceAt(ptr: nat, values: seq<Fr>)
      modifies this
      ensures inner == WriteSlice(old(inner), ptr, values)
      ensures forall a: nat :: Read(inner, a) == if ptr <= a < ptr + |values| then values[a - ptr] else old(Read(inner, a))
    {
      ResizeToFit(ptr + |values|);
      inner := inner[..ptr] + values + inner[ptr + |values|..];
    }
  }

  // ---------------------------------------------------------------- field arithmetic

  ghost predicate Invertible(b: Fr)
  {
    exists x: Fr :: (b * x) % P == 1
  }

  /** The inverse modulo p where there is one, and zero otherwise. */
  ghost function Inverse(b: Fr): (r: Fr)
    ensures Invertible(b) ==> (b * r) % P == 1
  {
    if Invertible(b) then var x: Fr :| (b * x) % P == 1; x else 0
  }

  ghost function EvaluateField(op: BinaryFieldOp, a: Fr, b: Fr): (r: Fr)
  {
    match op
    case Add => (a + b) % P
    case Sub => if a >= b then a - b else a - b + P
    case Mul => (a * b) % P
    case Div => (a * Inverse(b)) % P
    case Equals => if a == b then 1 else 0
  }

  // ---------------------------------------------------------------- the VM

  datatype Vm = Vm(pc: nat, memory: seq<Fr>, callStack: seq<nat>)

  /** After a step: still running, finished, failed, or stopped by a panic of the host or a call outside the VM. */
  datatype Outcome =
    | Running(vm: Vm)
    | Finished(offset: nat, size: nat, memory: seq<Fr>)
    | Failure
    | Panicked
    | Outside

  /** `set_program_counter`: running off the end finishes with no return data. */
  function Goto(p: Program, s: Vm, pc: nat): (r: Outcome)
  {
    if pc < |p| then Running(s.(pc := pc)) else Finished(0, 0, s.memory)
  }

  function Advance(p: Program, s: Vm, memory: seq<Fr>): (r: Outcome)
  {
    Goto(p, s.(memory := memory), s.pc + 1)
  }

  /** `process_opcode`. Pointers above 64 bits panic; foreign calls and black boxes leave the VM. */
  ghost function Step(p: Program, calldata: seq<Fr>, s: Vm): (r: Outcome)
    requires s.pc < |p|
  {
    var mem := s.memory;
    match p[s.pc]
    case BinaryFieldOp(dst, op, lhs, rhs) =>
      Advance(p, s, Write(mem, dst, EvaluateField(op, Read(mem, lhs), Read(mem, rhs))))
    case BinaryIntOp(dst, op, bitSize, lhs, rhs) =>
      (match Ints.Evaluate(op, Read(mem, lhs), Read(mem, rhs), bitSize)
       case Value(v) => Advance(p, s, Write(mem, dst, v % P))
       case DivisionByZero => Failure
       case Panic => Panicked)
    case Cast(dst, source, bitSize) => Advance(p, s, Write(mem, dst, Read(mem, source) % Pow2(bitSize) % P))
    case JumpIfNot(cond, location) => Goto(p, s, if Read(mem, cond) == 0 then location else s.pc + 1)
    case JumpIf(cond, location) => Goto(p, s, if Read(mem, cond) != 0 then location else s.pc + 1)
    case Jump(location) => Goto(p, s, location)
    case CalldataCopy(dst, size, offset) =>
      if offset + size <= |calldata| then Advance(p, s, WriteSlice(mem, dst, calldata[offset..offset + size]))
      else Panicked
    case Call(location) => Goto(p, s.(callStack := s.callStack + [s.pc]), location)
    case Const(dst, _, value) => Advance(p, s, Write(mem, dst, value))
    case Return =>
      if s.callStack == [] then Failure
      else
        var top := |s.callStack| - 1;
        Goto(p, s.(callStack := s.callStack[..top]), s.callStack[top] + 1)
    case ForeignCall(_, _, _) => Outside
    case Mov(dst, source) => Advance(p, s, Write(mem, dst, Read(mem, source)))
    case Load(dst, ptr) =>
      if Read(mem, ptr) < Pow2(64) then Advance(p, s, Write(mem, dst, Read(mem, Read(mem, ptr)))) else Panicked
    case Store(ptr, source) =>
      if Read(mem, ptr) < Pow2(64) then Advance(p, s, Write(mem, Read(mem, ptr), Read(mem, source))) else Panicked
    case BlackBox(_) => Outside
    case Trap => Failure
    case Stop(offset, size) => Finished(offset, size, mem)
  }
}
