/** AVM instructions: the transpiler's byte encoding and the simulator's decoder. */
module AvmCodec {
  import opened Wrappers
  import opened Numbers

  datatype TypeTag = UNINITIALIZED | UINT8 | UINT16 | UINT32 | UINT64 | UINT128 | FIELD | INVALID

  /** The unsigned classes. */
  predicate Integral(t: TypeTag)
  {
    t.UINT8? || t.UINT16? || t.UINT32? || t.UINT64? || t.UINT128?
  }

  function TagCode(t: TypeTag): (c: byte)
  {
    match t
    case UNINITIALIZED => 0
    case UINT8 => 1
    case UINT16 => 2
    case UINT32 => 3
    case UINT64 => 4
    case UINT128 => 5
    case FIELD => 6
    case INVALID => 7
  }

  /** The opcodes the simulator implements, which include all that the transpiler emits. */
  datatype Op =
    | ADD | SUB | MUL | DIV | EQ | LT | LTE | AND | OR | XOR | NOT | SHL | SHR | CAST
    | ADDRESS | STORAGEADDRESS | ORIGIN | SENDER | PORTAL | FEEPERL1GAS | FEEPERL2GAS | FEEPERDAGAS
    | CHAINID | VERSION | BLOCKNUMBER | TIMESTAMP | CALLDATACOPY
    | JUMP | JUMPI | INTERNALCALL | INTERNALRETURN | SET | MOV | CMOV
    | SLOAD | SSTORE | EMITNOTEHASH | EMITNULLIFIER | EMITUNENCRYPTEDLOG | SENDL2TOL1MSG | CALL | STATICCALL
    | RETURN | REVERT | KECCAK | POSEIDON | SHA256 | PEDERSEN

  /** Position in the opcode enumeration, which is the same in the transpiler and in the simulator. */
  function OpCode(op: Op): (c: byte)
  {
    match op
    case ADD => 0 case SUB => 1 case MUL => 2 case DIV => 3 case EQ => 4 case LT => 5 case LTE => 6
    case AND => 7 case OR => 8 case XOR => 9 case NOT => 10 case SHL => 11 case SHR => 12 case CAST => 13
    case ADDRESS => 14 case STORAGEADDRESS => 15 case ORIGIN => 16 case SENDER => 17 case PORTAL => 18
    case FEEPERL1GAS => 19 case FEEPERL2GAS => 20 case FEEPERDAGAS => 21
    case CHAINID => 23 case VERSION => 24 case BLOCKNUMBER => 25 case TIMESTAMP => 26
    case CALLDATACOPY => 31
    case JUMP => 35 case JUMPI => 36 case INTERNALCALL => 37 case INTERNALRETURN => 38 case SET => 39 case MOV => 40
    case CMOV => 41 case SLOAD => 42 case SSTORE => 43 case EMITNOTEHASH => 45 case EMITNULLIFIER => 47
    case EMITUNENCRYPTEDLOG => 50 case SENDL2TOL1MSG => 51 case CALL => 52 case STATICCALL => 53
    case RETURN => 55 case REVERT => 56
    case KECCAK => 57 case POSEIDON => 58 case SHA256 => 59 case PEDERSEN => 60
  }

  /** `instructionSet.get(opcode)`. */
  function OpOf(c: byte): (r: Option<Op>)
  {
    if c == 0 then Some(ADD) else if c == 1 then Some(SUB) else if c == 2 then Some(MUL)
    else if c == 3 then Some(DIV) else if c == 4 then Some(EQ) else if c == 5 then Some(LT)
    else if c == 6 then Some(LTE) else if c == 7 then Some(AND) else if c == 8 then Some(OR)
    else if c == 9 then Some(XOR) else if c == 10 then Some(NOT) else if c == 11 then Some(SHL) else if c == 12 then Some(SHR)
    else if c == 13 then Some(CAST) else if c == 14 then Some(ADDRESS) else if c == 15 then Some(STORAGEADDRESS)
    else if c == 16 then Some(ORIGIN) else if c == 17 then Some(SENDER) else if c == 18 then Some(PORTAL)
    else if c == 19 then Some(FEEPERL1GAS) else if c == 20 then Some(FEEPERL2GAS) else if c == 21 then Some(FEEPERDAGAS)
    else if c == 23 then Some(CHAINID) else if c == 24 then Some(VERSION) else if c == 25 then Some(BLOCKNUMBER)
    else if c == 26 then Some(TIMESTAMP) else if c == 31 then Some(CALLDATACOPY) else if c == 35 then Some(JUMP)
    else if c == 36 then Some(JUMPI) else if c == 37 then Some(INTERNALCALL) else if c == 38 then Some(INTERNALRETURN)
    else if c == 39 then Some(SET) else if c == 40 then Some(MOV) else if c == 41 then Some(CMOV)
    else if c == 42 then Some(SLOAD) else if c == 43 then Some(SSTORE) else if c == 45 then Some(EMITNOTEHASH)
    else if c == 47 then Some(EMITNULLIFIER) else if c == 50 then Some(EMITUNENCRYPTEDLOG)
    else if c == 51 then Some(SENDL2TOL1MSG) else if c == 52 then Some(CALL) else if c == 53 then Some(STATICCALL)
    else if c == 55 then Some(RETURN)
    else if c == 56 then Some(REVERT) else if c == 57 then Some(KECCAK) else if c == 58 then Some(POSEIDON)
    else if c == 59 then Some(SHA256) else if c == 60 then Some(PEDERSEN) else None
  }

  lemma OpCodeRoundTrip(op: Op)
    ensures OpOf(OpCode(op)) == Some(op)
  {
  }

  // ---------------------------------------------------------------- encoding

  datatype OperandType = U8 | U16 | U32 | U64 | U128

  function Size(t: OperandType): (n: nat)
    ensures 1 <= n <= 16
  {
    match t case U8 => 1 case U16 => 2 case U32 => 4 case U64 => 8 case U128 => 16
  }

  /** An operand of a given width; the value of a Rust operand always fits. */
  datatype Operand = Operand(typ: OperandType, value: nat)

  predicate Fits(o: Operand)
  {
    o.value < Pow2(8 * Size(o.typ))
  }

  datatype AvmInstruction = AvmInstruction(opcode: Op, indirect: Option<byte>, tag: Option<TypeTag>, operands: seq<Operand>)

  function Header(i: AvmInstruction): (f: seq<Operand>)
  {
    (if i.indirect.Some? then [Operand(U8, i.indirect.value)] else []) +
    (if i.tag.Some? then [Operand(U8, TagCode(i.tag.value))] else [])
  }

  /** Everything after the opcode byte, in order: indirect flag, tag, operands. */
  function Fields(i: AvmInstruction): (f: seq<Operand>)
  {
    Header(i) + i.operands
  }

  function FieldBytes(f: seq<Operand>): (r: seq<byte>)
  {
    if f == [] then [] else ToBE(f[0].value, Size(f[0].typ)) + FieldBytes(f[1..])
  }

  function InstructionBytes(i: AvmInstruction): (r: seq<byte>)
  {
    [OpCode(i.opcode)] + FieldBytes(Fields(i))
  }

  function ProgramBytes(code: seq<AvmInstruction>): (r: seq<byte>)
  {
    if code == [] then [] else InstructionBytes(code[0]) + ProgramBytes(code[1..])
  }

  lemma {:induction false} FieldBytesConcat(f: seq<Operand>, g: seq<Operand>)
    ensures FieldBytes(f + g) == FieldBytes(f) + FieldBytes(g)
  {
    if f == [] {
      assert f + g == g;
    } else {
      assert (f + g)[1..] == f[1..] + g;
      FieldBytesConcat(f[1..], g);
    }
  }

  /** The operand loop of `to_bytes`. */
  method OperandBytes(operands: seq<Operand>) returns (bytes: seq<byte>)
    ensures bytes == FieldBytes(operands)
  {
    bytes := [];
    var k := 0;
    while k < |operands|
      invariant 0 <= k <= |operands|
      invariant bytes == FieldBytes(operands[..k])
    {
      FieldBytesSnoc(operands, k);
      bytes := bytes + ToBE(operands[k].value, Size(operands[k].typ));
      k := k + 1;
    }
    assert operands[..k] == operands;
  }

  lemma FieldBytesSnoc(f: seq<Operand>, k: nat)
    requires k < |f|
    ensures FieldBytes(f[..k + 1]) == FieldBytes(f[..k]) + ToBE(f[k].value, Size(f[k].typ))
  {
    FieldBytesConcat(f[..k], [f[k]]);
    assert f[..k] + [f[k]] == f[..k + 1];
    assert FieldBytes([f[k]]) == ToBE(f[k].value, Size(f[k].typ)) + FieldBytes([]);
  }

  /** `to_bytes`. */
  method ToBytes(i: AvmInstruction) returns (bytes: seq<byte>)
    ensures bytes == InstructionBytes(i)
  {
    bytes := [];
    if i.indirect.Some? {
      bytes := bytes + [i.indirect.value];
    }
    if i.tag.Some? {
      bytes := bytes + [TagCode(i.tag.value)];
    }
    HeaderBytes(i);
    FieldBytesConcat(Header(i), i.operands);
    var rest := OperandBytes(i.operands);
    bytes := [OpCode(i.opcode)] + (bytes + rest);
  }

  lemma HeaderBytes(i: AvmInstruction)
    ensures FieldBytes(Header(i)) ==
      (if i.indirect.Some? then [i.indirect.value] else []) + (if i.tag.Some? then [TagCode(i.tag.value)] else [])
  {
    FieldBytesConcat(
      if i.indirect.Some? then [Operand(U8, i.indirect.value)] else [],
      if i.tag.Some? then [Operand(U8, TagCode(i.tag.value))] else []);
    if i.indirect.Some? {
      OneByteField(i.indirect.value);
    }
    if i.tag.Some? {
      OneByteField(TagCode(i.tag.value));
    }
  }

  lemma OneByteField(b: byte)
    ensures FieldBytes([Operand(U8, b)]) == [b]
  {
    assert ToBE(b, 1) == ToBE(0, 0) + [b];
  }

  // ---------------------------------------------------------------- the simulator's decoder

  /** An instruction object of the simulator: its constructor arguments in order. */
  datatype Decoded = Decoded(opcode: Op, args: seq<int>)

  /** The instruction classes of the simulator by what they hold after the opcode. */
  datatype Format = ThreeOperand | TwoOperand | Septuple | Quadruple | Triple | Pair | Single | Target | Bare | Constant

  function FormatOf(op: Op): (f: Format)
  {
    match op
    case ADD => ThreeOperand case SUB => ThreeOperand case MUL => ThreeOperand case DIV => ThreeOperand
    case EQ => ThreeOperand case LT => ThreeOperand case LTE => ThreeOperand
    case AND => ThreeOperand case OR => ThreeOperand case XOR => ThreeOperand
    case SHL => ThreeOperand case SHR => ThreeOperand
    case CAST => TwoOperand case NOT => TwoOperand
    case CALL => Septuple case STATICCALL => Septuple
    case CMOV => Quadruple
    case CALLDATACOPY => Triple case KECCAK => Triple case POSEIDON => Triple case SHA256 => Triple case PEDERSEN => Triple
    case JUMPI => Pair case MOV => Pair case RETURN => Pair case REVERT => Pair
    case SLOAD => Pair case SSTORE => Pair case EMITUNENCRYPTEDLOG => Pair case SENDL2TOL1MSG => Pair
    case EMITNOTEHASH => Single case EMITNULLIFIER => Single
    case ADDRESS => Single case STORAGEADDRESS => Single case ORIGIN => Single case SENDER => Single
    case PORTAL => Single case FEEPERL1GAS => Single case FEEPERL2GAS => Single case FEEPERDAGAS => Single
    case CHAINID => Single case VERSION => Single case BLOCKNUMBER => Single case TIMESTAMP => Single
    case JUMP => Target case INTERNALCALL => Target
    case INTERNALRETURN => Bare
    case SET => Constant
  }

  predicate HasIndirect(f: Format)
  {
    !f.Target? && !f.Bare?
  }

  predicate HasTag(f: Format)
  {
    f.ThreeOperand? || f.TwoOperand? || f.Constant?
  }

  /** `wireFormat` of an instruction class, without the opcode; SET has its own deserializer. */
  function WireFormat(f: Format): (r: seq<OperandType>)
    requires f != Constant
  {
    match f
    case ThreeOperand => [U8, U8, U32, U32, U32]
    case TwoOperand => [U8, U8, U32, U32]
    case Septuple => [U8, U32, U32, U32, U32, U32, U32, U32]
    case Quadruple => [U8, U32, U32, U32, U32]
    case Triple => [U8, U32, U32, U32]
    case Pair => [U8, U32, U32]
    case Single => [U8, U32]
    case Target => [U32]
    case Bare => []
  }

  /** `getOperandTypeFromInTag`. */
  function SetType(tagCode: int): (r: Option<OperandType>)
  {
    if tagCode == 1 then Some(U8) else if tagCode == 2 then Some(U16) else if tagCode == 3 then Some(U32)
    else if tagCode == 4 then Some(U64) else if tagCode == 5 then Some(U128) else None
  }

  /** How a reader turns bytes into a number: 64-bit operands are read as signed, all others as unsigned. */
  function ReadBack(t: OperandType, value: nat): (r: int)
  {
    if t == U64 && value >= Pow2(63) then value - Pow2(64) else value
  }

  /** `deserialize`: reads the given operand types off the front, with the cursor's assertion that no single
      advance is as long as the whole buffer. */
  function ReadFields(format: seq<OperandType>, bytes: seq<byte>, total: nat): (r: Result<(seq<int>, seq<byte>)>)
    ensures r.Ok? ==> |r.value.0| == |format|
  {
    if format == [] then Ok(([], bytes))
    else
      var n := Size(format[0]);
      if |bytes| < n then Err("ERR_OUT_OF_RANGE")
      else if n >= total then Err("AssertionError")
      else match ReadFields(format[1..], bytes[n..], total)
        case Err(e) => Err(e)
        case Ok((args, rest)) => Ok(([ReadBack(format[0], FromBE(bytes[..n]))] + args, rest))
  }

  function ReadInstruction(bytes: seq<byte>, total: nat): (r: Result<(Decoded, seq<byte>)>)
    requires bytes != []
    ensures r.Ok? ==> |r.value.1| < |bytes| || total == 0
  {
    match OpOf(bytes[0])
    case None => Err("Opcode not implemented")
    case Some(op) =>
      if 1 >= total then Err("AssertionError")
      else if FormatOf(op) == Constant then ReadSet(bytes[1..], total)
      else ReadPlain(op, FormatOf(op), bytes[1..], total)
  }

  function ReadPlain(op: Op, format: Format, bytes: seq<byte>, total: nat): (r: Result<(Decoded, seq<byte>)>)
    requires format != Constant
    ensures r.Ok? ==> |r.value.1| <= |bytes|
  {
    match ReadFields(WireFormat(format), bytes, total)
    case Err(e) => Err(e)
    case Ok((args, rest)) =>
      ReadFieldsShrinks(WireFormat(format), bytes, total);
      Ok((Decoded(op, args), rest))
  }

  /** `Set.deserialize`: the tag decides the width of the constant. */
  function ReadSet(bytes: seq<byte>, total: nat): (r: Result<(Decoded, seq<byte>)>)
    ensures r.Ok? ==> |r.value.1| <= |bytes|
  {
    match ReadFields([U8, U8], bytes, total)
    case Err(e) => Err(e)
    case Ok((before, rest)) =>
      (match SetType(before[1])
       case None => Err("Invalid tag for SET")
       case Some(t) =>
         (match ReadFields([t, U32], rest, total)
          case Err(e) => Err(e)
          case Ok((after, rest')) =>
            ReadFieldsShrinks([U8, U8], bytes, total);
            ReadFieldsShrinks([t, U32], rest, total);
            Ok((Decoded(SET, before + after), rest'))))
  }

  lemma {:induction false} ReadFieldsShrinks(format: seq<OperandType>, bytes: seq<byte>, total: nat)
    ensures var r := ReadFields(format, bytes, total);
      r.Ok? ==> |r.value.1| <= |bytes|
    decreases |format|
  {
    if format != [] && |bytes| >= Size(format[0]) {
      ReadFieldsShrinks(format[1..], bytes[Size(format[0])..], total);
    }
  }

  function DecodeAll(bytes: seq<byte>, total: nat): (r: Result<seq<Decoded>>)
    requires total > 0
    decreases |bytes|
  {
    if bytes == [] then Ok([])
    else match ReadInstruction(bytes, total)
      case Err(e) => Err(e)
      case Ok((i, rest)) =>
        Prepended([i], DecodeAll(rest, total))
  }

  /** A decoding result with already decoded instructions in front. */
  function Prepended(done: seq<Decoded>, r: Result<seq<Decoded>>): (r': Result<seq<Decoded>>)
  {
    match r
    case Err(e) => Err(e)
    case Ok(more) => Ok(done + more)
  }

  lemma PrependStep(done: seq<Decoded>, i: Decoded, r: Result<seq<Decoded>>)
    ensures Prepended(done, Prepended([i], r)) == Prepended(done + [i], r)
  {
    if r.Ok? {
      assert done + ([i] + r.value) == (done + [i]) + r.value;
    }
  }

  lemma DecodeStep(bytes: seq<byte>, total: nat, done: seq<Decoded>)
    requires bytes != [] && total > 0 && ReadInstruction(bytes, total).Ok?
    ensures var (i, rest) := ReadInstruction(bytes, total).value;
      Prepended(done, DecodeAll(bytes, total)) == Prepended(done + [i], DecodeAll(rest, total))
  {
    var (i, rest) := ReadInstruction(bytes, total).value;
    PrependStep(done, i, DecodeAll(rest, total));
  }

  /** One turn of the decoding loop, for a position inside the buffer. */
  lemma DecodeTurn(bytecode: seq<byte>, position: nat, done: seq<Decoded>)
    requires position < |bytecode|
    ensures var next := ReadInstruction(bytecode[position..], |bytecode|);
      if next.Err? then DecodeAll(bytecode[position..], |bytecode|) == Err(next.error)
      else
        var (i, rest) := next.value;
        && |rest| < |bytecode| - position && bytecode[|bytecode| - |rest|..] == rest
        && Prepended(done, DecodeAll(bytecode[position..], |bytecode|)) == Prepended(done + [i], DecodeAll(rest, |bytecode|))
  {
    var bytes, total := bytecode[position..], |bytecode|;
    var next := ReadInstruction(bytes, total);
    if next.Ok? {
      ReadInstructionSuffix(bytes, total);
      DecodeStep(bytes, total, done);
      SuffixTransitive(next.value.1, bytes, bytecode);
    }
  }

  /** `decodeFromBytecode`. */
  method DecodeFromBytecode(bytecode: seq<byte>) returns (r: Result<seq<Decoded>>)
    ensures bytecode == [] ==> r == Ok([])
    ensures bytecode != [] ==> r == DecodeAll(bytecode, |bytecode|)
  {
    if bytecode == [] {
      return Ok([]);
    }
    var instructions, position := [], 0;
    ghost var whole := DecodeAll(bytecode, |bytecode|);
    assert bytecode[0..] == bytecode && (whole.Ok? ==> [] + whole.value == whole.value);
    while position != |bytecode|
      invariant 0 <= position <= |bytecode|
      invariant whole == Prepended(instructions, DecodeAll(bytecode[position..], |bytecode|))
      decreases |bytecode| - position
    {
      var next := ReadInstruction(bytecode[position..], |bytecode|);
      DecodeTurn(bytecode, position, instructions);
      if next.Err? {
        return Err(next.error);
      }
      instructions := instructions + [next.value.0];
      position := |bytecode| - |next.value.1|;
    }
    assert bytecode[position..] == [] && instructions + [] == instructions;
    r := Ok(instructions);
  }

  lemma {:induction false} ReadFieldsSuffix(format: seq<OperandType>, bytes: seq<byte>, total: nat)
    ensures var r := ReadFields(format, bytes, total);
      r.Ok? ==> IsSuffix(r.value.1, bytes)
    decreases |format|
  {
    if format != [] && |bytes| >= Size(format[0]) {
      var n := Size(format[0]);
      ReadFieldsSuffix(format[1..], bytes[n..], total);
      var r := ReadFields(format[1..], bytes[n..], total);
      if r.Ok? {
        SuffixTransitive(r.value.1, bytes[n..], bytes);
      }
    }
  }

  /** What is left is the end of what was there. */
  predicate IsSuffix(rest: seq<byte>, bytes: seq<byte>)
  {
    |rest| <= |bytes| && rest == bytes[|bytes| - |rest|..]
  }

  lemma SuffixTransitive(a: seq<byte>, b: seq<byte>, c: seq<byte>)
    requires IsSuffix(a, b) && IsSuffix(b, c)
    ensures IsSuffix(a, c)
  {
  }

  lemma ReadSetSuffix(bytes: seq<byte>, total: nat)
    ensures ReadSet(bytes, total).Ok? ==> IsSuffix(ReadSet(bytes, total).value.1, bytes)
  {
    var r := ReadFields([U8, U8], bytes, total);
    ReadFieldsSuffix([U8, U8], bytes, total);
    if r.Ok? && SetType(r.value.0[1]).Some? {
      var format := [SetType(r.value.0[1]).value, U32];
      var r' := ReadFields(format, r.value.1, total);
      ReadFieldsSuffix(format, r.value.1, total);
      if r'.Ok? {
        SuffixTransitive(r'.value.1, r.value.1, bytes);
      }
    }
  }

  lemma ReadPlainSuffix(op: Op, format: Format, bytes: seq<byte>, total: nat)
    requires format != Constant
    ensures var r := ReadPlain(op, format, bytes, total);
      r.Ok? ==> IsSuffix(r.value.1, bytes)
  {
    ReadFieldsSuffix(WireFormat(format), bytes, total);
  }

  lemma ReadInstructionSuffix(bytes: seq<byte>, total: nat)
    requires bytes != []
    ensures var r := ReadInstruction(bytes, total);
      r.Ok? ==> |r.value.1| < |bytes| && IsSuffix(r.value.1, bytes)
  {
    var r := ReadInstruction(bytes, total);
    if r.Ok? {
      var op := OpOf(bytes[0]).value;
      if FormatOf(op) == Constant {
        ReadSetSuffix(bytes[1..], total);
      } else {
        ReadPlainSuffix(op, FormatOf(op), bytes[1..], total);
      }
      SuffixTransitive(r.value.1, bytes[1..], bytes);
    }
  }

  // ---------------------------------------------------------------- the decoder undoes the encoder

  function Types(f: seq<Operand>): (r: seq<OperandType>)
    ensures |r| == |f| && forall k :: 0 <= k < |f| ==> r[k] == f[k].typ
  {
    if f == [] then [] else [f[0].typ] + Types(f[1..])
  }

  function ReadBacks(f: seq<Operand>): (r: seq<int>)
    ensures |r| == |f| && forall k :: 0 <= k < |f| ==> r[k] == ReadBack(f[k].typ, f[k].value)
  {
    if f == [] then [] else [ReadBack(f[0].typ, f[0].value)] + ReadBacks(f[1..])
  }

  predicate AllFit(f: seq<Operand>)
  {
    forall k :: 0 <= k < |f| ==> Fits(f[k])
  }

  /** The shape the simulator expects of a format, with the tag deciding the constant of SET. */
  predicate Shaped(i: AvmInstruction, format: Format)
  {
    && (i.indirect.Some? <==> HasIndirect(format))
    && (i.tag.Some? <==> HasTag(format))
    && AllFit(Fields(i))
    && if format == Constant
       then SetType(TagCode(i.tag.value)).Some? && Types(Fields(i)) == [U8, U8, SetType(TagCode(i.tag.value)).value, U32]
       else Types(Fields(i)) == WireFormat(format)
  }

  predicate WellShaped(i: AvmInstruction)
  {
    Shaped(i, FormatOf(i.opcode))
  }

  /** The instruction object the simulator should see. */
  function Denote(i: AvmInstruction): (r: Decoded)
  {
    Decoded(i.opcode, ReadBacks(Fields(i)))
  }

  function DenoteAll(code: seq<AvmInstruction>): (r: seq<Decoded>)
    ensures |r| == |code| && forall k :: 0 <= k < |r| ==> r[k] == Denote(code[k])
  {
    if code == [] then [] else [Denote(code[0])] + DenoteAll(code[1..])
  }

  lemma FrontOf(a: seq<byte>, more: seq<byte>, rest: seq<byte>)
    ensures |a + more + rest| >= |a| && (a + more + rest)[..|a|] == a && (a + more + rest)[|a|..] == more + rest
  {
  }

  /** One operand off the front. */
  lemma ReadFirst(o: Operand, format: seq<OperandType>, more: seq<byte>, rest: seq<byte>, total: nat, args: seq<int>)
    requires Fits(o) && Size(o.typ) < total && ReadFields(format, more + rest, total) == Ok((args, rest))
    ensures ReadFields([o.typ] + format, ToBE(o.value, Size(o.typ)) + more + rest, total)
      == Ok(([ReadBack(o.typ, o.value)] + args, rest))
  {
    var n, front := Size(o.typ), ToBE(o.value, Size(o.typ));
    FrontOf(front, more, rest);
    assert FromBE(front) == o.value by {
      BigEndianRoundTrip(o.value, n);
    }
    assert ([o.typ] + format)[1..] == format;
  }

  lemma {:induction false} ReadEncodedFields(f: seq<Operand>, rest: seq<byte>, total: nat)
    requires AllFit(f) && total > |FieldBytes(f)|
    ensures ReadFields(Types(f), FieldBytes(f) + rest, total) == Ok((ReadBacks(f), rest))
    decreases |f|
  {
    if f == [] {
      assert FieldBytes(f) + rest == rest;
    } else {
      ReadEncodedFields(f[1..], rest, total);
      ReadFirst(f[0], Types(f[1..]), FieldBytes(f[1..]), rest, total, ReadBacks(f[1..]));
    }
  }

  lemma ReadSetParts(bytes: seq<byte>, middle: seq<byte>, rest: seq<byte>, total: nat, before: seq<int>, t: OperandType, after: seq<int>)
    requires ReadFields([U8, U8], bytes, total) == Ok((before, middle)) && SetType(before[1]) == Some(t)
    requires ReadFields([t, U32], middle, total) == Ok((after, rest))
    ensures ReadSet(bytes, total) == Ok((Decoded(SET, before + after), rest))
  {
  }

  lemma Associative(a: seq<byte>, b: seq<byte>, c: seq<byte>)
    ensures (a + b) + c == a + (b + c)
  {
  }

  lemma ReadBacksConcat(a: seq<Operand>, b: seq<Operand>)
    ensures ReadBacks(a + b) == ReadBacks(a) + ReadBacks(b)
  {
  }

  lemma ReadEncodedSet(i: AvmInstruction, rest: seq<byte>, total: nat)
    requires i.opcode == SET && Shaped(i, Constant) && total > |FieldBytes(Fields(i))|
    ensures ReadSet(FieldBytes(Fields(i)) + rest, total) == Ok((Denote(i), rest))
  {
    var f := Fields(i);
    SetHalves(i);
    var a, b, t := f[..2], f[2..], SetType(TagCode(i.tag.value)).value;
    assert f == a + b;
    ReadBacksConcat(a, b);
    FieldBytesConcat(a, b);
    Associative(FieldBytes(a), FieldBytes(b), rest);
    ReadEncodedFields(a, FieldBytes(b) + rest, total);
    ReadEncodedFields(b, rest, total);
    ReadSetParts(FieldBytes(f) + rest, FieldBytes(b) + rest, rest, total, ReadBacks(a), t, ReadBacks(b));
  }

  lemma SetHalves(i: AvmInstruction)
    requires Shaped(i, Constant)
    ensures var f, t := Fields(i), SetType(TagCode(i.tag.value)).value;
      && |f| == 4 && AllFit(f[..2]) && AllFit(f[2..])
      && Types(f[..2]) == [U8, U8] && Types(f[2..]) == [t, U32] && ReadBacks(f[..2])[1] == TagCode(i.tag.value)
  {
    var f, types := Fields(i), Types(Fields(i));
    assert |f| == |types| == 4;
    assert f[0].typ == types[0] && f[1].typ == types[1] && f[2].typ == types[2] && f[3].typ == types[3];
    assert f[1] == Operand(U8, TagCode(i.tag.value));
  }

  lemma ReadEncodedPlain(i: AvmInstruction, format: Format, rest: seq<byte>, total: nat)
    requires format != Constant && Shaped(i, format) && total > |FieldBytes(Fields(i))|
    ensures ReadPlain(i.opcode, format, FieldBytes(Fields(i)) + rest, total) == Ok((Denote(i), rest))
  {
    ReadEncodedFields(Fields(i), rest, total);
  }

  lemma ReadEncoded(i: AvmInstruction, rest: seq<byte>, total: nat)
    requires WellShaped(i) && total >= |InstructionBytes(i)| && total >= 2
    ensures ReadInstruction(InstructionBytes(i) + rest, total) == Ok((Denote(i), rest))
  {
    hide FieldBytes, Denote;
    OpCodeRoundTrip(i.opcode);
    var bytes := InstructionBytes(i) + rest;
    assert bytes[1..] == FieldBytes(Fields(i)) + rest;
    if FormatOf(i.opcode) == Constant {
      ReadEncodedSet(i, rest, total);
    } else {
      ReadEncodedPlain(i, FormatOf(i.opcode), rest, total);
    }
  }

  lemma {:induction false} DecodeEncoded(code: seq<AvmInstruction>, total: nat)
    requires forall k :: 0 <= k < |code| ==> WellShaped(code[k])
    requires total >= 2 && total >= |ProgramBytes(code)|
    ensures DecodeAll(ProgramBytes(code), total) == Ok(DenoteAll(code))
    decreases |code|
  {
    if code != [] {
      ReadEncoded(code[0], ProgramBytes(code[1..]), total);
      DecodeEncoded(code[1..], total);
    }
  }

  /** The simulator decodes a non-empty emitted program to exactly the emitted instructions,
      except when the whole bytecode is a single INTERNALRETURN byte, which it rejects. */
  lemma BytecodeDecodes(code: seq<AvmInstruction>)
    requires code != [] && forall k :: 0 <= k < |code| ==> WellShaped(code[k])
    ensures var bytes := ProgramBytes(code);
      && bytes != []
      && (DecodeAll(bytes, |bytes|) == Ok(DenoteAll(code)) <==> code != [AvmInstruction(INTERNALRETURN, None, None, [])])
  {
    var bytes := ProgramBytes(code);
    if |bytes| >= 2 {
      DecodeEncoded(code, |bytes|);
      assert ProgramBytes([AvmInstruction(INTERNALRETURN, None, None, [])]) == [OpCode(INTERNALRETURN)];
    } else {
      OneByteProgram(code);
      OpCodeRoundTrip(INTERNALRETURN);
    }
  }

  lemma OneByteProgram(code: seq<AvmInstruction>)
    requires code != [] && WellShaped(code[0]) && |ProgramBytes(code)| < 2
    ensures code == [AvmInstruction(INTERNALRETURN, None, None, [])]
    ensures ProgramBytes(code) == [OpCode(INTERNALRETURN)]
  {
    hide FieldBytes, ReadBacks, Pow2;
    var f := Fields(code[0]);
    assert |ProgramBytes(code)| == 1 + |FieldBytes(f)| + |ProgramBytes(code[1..])|;
    if f != [] || |code| > 1 {
      assert false;
    }
    assert Types(f) == [];
  }

  // ---------------------------------------------------------------- unique decodability

  lemma ReadBackInjective(t: OperandType, a: nat, b: nat)
    requires a < Pow2(8 * Size(t)) && b < Pow2(8 * Size(t)) && ReadBack(t, a) == ReadBack(t, b)
    ensures a == b
  {
    Pow2Monotone(63, 64);
  }

  lemma ReadBacksInjective(f: seq<Operand>, g: seq<Operand>)
    requires AllFit(f) && AllFit(g) && Types(f) == Types(g) && ReadBacks(f) == ReadBacks(g)
    ensures f == g
  {
    assert |f| == |Types(f)| == |Types(g)| == |g|;
    forall k | 0 <= k < |f|
      ensures f[k] == g[k]
    {
      assert f[k].typ == Types(f)[k] == Types(g)[k] == g[k].typ;
      assert ReadBack(f[k].typ, f[k].value) == ReadBacks(f)[k] == ReadBacks(g)[k];
      ReadBackInjective(f[k].typ, f[k].value, g[k].value);
    }
  }

  lemma TagCodeInjective(a: TypeTag, b: TypeTag)
    requires TagCode(a) == TagCode(b)
    ensures a == b
  {
  }

  lemma DenoteInjective(i: AvmInstruction, j: AvmInstruction)
    requires WellShaped(i) && WellShaped(j) && Denote(i) == Denote(j)
    ensures i == j
  {
    ShapedInjective(i, j, FormatOf(i.opcode));
  }

  lemma ShapedInjective(i: AvmInstruction, j: AvmInstruction, format: Format)
    requires Shaped(i, format) && Shaped(j, format) && Denote(i) == Denote(j)
    ensures i == j
  {
    var f, g := Fields(i), Fields(j);
    if format == Constant {
      assert ReadBacks(f)[1] == TagCode(i.tag.value) && ReadBacks(g)[1] == TagCode(j.tag.value);
    }
    ReadBacksInjective(f, g);
    if i.tag.Some? {
      assert f[1].value == TagCode(i.tag.value) && g[1].value == TagCode(j.tag.value);
      TagCodeInjective(i.tag.value, j.tag.value);
    }
    if i.indirect.Some? {
      assert f[0].value == i.indirect.value && g[0].value == j.indirect.value;
    }
    var skip := (if i.indirect.Some? then 1 else 0) + (if i.tag.Some? then 1 else 0);
    assert f[skip..] == i.operands && g[skip..] == j.operands;
  }

  /** Equal bytecode means equal instruction lists. */
  lemma UniquelyDecodable(code: seq<AvmInstruction>, code': seq<AvmInstruction>)
    requires forall k :: 0 <= k < |code| ==> WellShaped(code[k])
    requires forall k :: 0 <= k < |code'| ==> WellShaped(code'[k])
    requires ProgramBytes(code) == ProgramBytes(code')
    ensures code == code'
  {
    var total := |ProgramBytes(code)| + 2;
    DecodeEncoded(code, total);
    DecodeEncoded(code', total);
    assert DenoteAll(code) == DenoteAll(code');
    assert |code| == |DenoteAll(code)| == |code'|;
    forall k | 0 <= k < |code|
      ensures code[k] == code'[k]
    {
      assert Denote(code[k]) == DenoteAll(code)[k] == DenoteAll(code')[k];
      DenoteInjective(code[k], code'[k]);
    }
  }
}
