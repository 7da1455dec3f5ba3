/** The column-wise encoding of a block body and its decoder. */
module BlockBody {
  import opened Wrappers
  import opened Numbers
  import opened Buffers
  import opened BlockLogs

  const MAX_NEW_NOTE_HASHES_PER_TX: nat := 64
  const MAX_NEW_NULLIFIERS_PER_TX: nat := 64
  const MAX_PUBLIC_DATA_UPDATE_REQUESTS_PER_TX: nat := 32
  const MAX_NEW_L2_TO_L1_MSGS_PER_TX: nat := 2
  const MAX_NEW_CONTRACTS_PER_TX: nat := 1

  /** A field element as its 32-byte buffer. */
  type Field = s: seq<byte> | |s| == 32 witness ToBE(0, 32)
  type EthAddress = s: seq<byte> | |s| == 20 witness ToBE(0, 20)

  const ZERO: Field := ToBE(0, 32)

  datatype PublicDataWrite = PublicDataWrite(leafIndex: Field, newValue: Field)
  datatype ContractData = ContractData(contractAddress: Field, portalContractAddress: EthAddress)

  /** Logs may be undefined: the decoder makes them so where a buffer has fewer log entries than transactions. */
  datatype TxEffect = TxEffect(
    newNoteHashes: seq<Field>,
    newNullifiers: seq<Field>,
    newL2ToL1Msgs: seq<Field>,
    newPublicDataWrites: seq<PublicDataWrite>,
    contractLeaves: seq<Field>,
    contractData: seq<ContractData>,
    encryptedLogs: Option<TxL2Logs>,
    unencryptedLogs: Option<TxL2Logs>)

  datatype Body = Body(l1ToL2Messages: seq<Field>, txEffects: seq<TxEffect>)

  /** The tuple sizes that the types of a transaction effect prescribe. */
  predicate ProperTx(t: TxEffect)
  {
    && |t.newNoteHashes| == MAX_NEW_NOTE_HASHES_PER_TX
    && |t.newNullifiers| == MAX_NEW_NULLIFIERS_PER_TX
    && |t.newL2ToL1Msgs| == MAX_NEW_L2_TO_L1_MSGS_PER_TX
    && |t.newPublicDataWrites| == MAX_PUBLIC_DATA_UPDATE_REQUESTS_PER_TX
    && |t.contractLeaves| == MAX_NEW_CONTRACTS_PER_TX
    && |t.contractData| == MAX_NEW_CONTRACTS_PER_TX
  }

  predicate Proper(b: Body)
  {
    forall i :: 0 <= i < |b.txEffects| ==> ProperTx(b.txEffects[i])
  }

  // ---------------------------------------------------------------- counting transactions

  /** `numberOfTxs`: effects whose first nullifier is not zero. */
  function NonEmptyTxs(txs: seq<TxEffect>): (n: nat)
    requires forall i :: 0 <= i < |txs| ==> ProperTx(txs[i])
  {
    if txs == [] then 0
    else
      assert ProperTx(txs[0]);
      (if txs[0].newNullifiers[0] != ZERO then 1 else 0) + NonEmptyTxs(txs[1..])
  }

  /** Non-zero elements at the multiples of the stride. */
  function Strided(nullifiers: seq<Field>): (n: nat)
    decreases |nullifiers|
  {
    if nullifiers == [] then 0
    else
      var rest := if |nullifiers| <= MAX_NEW_NULLIFIERS_PER_TX then [] else nullifiers[MAX_NEW_NULLIFIERS_PER_TX..];
      (if nullifiers[0] != ZERO then 1 else 0) + Strided(rest)
  }

  /** `calculateNumTxsFromNullifiers`. */
  method CalculateNumTxsFromNullifiers(nullifiers: seq<Field>) returns (n: nat)
    ensures n == Strided(nullifiers)
  {
    n := 0;
    var i := 0;
    assert nullifiers[0..] == nullifiers;
    while i < |nullifiers|
      invariant 0 <= i
      invariant Strided(nullifiers) == n + if i <= |nullifiers| then Strided(nullifiers[i..]) else 0
    {
      var rest := nullifiers[i..];
      if nullifiers[i] != ZERO {
        n := n + 1;
      }
      i := i + MAX_NEW_NULLIFIERS_PER_TX;
      if i <= |nullifiers| {
        assert nullifiers[i..] == rest[MAX_NEW_NULLIFIERS_PER_TX..];
      }
    }
  }

  // ---------------------------------------------------------------- columns

  function Column<S, T>(f: S -> seq<T>, rows: seq<S>): (r: seq<seq<T>>)
    ensures |r| == |rows| && forall i :: 0 <= i < |rows| ==> r[i] == f(rows[i])
  {
    seq(|rows|, i requires 0 <= i < |rows| => f(rows[i]))
  }

  function LogsOr(logs: Option<TxL2Logs>): (l: TxL2Logs)
  {
    if logs.Some? then logs.value else []
  }

  /** No logs are undefined. */
  predicate Defined(b: Body)
  {
    forall i :: 0 <= i < |b.txEffects| ==> b.txEffects[i].encryptedLogs.Some? && b.txEffects[i].unencryptedLogs.Some?
  }

  function EncryptedLogs(b: Body): (l: BlockL2Logs)
  {
    seq(|b.txEffects|, i requires 0 <= i < |b.txEffects| => LogsOr(b.txEffects[i].encryptedLogs))
  }

  function UnencryptedLogs(b: Body): (l: BlockL2Logs)
  {
    seq(|b.txEffects|, i requires 0 <= i < |b.txEffects| => LogsOr(b.txEffects[i].unencryptedLogs))
  }

  function NewNoteHashesOf(t: TxEffect): (r: seq<Field>) { t.newNoteHashes }
  function NewNullifiersOf(t: TxEffect): (r: seq<Field>) { t.newNullifiers }
  function NewPublicDataWritesOf(t: TxEffect): (r: seq<PublicDataWrite>) { t.newPublicDataWrites }
  function NewL2ToL1MsgsOf(t: TxEffect): (r: seq<Field>) { t.newL2ToL1Msgs }
  function ContractLeavesOf(t: TxEffect): (r: seq<Field>) { t.contractLeaves }
  function ContractDataOf(t: TxEffect): (r: seq<ContractData>) { t.contractData }

  /** The columns a body is written as. */
  datatype Columns = Columns(
    noteHashes: seq<Field>,
    nullifiers: seq<Field>,
    publicDataWrites: seq<PublicDataWrite>,
    l2ToL1Msgs: seq<Field>,
    contracts: seq<Field>,
    contractData: seq<ContractData>,
    l1ToL2Messages: seq<Field>,
    encryptedLogs: BlockL2Logs,
    unencryptedLogs: BlockL2Logs)

  function ColumnsOf(b: Body): (c: Columns)
  {
    Columns(
      Concat(Column(NewNoteHashesOf, b.txEffects)),
      Concat(Column(NewNullifiersOf, b.txEffects)),
      Concat(Column(NewPublicDataWritesOf, b.txEffects)),
      Concat(Column(NewL2ToL1MsgsOf, b.txEffects)),
      Concat(Column(ContractLeavesOf, b.txEffects)),
      Concat(Column(ContractDataOf, b.txEffects)),
      b.l1ToL2Messages, EncryptedLogs(b), UnencryptedLogs(b))
  }

  function LogsAtRow(l: BlockL2Logs, i: nat): (r: Option<TxL2Logs>)
  {
    if i < |l| then Some(l[i]) else None
  }

  /** Row i of the columns. */
  function TxAt(c: Columns, i: nat): (t: TxEffect)
  {
    TxEffect(
      Slice(c.noteHashes, i * MAX_NEW_NOTE_HASHES_PER_TX, (i + 1) * MAX_NEW_NOTE_HASHES_PER_TX),
      Slice(c.nullifiers, i * MAX_NEW_NULLIFIERS_PER_TX, (i + 1) * MAX_NEW_NULLIFIERS_PER_TX),
      Slice(c.l2ToL1Msgs, i * MAX_NEW_L2_TO_L1_MSGS_PER_TX, (i + 1) * MAX_NEW_L2_TO_L1_MSGS_PER_TX),
      Slice(c.publicDataWrites, i * MAX_PUBLIC_DATA_UPDATE_REQUESTS_PER_TX, (i + 1) * MAX_PUBLIC_DATA_UPDATE_REQUESTS_PER_TX),
      Slice(c.contracts, i * MAX_NEW_CONTRACTS_PER_TX, (i + 1) * MAX_NEW_CONTRACTS_PER_TX),
      Slice(c.contractData, i * MAX_NEW_CONTRACTS_PER_TX, (i + 1) * MAX_NEW_CONTRACTS_PER_TX),
      LogsAtRow(c.encryptedLogs, i), LogsAtRow(c.unencryptedLogs, i))
  }

  /** The number of rows: the length over the stride, rounded up because a fraction still enters the loop. */
  function Rows(c: Columns): (n: nat)
  {
    (|c.nullifiers| + MAX_NEW_NULLIFIERS_PER_TX - 1) / MAX_NEW_NULLIFIERS_PER_TX
  }

  /** Logs from the n-th transaction on. */
  function Padded(l: BlockL2Logs, n: nat): (r: BlockL2Logs)
  {
    if n <= |l| then l[n..] else []
  }

  function BodyOf(c: Columns): (r: Result<Body>)
  {
    var n, rows := Strided(c.nullifiers), Rows(c);
    if BlockLogCount(Padded(c.encryptedLogs, n)) != 0 || BlockLogCount(Padded(c.unencryptedLogs, n)) != 0
    then Err("Logs exist in the padded area")
    else Ok(Body(c.l1ToL2Messages, seq(rows, i requires 0 <= i < rows => TxAt(c, i))))
  }

  /** A decoded body has undefined logs exactly when the buffer has fewer log entries than transactions. */
  lemma DefinedIffEnoughLogs(c: Columns)
    requires BodyOf(c).Ok?
    ensures Defined(BodyOf(c).value) <==> Rows(c) <= |c.encryptedLogs| && Rows(c) <= |c.unencryptedLogs|
  {
    var b, rows := BodyOf(c).value, Rows(c);
    assert |b.txEffects| == rows;
    assert forall i :: 0 <= i < rows ==> b.txEffects[i] == TxAt(c, i);
    if rows > |c.encryptedLogs| {
      assert b.txEffects[|c.encryptedLogs|].encryptedLogs.None?;
    } else if rows > |c.unencryptedLogs| {
      assert b.txEffects[|c.unencryptedLogs|].unencryptedLogs.None?;
    }
  }

  // ---------------------------------------------------------------- bytes

  function WriteBytes(w: PublicDataWrite): (r: seq<byte>)
  {
    w.leafIndex + w.newValue
  }

  function ContractBytes(d: ContractData): (r: seq<byte>)
  {
    d.contractAddress + d.portalContractAddress
  }

  function All<T>(bytes: T -> seq<byte>, xs: seq<T>): (r: seq<seq<byte>>)
    ensures |r| == |xs| && forall i :: 0 <= i < |xs| ==> r[i] == bytes(xs[i])
  {
    seq(|xs|, i requires 0 <= i < |xs| => bytes(xs[i]))
  }

  function Vector<T>(bytes: T -> seq<byte>, xs: seq<T>): (r: seq<byte>)
  {
    Prefix(|xs|) + Concat(All(bytes, xs))
  }

  function FieldBytes(f: Field): (r: seq<byte>) { f }

  /** The sections of the encoding in order. */
  function Sections(c: Columns): (r: seq<seq<byte>>)
    ensures |r| == 9
  {
    [Vector(FieldBytes, c.noteHashes),
     Vector(FieldBytes, c.nullifiers),
     Vector(WriteBytes, c.publicDataWrites),
     Vector(FieldBytes, c.l2ToL1Msgs),
     Vector(FieldBytes, c.contracts),
     Concat(All(ContractBytes, c.contractData)),
     Vector(FieldBytes, c.l1ToL2Messages),
     LogBytes(c.encryptedLogs),
     LogBytes(c.unencryptedLogs)]
  }

  /** Every count and length that is written fits 32 bits; otherwise `writeUInt32BE` throws. */
  predicate WritableColumns(c: Columns)
  {
    && |c.noteHashes| < Pow2(32) && |c.nullifiers| < Pow2(32) && |c.publicDataWrites| < Pow2(32)
    && |c.l2ToL1Msgs| < Pow2(32) && |c.contracts| < Pow2(32) && |c.l1ToL2Messages| < Pow2(32)
    && Writable(c.encryptedLogs) && Writable(c.unencryptedLogs)
  }

  /** `toBuffer`; undefined logs have no encoding. */
  function ToBuffer(b: Body): (r: Result<seq<byte>>)
  {
    if !Defined(b) then Err("Cannot read properties of undefined")
    else if WritableColumns(ColumnsOf(b)) then Ok(Concat(Sections(ColumnsOf(b)))) else Err("ERR_OUT_OF_RANGE")
  }

  /** `Fr.fromBuffer`: a short read is padded with zeros on the left. */
  function FieldAt(buf: seq<byte>, offset: nat): (r: Result<(Field, nat)>)
  {
    var b := Slice(buf, offset, offset + 32);
    Ok((seq(32 - |b|, _ => 0) + b, 32))
  }

  function WriteAt(buf: seq<byte>, offset: nat): (r: Result<(PublicDataWrite, nat)>)
  {
    Ok((PublicDataWrite(FieldAt(buf, offset).value.0, FieldAt(buf, offset + 32).value.0), 64))
  }

  /** Addresses must not be short. */
  function ContractAt(buf: seq<byte>, offset: nat): (r: Result<(ContractData, nat)>)
  {
    if offset + 52 <= |buf| then
      Ok((ContractData(buf[offset..offset + 32], buf[offset + 32..offset + 52]), 52))
    else Err("Invalid address length")
  }

  /** The element readers of the decoder. */
  datatype Readers = Readers(
    field: Deserializer<Field>, write: Deserializer<PublicDataWrite>, contract: Deserializer<ContractData>, logs: Deserializer<BlockL2Logs>)

  function BlockReaders(): (rd: Readers)
  {
    Readers(FieldAt, WriteAt, ContractAt, LogsAt)
  }

  datatype Leading = Leading(noteHashes: seq<Field>, nullifiers: seq<Field>, publicDataWrites: seq<PublicDataWrite>, l2ToL1Msgs: seq<Field>)

  /** The first four columns and where they end. */
  function LeadingIn(rd: Readers, buf: seq<byte>): (r: Result<(Leading, nat)>)
  {
    var noteHashes :- VectorAt(rd.field, buf, 0);
    var o1 := noteHashes.1;
    var nullifiers :- VectorAt(rd.field, buf, o1);
    var o2 := o1 + nullifiers.1;
    var writes :- VectorAt(rd.write, buf, o2);
    var o3 := o2 + writes.1;
    var msgs :- VectorAt(rd.field, buf, o3);
    Ok((Leading(noteHashes.0, nullifiers.0, writes.0, msgs.0), o3 + msgs.1))
  }

  datatype Middle = Middle(contracts: seq<Field>, contractData: seq<ContractData>, l1ToL2Messages: seq<Field>)

  /** The columns between the messages and the logs, and where they end. */
  function MiddleIn(rd: Readers, buf: seq<byte>, o4: nat): (r: Result<(Middle, nat)>)
  {
    var contracts :- VectorAt(rd.field, buf, o4);
    var o5 := o4 + contracts.1;
    var contractData :- ItemsAt(rd.contract, |contracts.0|, buf, o5);
    var o6 := o5 + contractData.1;
    var l1 :- VectorAt(rd.field, buf, o6);
    Ok((Middle(contracts.0, contractData.0, l1.0), o6 + l1.1))
  }

  /** Encrypted and unencrypted logs. */
  function LogsIn(rd: Readers, buf: seq<byte>, o7: nat): (r: Result<(BlockL2Logs, BlockL2Logs)>)
  {
    var encrypted :- rd.logs(buf, o7);
    var unencrypted :- rd.logs(buf, o7 + encrypted.1);
    Ok((encrypted.0, unencrypted.0))
  }

  function ColumnsIn(rd: Readers, buf: seq<byte>): (r: Result<Columns>)
  {
    var leading :- LeadingIn(rd, buf);
    var middle :- MiddleIn(rd, buf, leading.1);
    var logs :- LogsIn(rd, buf, middle.1);
    Ok(Assembled(leading.0, middle.0, logs.0, logs.1))
  }

  function Assembled(a: Leading, m: Middle, encrypted: BlockL2Logs, unencrypted: BlockL2Logs): (c: Columns)
  {
    Columns(a.noteHashes, a.nullifiers, a.publicDataWrites, a.l2ToL1Msgs,
      m.contracts, m.contractData, m.l1ToL2Messages, encrypted, unencrypted)
  }

  /** `fromBuffer`, as a function. */
  function Parsed(buf: seq<byte>): (r: Result<Body>)
  {
    var c :- ColumnsIn(BlockReaders(), buf);
    BodyOf(c)
  }

  // ---------------------------------------------------------------- the decoder

  /** `fromBuffer`. */
  method FromBuffer(buf: seq<byte>) returns (r: Result<Body>)
    ensures r == Parsed(buf)
  {
    var columns := ReadColumns(BlockReaders(), buf);
    if columns.Err? {
      return Err(columns.error);
    }
    r := Transpose(columns.value);
  }

  /** The second half of `fromBuffer`: the check of the padded area and the loop over the rows. */
  method Transpose(c: Columns) returns (r: Result<Body>)
    ensures r == BodyOf(c)
  {
    hide TxAt, BlockLogCount, Strided;
    var n := CalculateNumTxsFromNullifiers(c.nullifiers);
    if BlockLogCount(Padded(c.encryptedLogs, n)) != 0 || BlockLogCount(Padded(c.unencryptedLogs, n)) != 0 {
      return Err("Logs exist in the padded area");
    }
    var txEffects, i, rows := [], 0, Rows(c);
    while i < rows
      invariant 0 <= i <= rows
      invariant |txEffects| == i && forall k {:trigger txEffects[k]} :: 0 <= k < i ==> txEffects[k] == TxAt(c, k)
    {
      txEffects := txEffects + [TxAt(c, i)];
      i := i + 1;
    }
    assert txEffects == seq(rows, k requires 0 <= k < rows => TxAt(c, k));
    r := Ok(Body(c.l1ToL2Messages, txEffects));
  }

  method ReadLeading(rd: Readers, reader: BufferReader) returns (r: Result<Leading>)
    requires reader.index == 0
    modifies reader
    ensures match LeadingIn(rd, reader.buffer)
      case Ok((x, at)) => r == Ok(x) && reader.index == at
      case Err(e) => r == Err(e)
  {
    var noteHashes :- reader.ReadVector(rd.field);
    var nullifiers :- reader.ReadVector(rd.field);
    var writes :- reader.ReadVector(rd.write);
    var msgs :- reader.ReadVector(rd.field);
    r := Ok(Leading(noteHashes, nullifiers, writes, msgs));
  }

  method ReadMiddle(rd: Readers, reader: BufferReader) returns (r: Result<Middle>)
    modifies reader
    ensures match MiddleIn(rd, reader.buffer, old(reader.index))
      case Ok((x, at)) => r == Ok(x) && reader.index == at
      case Err(e) => r == Err(e)
  {
    var contracts :- reader.ReadVector(rd.field);
    var contractData :- reader.ReadArray(|contracts|, rd.contract);
    var l1 :- reader.ReadVector(rd.field);
    r := Ok(Middle(contracts, contractData, l1));
  }

  method ReadLogs(rd: Readers, reader: BufferReader) returns (r: Result<(BlockL2Logs, BlockL2Logs)>)
    modifies reader
    ensures r == LogsIn(rd, reader.buffer, old(reader.index))
  {
    var encrypted :- reader.ReadObject(rd.logs);
    var unencrypted :- reader.ReadObject(rd.logs);
    r := Ok((encrypted, unencrypted));
  }

  method ReadColumns(rd: Readers, buf: seq<byte>) returns (r: Result<Columns>)
    ensures r == ColumnsIn(rd, buf)
  {
    var reader := new BufferReader(buf, 0);
    var leading :- ReadLeading(rd, reader);
    var middle :- ReadMiddle(rd, reader);
    var logs :- ReadLogs(rd, reader);
    r := Ok(Assembled(leading, middle, logs.0, logs.1));
  }

  // ---------------------------------------------------------------- columns come back as rows

  lemma {:induction false} ConcatUniform<T>(parts: seq<seq<T>>, n: nat)
    requires forall i :: 0 <= i < |parts| ==> |parts[i]| == n
    ensures |Concat(parts)| == |parts| * n
  {
    if parts != [] {
      ConcatUniform(parts[1..], n);
      Distribute(|parts| - 1, -1, n);
    }
  }

  /** Cutting a column at the multiples of the tuple size gives back the tuples. */
  lemma ChunkAt<T>(parts: seq<seq<T>>, n: nat, i: nat)
    requires i < |parts| && forall k :: 0 <= k < |parts| ==> |parts[k]| == n
    ensures i * n <= (i + 1) * n && Slice(Concat(parts), i * n, (i + 1) * n) == parts[i]
  {
    var before, after := Concat(parts[..i]), Concat(parts[i + 1..]);
    ConcatAppend(parts[..i + 1], parts[i + 1..]);
    assert parts == parts[..i + 1] + parts[i + 1..];
    ConcatSnoc(parts, i);
    ConcatUniform(parts[..i], n);
    Distribute(i, -1, n);
    assert Concat(parts) == before + parts[i] + after && |before| == i * n;
    ThreeParts(before, parts[i], after);
  }

  /** The strided count over the flattened nullifiers is the number of transactions. */
  lemma {:induction false} StridedCountsTxs(txs: seq<TxEffect>)
    requires forall i :: 0 <= i < |txs| ==> ProperTx(txs[i])
    ensures Strided(Concat(Column(NewNullifiersOf, txs))) == NonEmptyTxs(txs)
  {
    if txs != [] {
      var all, rest := Concat(Column(NewNullifiersOf, txs)), Concat(Column(NewNullifiersOf, txs[1..]));
      assert ProperTx(txs[0]);
      assert Column(NewNullifiersOf, txs)[1..] == Column(NewNullifiersOf, txs[1..]);
      assert all == txs[0].newNullifiers + rest;
      assert all[MAX_NEW_NULLIFIERS_PER_TX..] == rest;
      StridedCountsTxs(txs[1..]);
    }
  }

  // ---------------------------------------------------------------- bytes come back as columns

  lemma FieldReads(f: Field)
    ensures Reads(FieldAt, f, FieldBytes(f))
  {
    forall before: seq<byte>, after: seq<byte>
      ensures FieldAt(before + f + after, |before|) == Ok((f, 32))
    {
      ThreeParts(before, f, after);
      assert seq(0, _ => 0) + f == f;
    }
  }

  lemma WriteReads(w: PublicDataWrite)
    ensures Reads(WriteAt, w, WriteBytes(w))
  {
    forall before: seq<byte>, after: seq<byte>
      ensures WriteAt(before + WriteBytes(w) + after, |before|) == Ok((w, 64))
    {
      Regroup(before, w.leafIndex, w.newValue, after);
      FieldReads(w.leafIndex);
      FieldReads(w.newValue);
      var buf := before + WriteBytes(w) + after;
      assert FieldAt(before + w.leafIndex + (w.newValue + after), |before|) == Ok((w.leafIndex, 32));
      assert FieldAt((before + w.leafIndex) + w.newValue + after, |before + w.leafIndex|) == Ok((w.newValue, 32));
    }
  }

  lemma ContractReads(d: ContractData)
    ensures Reads(ContractAt, d, ContractBytes(d))
  {
    forall before: seq<byte>, after: seq<byte>
      ensures ContractAt(before + ContractBytes(d) + after, |before|) == Ok((d, 52))
    {
      var buf := before + ContractBytes(d) + after;
      ThreeParts(before, ContractBytes(d), after);
      assert buf[|before|..|before| + 32] == d.contractAddress;
      assert buf[|before| + 32..|before| + 52] == d.portalContractAddress;
    }
  }

  lemma BlockLogsRead(l: BlockL2Logs)
    requires Writable(l)
    ensures Reads(LogsAt, l, LogBytes(l))
  {
    forall before: seq<byte>, after: seq<byte>
      ensures LogsAt(before + LogBytes(l) + after, |before|) == Ok((l, |LogBytes(l)|))
    {
      LogsRoundTrip(l, before, after);
    }
  }

  ghost predicate ReadsAll<T(!new)>(item: Deserializer<T>, bytes: T -> seq<byte>)
  {
    forall x {:trigger Reads(item, x, bytes(x))} :: Reads(item, x, bytes(x))
  }

  /** The readers undo the writers. */
  ghost predicate Undo(rd: Readers, c: Columns)
  {
    && ReadsAll(rd.field, FieldBytes)
    && ReadsAll(rd.write, WriteBytes)
    && ReadsAll(rd.contract, ContractBytes)
    && Reads(rd.logs, c.encryptedLogs, LogBytes(c.encryptedLogs))
    && Reads(rd.logs, c.unencryptedLogs, LogBytes(c.unencryptedLogs))
  }

  lemma BlockReadersUndo(c: Columns)
    requires WritableColumns(c)
    ensures Undo(BlockReaders(), c)
  {
    forall f: Field
      ensures Reads(FieldAt, f, FieldBytes(f))
    {
      FieldReads(f);
    }
    forall w
      ensures Reads(WriteAt, w, WriteBytes(w))
    {
      WriteReads(w);
    }
    forall d
      ensures Reads(ContractAt, d, ContractBytes(d))
    {
      ContractReads(d);
    }
    BlockLogsRead(c.encryptedLogs);
    BlockLogsRead(c.unencryptedLogs);
  }

  /** Where section k starts. */
  function Start(parts: seq<seq<byte>>, k: nat): (n: nat)
    requires k <= |parts|
  {
    |Concat(parts[..k])|
  }

  lemma Located(parts: seq<seq<byte>>, k: nat, after: seq<byte>) returns (before: seq<byte>, rest: seq<byte>)
    requires k < |parts|
    ensures Concat(parts) + after == before + parts[k] + rest
    ensures |before| == Start(parts, k) && Start(parts, k + 1) == Start(parts, k) + |parts[k]|
  {
    before, rest := Concat(parts[..k]), Concat(parts[k + 1..]) + after;
    ConcatSnoc(parts, k);
    ConcatAppend(parts[..k + 1], parts[k + 1..]);
    assert parts[..k + 1] + parts[k + 1..] == parts;
  }

  /** Where the sections of a buffer start, and where the last one ends. */
  function Starts(parts: seq<seq<byte>>): (o: seq<nat>)
  {
    seq(|parts| + 1, k requires 0 <= k <= |parts| => Start(parts, k))
  }

  /** The buffer consists of the sections, followed by anything. */
  ghost predicate Laid(buf: seq<byte>, parts: seq<seq<byte>>, o: seq<nat>)
  {
    o == Starts(parts) && exists after: seq<byte> :: buf == Concat(parts) + after
  }

  lemma SectionAt(buf: seq<byte>, parts: seq<seq<byte>>, o: seq<nat>, k: nat) returns (before: seq<byte>, rest: seq<byte>)
    requires Laid(buf, parts, o) && k < |parts|
    ensures buf == before + parts[k] + rest
    ensures |o| == |parts| + 1 && |before| == o[k] && o[k + 1] == o[k] + |parts[k]|
  {
    var after: seq<byte> :| buf == Concat(parts) + after;
    before, rest := Located(parts, k, after);
  }

  lemma ObjectSection<T(!new)>(item: Deserializer<T>, buf: seq<byte>, parts: seq<seq<byte>>, o: seq<nat>, k: nat, x: T)
    requires Laid(buf, parts, o) && k < |parts| && Reads(item, x, parts[k])
    ensures |o| == |parts| + 1 && o[k] <= o[k + 1] && item(buf, o[k]) == Ok((x, o[k + 1] - o[k]))
  {
    var before, rest := SectionAt(buf, parts, o, k);
    assert item(before + parts[k] + rest, |before|) == Ok((x, |parts[k]|));
  }

  function VectorReader<T>(item: Deserializer<T>): (r: Deserializer<seq<T>>)
  {
    (b, o) => VectorAt(item, b, o)
  }

  function ArrayReader<T>(item: Deserializer<T>, size: nat): (r: Deserializer<seq<T>>)
  {
    (b, o) => ItemsAt(item, size, b, o)
  }

  lemma VectorRead<T(!new)>(item: Deserializer<T>, bytes: T -> seq<byte>, xs: seq<T>, part: seq<byte>)
    requires |xs| < Pow2(32) && ReadsAll(item, bytes) && part == Vector(bytes, xs)
    ensures Reads(VectorReader(item), xs, part)
  {
    forall before: seq<byte>, after: seq<byte>
      ensures VectorReader(item)(before + part + after, |before|) == Ok((xs, |part|))
    {
      VectorReads(item, xs, All(bytes, xs), before, after);
    }
  }

  lemma ArrayRead<T(!new)>(item: Deserializer<T>, bytes: T -> seq<byte>, xs: seq<T>, part: seq<byte>)
    requires ReadsAll(item, bytes) && part == Concat(All(bytes, xs))
    ensures Reads(ArrayReader(item, |xs|), xs, part)
  {
    forall before: seq<byte>, after: seq<byte>
      ensures ArrayReader(item, |xs|)(before + part + after, |before|) == Ok((xs, |part|))
    {
      ItemsRead(item, xs, All(bytes, xs), before, after);
    }
  }

  /** Each section reads as its column. */
  ghost predicate Written(rd: Readers, parts: seq<seq<byte>>, c: Columns)
  {
    && |parts| == 9
    && Reads(VectorReader(rd.field), c.noteHashes, parts[0])
    && Reads(VectorReader(rd.field), c.nullifiers, parts[1])
    && Reads(VectorReader(rd.write), c.publicDataWrites, parts[2])
    && Reads(VectorReader(rd.field), c.l2ToL1Msgs, parts[3])
    && Reads(VectorReader(rd.field), c.contracts, parts[4])
    && Reads(ArrayReader(rd.contract, |c.contractData|), c.contractData, parts[5])
    && Reads(VectorReader(rd.field), c.l1ToL2Messages, parts[6])
    && Reads(rd.logs, c.encryptedLogs, parts[7])
    && Reads(rd.logs, c.unencryptedLogs, parts[8])
  }

  /** The sections hold the columns. */
  ghost predicate Holds(parts: seq<seq<byte>>, c: Columns)
  {
    && |parts| == 9
    && parts[0] == Vector(FieldBytes, c.noteHashes)
    && parts[1] == Vector(FieldBytes, c.nullifiers)
    && parts[2] == Vector(WriteBytes, c.publicDataWrites)
    && parts[3] == Vector(FieldBytes, c.l2ToL1Msgs)
    && parts[4] == Vector(FieldBytes, c.contracts)
    && parts[5] == Concat(All(ContractBytes, c.contractData))
    && parts[6] == Vector(FieldBytes, c.l1ToL2Messages)
    && parts[7] == LogBytes(c.encryptedLogs)
    && parts[8] == LogBytes(c.unencryptedLogs)
  }

  lemma SectionsWritten(rd: Readers, parts: seq<seq<byte>>, c: Columns)
    requires WritableColumns(c) && Undo(rd, c) && Holds(parts, c)
    ensures Written(rd, parts, c)
  {
    VectorRead(rd.field, FieldBytes, c.noteHashes, parts[0]);
    VectorRead(rd.field, FieldBytes, c.nullifiers, parts[1]);
    VectorRead(rd.write, WriteBytes, c.publicDataWrites, parts[2]);
    VectorRead(rd.field, FieldBytes, c.l2ToL1Msgs, parts[3]);
    VectorRead(rd.field, FieldBytes, c.contracts, parts[4]);
    ArrayRead(rd.contract, ContractBytes, c.contractData, parts[5]);
    VectorRead(rd.field, FieldBytes, c.l1ToL2Messages, parts[6]);
  }

  /** Each section of a buffer, at its offset, reads as its column. */
  ghost predicate LeadingSections(rd: Readers, buf: seq<byte>, o: seq<nat>, c: Columns)
  {
    && |o| == 10 && o[0] == 0 && o[0] <= o[1] <= o[2] <= o[3] <= o[4]
    && VectorAt(rd.field, buf, o[0]) == Ok((c.noteHashes, o[1] - o[0]))
    && VectorAt(rd.field, buf, o[1]) == Ok((c.nullifiers, o[2] - o[1]))
    && VectorAt(rd.write, buf, o[2]) == Ok((c.publicDataWrites, o[3] - o[2]))
    && VectorAt(rd.field, buf, o[3]) == Ok((c.l2ToL1Msgs, o[4] - o[3]))
  }

  ghost predicate MiddleSections(rd: Readers, buf: seq<byte>, o: seq<nat>, c: Columns)
  {
    && |o| == 10 && o[4] <= o[5] <= o[6] <= o[7]
    && VectorAt(rd.field, buf, o[4]) == Ok((c.contracts, o[5] - o[4]))
    && ItemsAt(rd.contract, |c.contractData|, buf, o[5]) == Ok((c.contractData, o[6] - o[5]))
    && VectorAt(rd.field, buf, o[6]) == Ok((c.l1ToL2Messages, o[7] - o[6]))
  }

  ghost predicate LogSections(rd: Readers, buf: seq<byte>, o: seq<nat>, c: Columns)
  {
    && |o| == 10 && o[7] <= o[8] <= o[9]
    && rd.logs(buf, o[7]) == Ok((c.encryptedLogs, o[8] - o[7]))
    && rd.logs(buf, o[8]) == Ok((c.unencryptedLogs, o[9] - o[8]))
  }

  lemma LeadingSectionsRead(rd: Readers, buf: seq<byte>, parts: seq<seq<byte>>, o: seq<nat>, c: Columns)
    requires Written(rd, parts, c) && Laid(buf, parts, o)
    ensures LeadingSections(rd, buf, o, c)
  {
    assert Start(parts, 0) == 0;
    ObjectSection(VectorReader(rd.field), buf, parts, o, 0, c.noteHashes);
    ObjectSection(VectorReader(rd.field), buf, parts, o, 1, c.nullifiers);
    ObjectSection(VectorReader(rd.write), buf, parts, o, 2, c.publicDataWrites);
    ObjectSection(VectorReader(rd.field), buf, parts, o, 3, c.l2ToL1Msgs);
  }

  lemma MiddleSectionsRead(rd: Readers, buf: seq<byte>, parts: seq<seq<byte>>, o: seq<nat>, c: Columns)
    requires Written(rd, parts, c) && Laid(buf, parts, o)
    ensures MiddleSections(rd, buf, o, c)
  {
    ObjectSection(VectorReader(rd.field), buf, parts, o, 4, c.contracts);
    ObjectSection(ArrayReader(rd.contract, |c.contractData|), buf, parts, o, 5, c.contractData);
    ObjectSection(VectorReader(rd.field), buf, parts, o, 6, c.l1ToL2Messages);
  }

  lemma LogSectionsRead(rd: Readers, buf: seq<byte>, parts: seq<seq<byte>>, o: seq<nat>, c: Columns)
    requires Written(rd, parts, c) && Laid(buf, parts, o)
    ensures LogSections(rd, buf, o, c)
  {
    ObjectSection(rd.logs, buf, parts, o, 7, c.encryptedLogs);
    ObjectSection(rd.logs, buf, parts, o, 8, c.unencryptedLogs);
  }

  lemma LeadingReads(rd: Readers, buf: seq<byte>, o: seq<nat>, c: Columns)
    requires LeadingSections(rd, buf, o, c)
    ensures LeadingIn(rd, buf) == Ok((Leading(c.noteHashes, c.nullifiers, c.publicDataWrites, c.l2ToL1Msgs), o[4]))
  {
  }

  lemma MiddleReads(rd: Readers, buf: seq<byte>, o: seq<nat>, c: Columns)
    requires MiddleSections(rd, buf, o, c) && |c.contractData| == |c.contracts|
    ensures MiddleIn(rd, buf, o[4]) == Ok((Middle(c.contracts, c.contractData, c.l1ToL2Messages), o[7]))
  {
  }

  lemma LogsRead(rd: Readers, buf: seq<byte>, o: seq<nat>, c: Columns)
    requires LogSections(rd, buf, o, c)
    ensures LogsIn(rd, buf, o[7]) == Ok((c.encryptedLogs, c.unencryptedLogs))
  {
  }

  lemma ColumnsRead(rd: Readers, buf: seq<byte>, o: seq<nat>, c: Columns)
    requires LeadingSections(rd, buf, o, c) && MiddleSections(rd, buf, o, c) && LogSections(rd, buf, o, c)
    requires |c.contractData| == |c.contracts|
    ensures ColumnsIn(rd, buf) == Ok(c)
  {
    LeadingReads(rd, buf, o, c);
    MiddleReads(rd, buf, o, c);
    LogsRead(rd, buf, o, c);
  }

  lemma ColumnsRoundTrip(rd: Readers, buf: seq<byte>, parts: seq<seq<byte>>, o: seq<nat>, c: Columns)
    requires Written(rd, parts, c) && |c.contractData| == |c.contracts| && Laid(buf, parts, o)
    ensures ColumnsIn(rd, buf) == Ok(c)
  {
    LeadingSectionsRead(rd, buf, parts, o, c);
    MiddleSectionsRead(rd, buf, parts, o, c);
    LogSectionsRead(rd, buf, parts, o, c);
    ColumnsRead(rd, buf, o, c);
  }

  // ---------------------------------------------------------------- the round trip

  lemma RowComesBack(b: Body, i: nat)
    requires Proper(b) && Defined(b) && i < |b.txEffects|
    ensures TxAt(ColumnsOf(b), i) == b.txEffects[i]
  {
    var txs := b.txEffects;
    assert forall k :: 0 <= k < |txs| ==> ProperTx(txs[k]);
    ChunkAt(Column(NewNoteHashesOf, txs), MAX_NEW_NOTE_HASHES_PER_TX, i);
    ChunkAt(Column(NewNullifiersOf, txs), MAX_NEW_NULLIFIERS_PER_TX, i);
    ChunkAt(Column(NewPublicDataWritesOf, txs), MAX_PUBLIC_DATA_UPDATE_REQUESTS_PER_TX, i);
    ChunkAt(Column(NewL2ToL1MsgsOf, txs), MAX_NEW_L2_TO_L1_MSGS_PER_TX, i);
    ChunkAt(Column(ContractLeavesOf, txs), MAX_NEW_CONTRACTS_PER_TX, i);
    ChunkAt(Column(ContractDataOf, txs), MAX_NEW_CONTRACTS_PER_TX, i);
  }

  lemma ColumnLengths(b: Body)
    requires Proper(b)
    ensures Rows(ColumnsOf(b)) == |b.txEffects|
    ensures |ColumnsOf(b).contractData| == |ColumnsOf(b).contracts|
  {
    var txs := b.txEffects;
    assert forall k :: 0 <= k < |txs| ==> ProperTx(txs[k]);
    ConcatUniform(Column(NewNullifiersOf, txs), MAX_NEW_NULLIFIERS_PER_TX);
    ConcatUniform(Column(ContractLeavesOf, txs), MAX_NEW_CONTRACTS_PER_TX);
    ConcatUniform(Column(ContractDataOf, txs), MAX_NEW_CONTRACTS_PER_TX);
  }

  lemma {:induction false} NonEmptyAtMost(txs: seq<TxEffect>)
    requires forall i :: 0 <= i < |txs| ==> ProperTx(txs[i])
    ensures NonEmptyTxs(txs) <= |txs|
  {
    if txs != [] {
      NonEmptyAtMost(txs[1..]);
    }
  }

  /** No logs after as many transactions as are not empty. */
  predicate PaddingHasNoLogs(b: Body)
    requires Proper(b)
  {
    forall i :: NonEmptyTxs(b.txEffects) <= i < |b.txEffects| ==>
      LogCount(LogsOr(b.txEffects[i].encryptedLogs)) == 0 && LogCount(LogsOr(b.txEffects[i].unencryptedLogs)) == 0
  }

  lemma PaddedLogs(b: Body)
    requires Proper(b)
    ensures var c := ColumnsOf(b);
      (BlockLogCount(Padded(c.encryptedLogs, Strided(c.nullifiers))) == 0 &&
       BlockLogCount(Padded(c.unencryptedLogs, Strided(c.nullifiers))) == 0) <==> PaddingHasNoLogs(b)
  {
    var c, n := ColumnsOf(b), NonEmptyTxs(b.txEffects);
    StridedCountsTxs(b.txEffects);
    NonEmptyAtMost(b.txEffects);
    LogsFrom(c.encryptedLogs, n);
    LogsFrom(c.unencryptedLogs, n);
    assert forall i :: 0 <= i < |b.txEffects| ==>
      LogsOr(b.txEffects[i].encryptedLogs) == c.encryptedLogs[i] && LogsOr(b.txEffects[i].unencryptedLogs) == c.unencryptedLogs[i];
  }

  lemma LogsFrom(l: BlockL2Logs, n: nat)
    requires n <= |l|
    ensures BlockLogCount(Padded(l, n)) == 0 <==> forall i :: n <= i < |l| ==> LogCount(l[i]) == 0
  {
    NoLogs(l[n..]);
    if BlockLogCount(l[n..]) == 0 {
      forall i | n <= i < |l|
        ensures LogCount(l[i]) == 0
      {
        assert l[i] == l[n..][i - n];
      }
    }
  }

  lemma TransposeComesBack(b: Body)
    requires Proper(b) && Defined(b)
    ensures BodyOf(ColumnsOf(b)) == if PaddingHasNoLogs(b) then Ok(b) else Err("Logs exist in the padded area")
  {
    var c := ColumnsOf(b);
    PaddedLogs(b);
    ColumnLengths(b);
    if PaddingHasNoLogs(b) {
      var rows := Rows(c);
      var txs := seq(rows, i requires 0 <= i < rows => TxAt(c, i));
      forall i | 0 <= i < rows
        ensures txs[i] == b.txEffects[i]
      {
        RowComesBack(b, i);
      }
      assert txs == b.txEffects;
    }
  }

  lemma SectionsHold(c: Columns)
    ensures Holds(Sections(c), c)
  {
    hide Vector, FieldBytes, WriteBytes, Concat, All, ContractBytes, LogBytes;
  }

  lemma BytesComeBack(parts: seq<seq<byte>>, c: Columns, after: seq<byte>)
    requires WritableColumns(c) && |c.contractData| == |c.contracts| && Holds(parts, c)
    ensures ColumnsIn(BlockReaders(), Concat(parts) + after) == Ok(c)
  {
    BlockReadersUndo(c);
    SectionsWritten(BlockReaders(), parts, c);
    ColumnsRoundTrip(BlockReaders(), Concat(parts) + after, parts, Starts(parts), c);
  }

  /** Every body that can be written is read back, whatever follows it in the buffer, exactly when the transactions past
      the number of non-empty ones have no logs; otherwise the decoder rejects it. */
  lemma BodyRoundTrip(b: Body, after: seq<byte>)
    requires Proper(b) && ToBuffer(b).Ok?
    ensures Parsed(ToBuffer(b).value + after) == if PaddingHasNoLogs(b) then Ok(b) else Err("Logs exist in the padded area")
  {
    hide Sections, Holds, Vector, Concat, Pow2;
    ColumnLengths(b);
    SectionsHold(ColumnsOf(b));
    BytesComeBack(Sections(ColumnsOf(b)), ColumnsOf(b), after);
    TransposeComesBack(b);
  }

  // ---------------------------------------------------------------- a body its own decoder rejects

  /** A transaction with nothing but a first nullifier and encrypted logs. */
  function BareTx(nullifier: Field, logs: TxL2Logs): (t: TxEffect)
    ensures ProperTx(t)
  {
    TxEffect(
      seq(MAX_NEW_NOTE_HASHES_PER_TX, _ => ZERO),
      seq(MAX_NEW_NULLIFIERS_PER_TX, i => if i == 0 then nullifier else ZERO),
      seq(MAX_NEW_L2_TO_L1_MSGS_PER_TX, _ => ZERO),
      seq(MAX_PUBLIC_DATA_UPDATE_REQUESTS_PER_TX, _ => PublicDataWrite(ZERO, ZERO)),
      seq(MAX_NEW_CONTRACTS_PER_TX, _ => ZERO),
      seq(MAX_NEW_CONTRACTS_PER_TX, _ => ContractData(ZERO, ToBE(0, 20))),
      Some(logs), Some([]))
  }

  const ONE: Field := ToBE(0, 31) + [1]
  const ONE_LOG: TxL2Logs := [[[7]]]

  /** An empty transaction before one with a single one-byte log. */
  const EMPTY_FIRST: Body := Body([], [BareTx(ZERO, []), BareTx(ONE, ONE_LOG)])

  lemma OneIsNotZero()
    ensures ONE != ZERO
  {
    assert ZERO == ToBE(0, 31) + [0];
    assert ONE[31] == 1 && ZERO[31] == 0;
  }

  lemma ShortTxs(txs: seq<TxEffect>)
    requires |txs| == 2 && ProperTx(txs[0]) && ProperTx(txs[1])
    ensures |Concat(Column(NewNoteHashesOf, txs))| == 128 && |Concat(Column(NewNullifiersOf, txs))| == 128
    ensures |Concat(Column(NewPublicDataWritesOf, txs))| == 64 && |Concat(Column(NewL2ToL1MsgsOf, txs))| == 4
    ensures |Concat(Column(ContractLeavesOf, txs))| == 2
  {
    ConcatUniform(Column(NewNoteHashesOf, txs), MAX_NEW_NOTE_HASHES_PER_TX);
    ConcatUniform(Column(NewNullifiersOf, txs), MAX_NEW_NULLIFIERS_PER_TX);
    ConcatUniform(Column(NewPublicDataWritesOf, txs), MAX_PUBLIC_DATA_UPDATE_REQUESTS_PER_TX);
    ConcatUniform(Column(NewL2ToL1MsgsOf, txs), MAX_NEW_L2_TO_L1_MSGS_PER_TX);
    ConcatUniform(Column(ContractLeavesOf, txs), MAX_NEW_CONTRACTS_PER_TX);
  }

  lemma PrefixedOne(b: seq<byte>)
    ensures PrefixedAll([b]) == Prefixed(b) && PrefixedAll([]) == []
  {
    assert Prefixes([b])[1..] == [];
    assert Concat(Prefixes([b])) == Prefixed(b) + Concat([]);
  }

  lemma PrefixedTwo(a: seq<byte>, b: seq<byte>)
    ensures PrefixedAll([a, b]) == Prefixed(a) + Prefixed(b)
  {
    assert Prefixes([a, b])[1..] == Prefixes([b]);
    PrefixedOne(b);
  }

  lemma NoLogBody()
    ensures TxBody([]) == [] && WritableTx([])
  {
    assert FunctionBodies([]) == [];
    PrefixedOne([]);
  }

  /** A transaction with one function that has one log. */
  lemma OneLogBody(log: seq<byte>)
    requires |log| + 8 < Pow2(32)
    ensures |TxBody([[log]])| == |log| + 8 && WritableTx([[log]])
  {
    hide Pow2;
    var body := PrefixedAll([log]);
    PrefixedOne(log);
    assert FunctionBodies([[log]]) == [body];
    PrefixedOne(body);
  }

  lemma TwoTxLogs(a: TxL2Logs, b: TxL2Logs)
    requires WritableTx(a) && WritableTx(b) && |TxBody(a)| + |TxBody(b)| + 8 < Pow2(32)
    ensures Writable([a, b])
  {
    hide PrefixedAll, TxBody, WritableTx, Pow2;
    assert TxBodies([a, b]) == [TxBody(a), TxBody(b)];
    PrefixedTwo(TxBody(a), TxBody(b));
  }

  lemma ShortLogs()
    ensures Writable([[], ONE_LOG]) && Writable([[], []])
  {
    Pow2Of32();
    NoLogBody();
    OneLogBody([7]);
    TwoTxLogs([], ONE_LOG);
    TwoTxLogs([], []);
  }

  lemma EmptyFirstCounts()
    ensures Proper(EMPTY_FIRST) && NonEmptyTxs(EMPTY_FIRST.txEffects) == 1 && !PaddingHasNoLogs(EMPTY_FIRST)
  {
    var txs := EMPTY_FIRST.txEffects;
    OneIsNotZero();
    assert txs[1..] == [txs[1]] && txs[1..][1..] == [];
    assert NonEmptyTxs(txs[1..]) == 1;
    assert LogCount(LogsOr(txs[1].encryptedLogs)) == 1;
  }

  lemma EmptyFirstIsWritable()
    ensures ToBuffer(EMPTY_FIRST).Ok?
  {
    ShortTxs(EMPTY_FIRST.txEffects);
    assert EncryptedLogs(EMPTY_FIRST) == [[], ONE_LOG] && UnencryptedLogs(EMPTY_FIRST) == [[], []];
    ShortLogs();
    Pow2Of32();
  }

  /** This body has the prescribed tuple sizes and can be written, and its own decoder rejects what was written. */
  lemma EmptyFirstIsRejected()
    ensures Proper(EMPTY_FIRST) && ToBuffer(EMPTY_FIRST).Ok?
    ensures Parsed(ToBuffer(EMPTY_FIRST).value) == Err("Logs exist in the padded area")
  {
    EmptyFirstCounts();
    EmptyFirstIsWritable();
    BodyRoundTrip(EMPTY_FIRST, []);
    var bytes := ToBuffer(EMPTY_FIRST).value;
    assert bytes + [] == bytes;
  }
}
