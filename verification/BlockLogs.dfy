/** The log containers of a block and their doubly and triply length-prefixed encoding. */
module BlockLogs {
  import opened Wrappers
  import opened Numbers
  import opened Buffers

  /** Logs of one function invocation, of one transaction, of a block. */
  type FunctionL2Logs = seq<seq<byte>>
  type TxL2Logs = seq<FunctionL2Logs>
  type BlockL2Logs = seq<TxL2Logs>

  /** `getTotalLogCount` of a transaction. */
  function LogCount(t: TxL2Logs): (n: nat)
  {
    if t == [] then 0 else |t[0]| + LogCount(t[1..])
  }

  /** `getTotalLogCount` of a block. */
  function BlockLogCount(l: BlockL2Logs): (n: nat)
  {
    if l == [] then 0 else LogCount(l[0]) + BlockLogCount(l[1..])
  }

  lemma {:induction false} NoLogs(l: BlockL2Logs)
    ensures BlockLogCount(l) == 0 <==> forall i :: 0 <= i < |l| ==> LogCount(l[i]) == 0
  {
    if l != [] {
      NoLogs(l[1..]);
      if BlockLogCount(l) == 0 {
        forall i | 0 <= i < |l|
          ensures LogCount(l[i]) == 0
        {
          assert i > 0 ==> l[i] == l[1..][i - 1];
        }
      }
    }
  }

  // ---------------------------------------------------------------- writing

  /** `prefixBufferWithLength`; `writeUInt32BE` throws on a length that does not fit. */
  function Prefixed(b: seq<byte>): (r: seq<byte>)
    ensures |r| == 4 + |b|
  {
    Prefix(|b|) + b
  }

  /** Buffers, each behind its length. */
  function Prefixes(items: seq<seq<byte>>): (r: seq<seq<byte>>)
    ensures |r| == |items| && forall i :: 0 <= i < |items| ==> r[i] == Prefixed(items[i])
  {
    seq(|items|, i requires 0 <= i < |items| => Prefixed(items[i]))
  }

  function PrefixedAll(items: seq<seq<byte>>): (r: seq<byte>)
  {
    Concat(Prefixes(items))
  }

  predicate AllShort(items: seq<seq<byte>>)
  {
    forall i :: 0 <= i < |items| ==> |items[i]| < Pow2(32)
  }

  /** The contents of a transaction's logs: one buffer for each function. */
  function FunctionBodies(t: TxL2Logs): (r: seq<seq<byte>>)
    ensures |r| == |t| && forall i :: 0 <= i < |t| ==> r[i] == PrefixedAll(t[i])
  {
    seq(|t|, i requires 0 <= i < |t| => PrefixedAll(t[i]))
  }

  function TxBody(t: TxL2Logs): (r: seq<byte>)
  {
    PrefixedAll(FunctionBodies(t))
  }

  function TxBodies(l: BlockL2Logs): (r: seq<seq<byte>>)
    ensures |r| == |l| && forall i :: 0 <= i < |l| ==> r[i] == TxBody(l[i])
  {
    seq(|l|, i requires 0 <= i < |l| => TxBody(l[i]))
  }

  function BlockLogBody(l: BlockL2Logs): (r: seq<byte>)
  {
    PrefixedAll(TxBodies(l))
  }

  /** `L2BlockL2Logs.toBuffer`. */
  function LogBytes(l: BlockL2Logs): (r: seq<byte>)
  {
    Prefixed(BlockLogBody(l))
  }

  /** Every length that is written fits 32 bits. */
  predicate WritableTx(t: TxL2Logs)
  {
    AllShort(FunctionBodies(t)) && forall i :: 0 <= i < |t| ==> AllShort(t[i])
  }

  predicate Writable(l: BlockL2Logs)
  {
    |BlockLogBody(l)| < Pow2(32) && AllShort(TxBodies(l)) && forall i :: 0 <= i < |l| ==> WritableTx(l[i])
  }

  // ---------------------------------------------------------------- reading

  /** Elements until the end is reached, which must be hit exactly; an element takes at least one byte. */
  function ItemsUntil<T>(item: Deserializer<T>, buf: seq<byte>, index: nat, end: nat): (r: Result<seq<T>>)
    decreases if index < end then end - index else 0
  {
    if index == end then Ok([])
    else if index > end then Err("Reader buffer was not fully consumed")
    else match item(buf, index)
      case Err(e) => Err(e)
      case Ok((x, adv)) =>
        if adv == 0 then Err("no progress")
        else
          (match ItemsUntil(item, buf, index + adv, end)
           case Err(e) => Err(e)
           case Ok(xs) => Ok([x] + xs))
  }

  /** `readBufferArray`: each buffer takes at least the four bytes of its length. */
  function BufferArrayAt(buf: seq<byte>, index: nat, end: nat): (r: Result<seq<seq<byte>>>)
  {
    ItemsUntil(BufferAt, buf, index, end)
  }

  /** `FunctionL2Logs.fromBuffer(buf, false)`. */
  function FunctionLogsOf(b: seq<byte>): (r: Result<FunctionL2Logs>)
  {
    BufferArrayAt(b, 0, |b|)
  }

  function Mapped<S, T>(f: S -> Result<T>, xs: seq<S>): (r: Result<seq<T>>)
  {
    if xs == [] then Ok([])
    else match f(xs[0])
      case Err(e) => Err(e)
      case Ok(y) =>
        (match Mapped(f, xs[1..])
         case Err(e) => Err(e)
         case Ok(ys) => Ok([y] + ys))
  }

  /** `TxL2Logs.fromBuffer(buf, false)`. */
  function TxLogsOf(b: seq<byte>): (r: Result<TxL2Logs>)
  {
    match BufferArrayAt(b, 0, |b|)
    case Err(e) => Err(e)
    case Ok(bodies) => Mapped(FunctionLogsOf, bodies)
  }

  /** A length, that many bytes of elements, and a conversion of each. */
  function PrefixedItemsAt<S, T>(item: Deserializer<S>, convert: S -> Result<T>, buf: seq<byte>, offset: nat): (r: Result<(seq<T>, nat)>)
  {
    var length :- NumberAt(buf, offset);
    var bodies :- ItemsUntil(item, buf, offset + 4, offset + 4 + length.0);
    var l :- Mapped(convert, bodies);
    Ok((l, 4 + length.0))
  }

  /** `L2BlockL2Logs.fromBuffer`. */
  function LogsAt(buf: seq<byte>, offset: nat): (r: Result<(BlockL2Logs, nat)>)
  {
    PrefixedItemsAt(BufferAt, TxLogsOf, buf, offset)
  }

  // ---------------------------------------------------------------- round trip

  lemma PrefixedReads(b: seq<byte>, before: seq<byte>, after: seq<byte>)
    requires |b| < Pow2(32)
    ensures BufferAt(before + Prefixed(b) + after, |before|) == Ok((b, 4 + |b|))
  {
    Regroup(before, Prefix(|b|), b, after);
    var size := PrefixReads(|b|, before, b + after);
    ThreeParts(before + Prefix(|b|), b, after);
  }

  ghost predicate ReadEach<T(!new)>(item: Deserializer<T>, xs: seq<T>, parts: seq<seq<byte>>)
  {
    |xs| == |parts| && forall i :: 0 <= i < |xs| ==> parts[i] != [] && Reads(item, xs[i], parts[i])
  }

  lemma {:induction false} ItemsUntilEnd<T(!new)>(
    item: Deserializer<T>, xs: seq<T>, parts: seq<seq<byte>>, before: seq<byte>, after: seq<byte>)
    requires ReadEach(item, xs, parts)
    ensures ItemsUntil(item, before + Concat(parts) + after, |before|, |before| + |Concat(parts)|) == Ok(xs)
    decreases |xs|
  {
    if xs != [] {
      var rest := Concat(parts[1..]);
      Regroup(before, parts[0], rest, after);
      assert Reads(item, xs[0], parts[0]);
      assert item(before + parts[0] + (rest + after), |before|) == Ok((xs[0], |parts[0]|));
      ItemsUntilEnd(item, xs[1..], parts[1..], before + parts[0], after);
      assert xs == [xs[0]] + xs[1..];
    }
  }

  lemma ItemsUntilEndAt<T(!new)>(
    item: Deserializer<T>, xs: seq<T>, parts: seq<seq<byte>>, before: seq<byte>, after: seq<byte>, buf: seq<byte>, start: nat, end: nat)
    requires ReadEach(item, xs, parts)
    requires buf == before + Concat(parts) + after && start == |before| && end == start + |Concat(parts)|
    ensures ItemsUntil(item, buf, start, end) == Ok(xs)
  {
    ItemsUntilEnd(item, xs, parts, before, after);
  }

  lemma ShortReads(b: seq<byte>)
    requires |b| < Pow2(32)
    ensures Reads(BufferAt, b, Prefixed(b))
  {
    forall before: seq<byte>, after: seq<byte>
      ensures BufferAt(before + Prefixed(b) + after, |before|) == Ok((b, |Prefixed(b)|))
    {
      PrefixedReads(b, before, after);
    }
  }

  lemma WholeBufferReads(items: seq<seq<byte>>)
    requires AllShort(items)
    ensures BufferArrayAt(PrefixedAll(items), 0, |PrefixedAll(items)|) == Ok(items)
  {
    PrefixesRead(items);
    ItemsUntilEnd(BufferAt, items, Prefixes(items), [], []);
    assert [] + PrefixedAll(items) + [] == PrefixedAll(items);
  }

  lemma {:induction false} MappedAll<S, T>(f: S -> Result<T>, xs: seq<S>, ys: seq<T>)
    requires |xs| == |ys| && forall i :: 0 <= i < |xs| ==> f(xs[i]) == Ok(ys[i])
    ensures Mapped(f, xs) == Ok(ys)
    decreases |xs|
  {
    if xs != [] {
      MappedAll(f, xs[1..], ys[1..]);
      assert ys == [ys[0]] + ys[1..];
    } else {
      assert ys == [];
    }
  }

  lemma TxLogsRoundTrip(t: TxL2Logs)
    requires WritableTx(t)
    ensures TxLogsOf(TxBody(t)) == Ok(t)
  {
    var bodies := FunctionBodies(t);
    WholeBufferReads(bodies);
    forall i | 0 <= i < |t|
      ensures FunctionLogsOf(bodies[i]) == Ok(t[i])
    {
      WholeBufferReads(t[i]);
    }
    MappedAll(FunctionLogsOf, bodies, t);
  }

  lemma TxBodiesRead(l: BlockL2Logs)
    requires forall i :: 0 <= i < |l| ==> WritableTx(l[i])
    ensures Mapped(TxLogsOf, TxBodies(l)) == Ok(l)
  {
    var bodies := TxBodies(l);
    forall i | 0 <= i < |l|
      ensures TxLogsOf(bodies[i]) == Ok(l[i])
    {
      TxLogsRoundTrip(l[i]);
    }
    MappedAll(TxLogsOf, bodies, l);
  }

  lemma PrefixedItemsRead<S(!new), T>(
    item: Deserializer<S>, convert: S -> Result<T>, xs: seq<S>, parts: seq<seq<byte>>, ys: seq<T>,
    body: seq<byte>, before: seq<byte>, after: seq<byte>)
    requires ReadEach(item, xs, parts) && body == Concat(parts)
    requires |body| < Pow2(32) && Mapped(convert, xs) == Ok(ys)
    ensures PrefixedItemsAt(item, convert, before + Prefixed(body) + after, |before|) == Ok((ys, 4 + |body|))
  {
    hide Concat, ReadEach, Mapped, Prefix, Pow2;
    var buf := (before + Prefix(|body|)) + body + after;
    LengthAndBody(body, before, after);
    ItemsAfterLength(item, xs, parts, before, after, buf);
    PrefixedItemsChain(item, convert, buf, |before|, |body|, xs, ys);
  }

  lemma ItemsAfterLength<T(!new)>(
    item: Deserializer<T>, xs: seq<T>, parts: seq<seq<byte>>, before: seq<byte>, after: seq<byte>, buf: seq<byte>)
    requires ReadEach(item, xs, parts) && buf == (before + Prefix(|Concat(parts)|)) + Concat(parts) + after
    ensures ItemsUntil(item, buf, |before| + 4, |before| + 4 + |Concat(parts)|) == Ok(xs)
  {
    var n := |Concat(parts)|;
    ItemsUntilEndAt(item, xs, parts, before + Prefix(n), after, buf, |before| + 4, |before| + 4 + n);
  }

  lemma LengthAndBody(body: seq<byte>, before: seq<byte>, after: seq<byte>)
    requires |body| < Pow2(32)
    ensures NumberAt(before + Prefixed(body) + after, |before|) == Ok((|body|, 4))
    ensures before + Prefixed(body) + after == (before + Prefix(|body|)) + body + after
  {
    Regroup(before, Prefix(|body|), body, after);
    var size := PrefixReads(|body|, before, body + after);
  }

  lemma PrefixedItemsChain<S, T>(
    item: Deserializer<S>, convert: S -> Result<T>, buf: seq<byte>, offset: nat, length: nat, xs: seq<S>, ys: seq<T>)
    requires NumberAt(buf, offset) == Ok((length, 4)) && ItemsUntil(item, buf, offset + 4, offset + 4 + length) == Ok(xs)
    requires Mapped(convert, xs) == Ok(ys)
    ensures PrefixedItemsAt(item, convert, buf, offset) == Ok((ys, 4 + length))
  {
  }

  lemma PrefixesRead(items: seq<seq<byte>>)
    requires AllShort(items)
    ensures ReadEach(BufferAt, items, Prefixes(items))
  {
    forall i | 0 <= i < |items|
      ensures Prefixes(items)[i] != [] && Reads(BufferAt, items[i], Prefixes(items)[i])
    {
      ShortReads(items[i]);
    }
  }

  /** Logs written at any place of a buffer read back, through all three levels of prefixes. */
  lemma LogsRoundTrip(l: BlockL2Logs, before: seq<byte>, after: seq<byte>)
    requires Writable(l)
    ensures LogsAt(before + LogBytes(l) + after, |before|) == Ok((l, |LogBytes(l)|))
  {
    var bodies := TxBodies(l);
    PrefixesRead(bodies);
    TxBodiesRead(l);
    PrefixedItemsRead(BufferAt, TxLogsOf, bodies, Prefixes(bodies), l, BlockLogBody(l), before, after);
  }
}
