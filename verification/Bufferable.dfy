/** `serializeBufferable` on nested values, read back by the deserializers of the same file. */
module Bufferable {
  import opened Wrappers
  import opened Numbers
  import opened Buffers

  /** The things that can be written; a raw buffer is written without a length. */
  datatype Value =
    | Boolean(b: bool)
    | Number(n: nat)
    | BigInt(i: int)
    | Bytes(bytes: seq<byte>)
    | Raw(raw: seq<byte>)
    | Array(items: seq<Value>)

  function SerializeBufferable(v: Value): (r: seq<byte>)
  {
    match v
    case Boolean(b) => [if b then 1 else 0]
    case Number(n) => Prefix(n)
    case BigInt(i) => ToBE(i, 32)
    case Bytes(bytes) => Prefix(|bytes|) + bytes
    case Raw(raw) => raw
    case Array(items) =>
      Prefix(|items|) + Concat(seq(|items|, k requires 0 <= k < |items| => SerializeBufferable(items[k])))
  }

  function Parts(items: seq<Value>): (r: seq<seq<byte>>)
    ensures |r| == |items| && forall k :: 0 <= k < |items| ==> r[k] == SerializeBufferable(items[k])
  {
    seq(|items|, k requires 0 <= k < |items| => SerializeBufferable(items[k]))
  }

  /** Which deserializer to use; arrays take the one of their elements. */
  datatype Shape = BooleanShape | NumberShape | BigIntShape | BytesShape | RawShape(length: nat) | ArrayShape(item: Shape)

  function Wrapped<T>(r: Result<(T, nat)>, wrap: T -> Value): (r': Result<(Value, nat)>)
  {
    match r
    case Err(e) => Err(e)
    case Ok((x, adv)) => Ok((wrap(x), adv))
  }

  function ItemReader(item: Shape): (r: Deserializer<Value>)
    decreases item, 1
  {
    (b, o) => Deserialize(item, b, o)
  }

  function AsArray(r: Result<(seq<Value>, nat)>): (r': Result<(Value, nat)>)
  {
    match r
    case Err(e) => Err(e)
    case Ok((xs, adv)) => Ok((Array(xs), adv))
  }

  function Deserialize(shape: Shape, buf: seq<byte>, offset: nat): (r: Result<(Value, nat)>)
    decreases shape, 0
  {
    match shape
    case BooleanShape => Wrapped(BooleanAt(buf, offset, true), b => Boolean(b))
    case NumberShape => Wrapped(NumberAt(buf, offset), n => Number(n))
    case BigIntShape => Wrapped(BigIntAt(buf, offset, 32), n => BigInt(n))
    case BytesShape => Wrapped(BufferAt(buf, offset), b => Bytes(b))
    case RawShape(length) => Wrapped(BytesAt(buf, offset, length), b => Raw(b))
    case ArrayShape(item) => AsArray(VectorAt(ItemReader(item), buf, offset))
  }

  /** The value is of the kind the shape reads. */
  predicate HasShape(v: Value, shape: Shape)
  {
    match shape
    case BooleanShape => v.Boolean?
    case NumberShape => v.Number?
    case BigIntShape => v.BigInt?
    case BytesShape => v.Bytes?
    case RawShape(length) => v.Raw? && |v.raw| == length
    case ArrayShape(item) => v.Array? && forall k :: 0 <= k < |v.items| ==> HasShape(v.items[k], item)
  }

  /** Every number fits 32 bits, every big integer 256 bits without a sign, and every length 32 bits. */
  predicate InRange(v: Value)
  {
    match v
    case Number(n) => n < Pow2(32)
    case BigInt(i) => 0 <= i < Pow2(256)
    case Bytes(bytes) => |bytes| < Pow2(32)
    case Array(items) => |items| < Pow2(32) && forall k :: 0 <= k < |items| ==> InRange(items[k])
    case _ => true
  }

  /** The element comes back, with its advance, exactly when the condition holds. */
  predicate BackIff<T(==)>(r: Result<(T, nat)>, x: T, adv: nat, condition: bool)
  {
    if condition then r == Ok((x, adv)) else r.Err? || r.value.0 != x
  }

  lemma BytesRead(bytes: seq<byte>, before: seq<byte>, after: seq<byte>)
    ensures var r := BufferAt(before + (Prefix(|bytes|) + bytes) + after, |before|);
      && r.Ok? && (|r.value.0| == |bytes| ==> |bytes| < Pow2(32))
      && (|bytes| < Pow2(32) ==> r.value == (bytes, 4 + |bytes|))
  {
    hide Prefix, Pow2;
    Regroup(before, Prefix(|bytes|), bytes, after);
    var size := PrefixReads(|bytes|, before, bytes + after);
    ThreeParts(before + Prefix(|bytes|), bytes, after);
  }

  lemma BigIntReads(i: int, before: seq<byte>, after: seq<byte>)
    ensures BigIntAt(before + ToBE(i, 32) + after, |before|, 32) == Ok((i % Pow2(256), 32))
    ensures i % Pow2(256) == i <==> 0 <= i < Pow2(256)
  {
    ThreeParts(before, ToBE(i, 32), after);
    BigEndianRoundTrip(i, 32);
  }

  lemma BooleanReads(b: bool, before: seq<byte>, after: seq<byte>)
    ensures BooleanAt(before + [if b then 1 else 0] + after, |before|, true) == Ok((b, 1))
  {
  }

  lemma FlatRoundTrip(shape: Shape, v: Value, before: seq<byte>, after: seq<byte>)
    requires HasShape(v, shape) && !shape.ArrayShape?
    ensures BackIff(Deserialize(shape, before + SerializeBufferable(v) + after, |before|), v, |SerializeBufferable(v)|, InRange(v))
  {
    hide Pow2, Prefix;
    match v
    case Number(n) =>
      var size := PrefixReads(n, before, after);
    case BigInt(i) =>
      BigIntReads(i, before, after);
    case Bytes(bytes) =>
      BytesRead(bytes, before, after);
    case Boolean(b) =>
      BooleanReads(b, before, after);
    case Raw(raw) =>
      ThreeParts(before, raw, after);
  }

  predicate AllInRange(items: seq<Value>)
  {
    forall k :: 0 <= k < |items| ==> InRange(items[k])
  }

  lemma AllInRangeSplits(items: seq<Value>)
    requires items != []
    ensures AllInRange(items) <==> InRange(items[0]) && AllInRange(items[1..])
  {
    if AllInRange(items[1..]) && InRange(items[0]) {
      forall k | 0 <= k < |items|
        ensures InRange(items[k])
      {
        assert k > 0 ==> items[k] == items[1..][k - 1];
      }
    }
  }

  lemma FirstThenRest<T>(
    item: Deserializer<T>, buf: seq<byte>, offset: nat, x: T, adv: nat, first: bool, xs: seq<T>, more: nat, rest: bool)
    requires BackIff(item(buf, offset), x, adv, first)
    requires BackIff(ItemsAt(item, |xs|, buf, offset + adv), xs, more, rest)
    ensures BackIff(ItemsAt(item, 1 + |xs|, buf, offset), [x] + xs, adv + more, first && rest)
  {
    var r := ItemsAt(item, 1 + |xs|, buf, offset);
    if r.Ok? && r.value.0 == [x] + xs {
      assert r.value.0[0] == x && r.value.0[1..] == xs;
    }
  }

  lemma FirstThenRestAt<T>(
    item: Deserializer<T>, x: T, first: bool, p: seq<byte>, xs: seq<T>, rest: seq<byte>, good: bool, before: seq<byte>, after: seq<byte>)
    requires BackIff(item(before + p + (rest + after), |before|), x, |p|, first)
    requires BackIff(ItemsAt(item, |xs|, (before + p) + rest + after, |before + p|), xs, |rest|, good)
    ensures BackIff(ItemsAt(item, 1 + |xs|, before + (p + rest) + after, |before|), [x] + xs, |p + rest|, first && good)
  {
    Regroup(before, p, rest, after);
    FirstThenRest(item, before + (p + rest) + after, |before|, x, |p|, first, xs, |rest|, good);
  }

  /** Reading stops being right at the first element that does not come back. */
  lemma {:induction false} ItemsRoundTrip(item: Shape, items: seq<Value>, before: seq<byte>, after: seq<byte>)
    requires forall k :: 0 <= k < |items| ==> HasShape(items[k], item)
    ensures BackIff(ItemsAt(ItemReader(item), |items|, before + Concat(Parts(items)) + after, |before|),
      items, |Concat(Parts(items))|, AllInRange(items))
    decreases item, 1, |items|
  {
    if items != [] {
      var x, xs, p := items[0], items[1..], SerializeBufferable(items[0]);
      var rest := Concat(Parts(xs));
      assert Concat(Parts(items)) == p + rest by {
        assert Parts(items)[1..] == Parts(xs);
      }
      assert items == [x] + xs;
      RoundTrip(item, x, before, rest + after);
      ItemsRoundTrip(item, xs, before + p, after);
      AllInRangeSplits(items);
      FirstThenRestAt(ItemReader(item), x, InRange(x), p, xs, rest, AllInRange(xs), before, after);
    }
  }

  /** Whatever the nesting and wherever in a buffer: a value comes back exactly when all its numbers and lengths are in
      range, and then the cursor advances by exactly the bytes written. */
  lemma {:induction false} RoundTrip(shape: Shape, v: Value, before: seq<byte>, after: seq<byte>)
    requires HasShape(v, shape)
    ensures BackIff(Deserialize(shape, before + SerializeBufferable(v) + after, |before|), v, |SerializeBufferable(v)|, InRange(v))
    decreases shape, 0, 0
  {
    if shape.ArrayShape? {
      ArrayRoundTrip(shape.item, v.items, before, after);
    } else {
      FlatRoundTrip(shape, v, before, after);
    }
  }

  /** The vector comes back exactly when the count fits 32 bits and the elements come back. */
  lemma CountThenItems<T>(item: Deserializer<T>, buf: seq<byte>, offset: nat, size: nat, xs: seq<T>, adv: nat, good: bool)
    requires NumberAt(buf, offset) == Ok((size, 4))
    requires size == |xs| ==> BackIff(ItemsAt(item, |xs|, buf, offset + 4), xs, adv, good)
    ensures BackIff(VectorAt(item, buf, offset), xs, 4 + adv, size == |xs| && good)
  {
  }

  lemma ArrayBack(r: Result<(seq<Value>, nat)>, items: seq<Value>, adv: nat, good: bool)
    requires BackIff(r, items, adv, good)
    ensures BackIff(AsArray(r), Array(items), adv, good)
  {
  }

  lemma {:induction false} VectorRoundTrip(item: Shape, items: seq<Value>, before: seq<byte>, after: seq<byte>)
    requires forall k :: 0 <= k < |items| ==> HasShape(items[k], item)
    ensures BackIff(VectorAt(ItemReader(item), before + (Prefix(|items|) + Concat(Parts(items))) + after, |before|),
      items, 4 + |Concat(Parts(items))|, |items| < Pow2(32) && AllInRange(items))
    decreases item, 2, 0
  {
    var n, body := |items|, Concat(Parts(items));
    Regroup(before, Prefix(n), body, after);
    var size := PrefixReads(n, before, body + after);
    ItemsRoundTrip(item, items, before + Prefix(n), after);
    CountThenItems(ItemReader(item), before + (Prefix(n) + body) + after, |before|, size, items, |body|, AllInRange(items));
  }

  lemma {:induction false} ArrayRoundTrip(item: Shape, items: seq<Value>, before: seq<byte>, after: seq<byte>)
    requires HasShape(Array(items), ArrayShape(item))
    ensures BackIff(Deserialize(ArrayShape(item), before + SerializeBufferable(Array(items)) + after, |before|),
      Array(items), |SerializeBufferable(Array(items))|, InRange(Array(items)))
    decreases item, 3, 0
  {
    var body := Concat(Parts(items));
    VectorRoundTrip(item, items, before, after);
    assert SerializeBufferable(Array(items)) == Prefix(|items|) + body;
    ArrayBack(VectorAt(ItemReader(item), before + (Prefix(|items|) + body) + after, |before|),
      items, 4 + |body|, |items| < Pow2(32) && AllInRange(items));
  }
}
