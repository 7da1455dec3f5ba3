/** The byte-buffer writers and readers of barretenberg's TypeScript bindings. */
module Buffers {
  import opened Wrappers
  import opened Numbers

  // ---------------------------------------------------------------- big integers

  /** `toBufferBE`: fills the buffer from its end, shifting the value right. */
  method ToBufferBE(value: int, byteLength: nat) returns (bytes: array<byte>)
    ensures bytes[..] == ToBE(value, byteLength)
    ensures FromBE(bytes[..]) == value % Pow2(8 * byteLength)
  {
    bytes := new byte[byteLength](_ => 0);
    var rest, i := value, 0;
    while i < byteLength
      invariant 0 <= i <= byteLength
      invariant ToBE(value, byteLength) == ToBE(rest, byteLength - i) + bytes[byteLength - i..]
    {
      bytes[byteLength - i - 1] := rest % 256;
      rest := rest / 256;
      i := i + 1;
      assert bytes[byteLength - i..] == [bytes[byteLength - i]] + bytes[byteLength - i + 1..];
    }
    BigEndianRoundTrip(value, byteLength);
    assert bytes[0..] == bytes[..];
  }

  /** `toBigIntBE`. */
  method ToBigIntBE(bytes: seq<byte>) returns (value: nat)
    ensures value == FromBE(bytes)
    ensures ToBE(value, |bytes|) == bytes
  {
    value := 0;
    for i := 0 to |bytes|
      invariant value == FromBE(bytes[..i])
    {
      assert bytes[..i + 1][..i] == bytes[..i];
      value := value * 256 + bytes[i];
    }
    assert bytes[..|bytes|] == bytes;
    BigEndianCanonical(bytes);
  }

  lemma {:induction false} ByteOf(n: int, width: nat, i: nat)
    requires i < width
    ensures ToBE(n, width)[width - i - 1] == n / Pow2(8 * i) % 256
    decreases width
  {
    if i > 0 {
      ByteOf(n / 256, width - 1, i - 1);
      Pow2Byte(i);
      DivBySplit(n, 256, Pow2(8 * (i - 1)));
    }
  }

  /** `serializeBigInt`: each byte by its own shift. */
  method SerializeBigInt(n: int, width: nat) returns (buf: array<byte>)
    ensures buf[..] == ToBE(n, width)
  {
    buf := new byte[width](_ => 0);
    for i := 0 to width
      invariant forall k {:trigger buf[k]} :: width - i <= k < width ==> buf[k] == ToBE(n, width)[k]
    {
      ByteOf(n, width, i);
      buf[width - i - 1] := n / Pow2(8 * i) % 256;
    }
  }

  /** `deserializeBigInt`; a missing byte throws. */
  method DeserializeBigInt(buf: seq<byte>, offset: nat, width: nat) returns (r: Result<(nat, nat)>)
    ensures r == BigIntAt(buf, offset, width)
  {
    var result: nat := 0;
    for i := 0 to width
      invariant if i == 0 then result == 0 else offset + i <= |buf|
      invariant offset + i <= |buf| ==> result == FromBE(buf[offset..offset + i])
    {
      if offset + i >= |buf| {
        return Err("TypeError");
      }
      assert buf[offset..offset + i + 1][..i] == buf[offset..offset + i];
      result := result * 256 + buf[offset + i];
    }
    r := Ok((result, width));
  }

  // ---------------------------------------------------------------- deserializers

  /** Reads at an offset of a buffer: the element and the number of bytes to advance, or an exception. */
  type Deserializer<T> = (seq<byte>, nat) -> Result<(T, nat)>

  function BigIntAt(buf: seq<byte>, offset: nat, width: nat): (r: Result<(nat, nat)>)
  {
    if width == 0 then Ok((0, 0))
    else if offset + width <= |buf| then Ok((FromBE(buf[offset..offset + width]), width)) else Err("TypeError")
  }

  /** A `DataView` of four bytes; outside the buffer it throws. */
  function NumberAt(buf: seq<byte>, offset: nat): (r: Result<(nat, nat)>)
  {
    if offset + 4 <= |buf| then Ok((FromBE(buf[offset..offset + 4]), 4)) else Err("RangeError")
  }

  /** `slice`, which clips to the buffer. */
  function Slice<T>(s: seq<T>, from: nat, to: nat): (r: seq<T>)
    requires from <= to
  {
    s[if from <= |s| then from else |s|..if to <= |s| then to else |s|]
  }

  function BytesAt(buf: seq<byte>, offset: nat, n: nat): (r: Result<(seq<byte>, nat)>)
  {
    Ok((Slice(buf, offset, offset + n), n))
  }

  /** A byte read as a boolean; the two readers disagree on a missing byte. */
  function BooleanAt(buf: seq<byte>, offset: nat, missing: bool): (r: Result<(bool, nat)>)
  {
    Ok((if offset < |buf| then buf[offset] != 0 else missing, 1))
  }

  /** `deserializeBufferFromVector` and `readBuffer`. */
  function BufferAt(buf: seq<byte>, offset: nat): (r: Result<(seq<byte>, nat)>)
    ensures r.Ok? ==> r.value.1 >= 4
  {
    match NumberAt(buf, offset)
    case Err(e) => Err(e)
    case Ok((length, _)) => Ok((Slice(buf, offset + 4, offset + 4 + length), 4 + length))
  }

  /** Elements one after the other. */
  function ItemsAt<T>(item: Deserializer<T>, size: nat, buf: seq<byte>, offset: nat): (r: Result<(seq<T>, nat)>)
    ensures r.Ok? ==> |r.value.0| == size
    decreases size
  {
    if size == 0 then Ok(([], 0))
    else match item(buf, offset)
      case Err(e) => Err(e)
      case Ok((x, adv)) =>
        (match ItemsAt(item, size - 1, buf, offset + adv)
         case Err(e) => Err(e)
         case Ok((xs, more)) => Ok(([x] + xs, adv + more)))
  }

  /** A 4-byte count and that many elements. */
  function VectorAt<T>(item: Deserializer<T>, buf: seq<byte>, offset: nat): (r: Result<(seq<T>, nat)>)
  {
    match NumberAt(buf, offset)
    case Err(e) => Err(e)
    case Ok((size, _)) =>
      (match ItemsAt(item, size, buf, offset + 4)
       case Err(e) => Err(e)
       case Ok((xs, adv)) => Ok((xs, 4 + adv)))
  }

  /** What is left to read after some elements. */
  function Joined<T>(done: seq<T>, adv: nat, r: Result<(seq<T>, nat)>): (r': Result<(seq<T>, nat)>)
  {
    match r
    case Err(e) => Err(e)
    case Ok((xs, more)) => Ok((done + xs, adv + more))
  }

  /** The reading loop shared by `readVector`, `readArray` and `deserializeArrayFromVector`. */
  method ReadItems<T>(item: Deserializer<T>, size: nat, buf: seq<byte>, offset: nat) returns (r: Result<(seq<T>, nat)>)
    ensures r == ItemsAt(item, size, buf, offset)
  {
    var arr, pos := [], offset;
    ghost var whole := ItemsAt(item, size, buf, offset);
    assert whole.Ok? ==> [] + whole.value.0 == whole.value.0;
    for i := 0 to size
      invariant |arr| == i && pos >= offset
      invariant whole == Joined(arr, pos - offset, ItemsAt(item, size - i, buf, pos))
    {
      match item(buf, pos)
      case Err(e) =>
        return Err(e);
      case Ok((elem, adv)) =>
        ItemsStep(item, size - i, buf, pos, arr, pos - offset);
        arr, pos := arr + [elem], pos + adv;
    }
    assert arr + [] == arr;
    r := Ok((arr, pos - offset));
  }

  lemma ItemsStep<T>(item: Deserializer<T>, size: nat, buf: seq<byte>, pos: nat, arr: seq<T>, done: nat)
    requires size > 0 && item(buf, pos).Ok?
    ensures var (x, adv) := item(buf, pos).value;
      Joined(arr, done, ItemsAt(item, size, buf, pos)) == Joined(arr + [x], done + adv, ItemsAt(item, size - 1, buf, pos + adv))
  {
    var (x, adv) := item(buf, pos).value;
    var rest := ItemsAt(item, size - 1, buf, pos + adv);
    if rest.Ok? {
      assert arr + ([x] + rest.value.0) == (arr + [x]) + rest.value.0;
    }
  }

  /** `deserializeArrayFromVector`. */
  method DeserializeArrayFromVector<T>(deserialize: Deserializer<T>, vector: seq<byte>, offset: nat)
    returns (r: Result<(seq<T>, nat)>)
    ensures r == VectorAt(deserialize, vector, offset)
  {
    var size := NumberAt(vector, offset);
    if size.Err? {
      return Err(size.error);
    }
    r := ReadItems(deserialize, size.value.0, vector, offset + 4);
    if r.Ok? {
      r := Ok((r.value.0, 4 + r.value.1));
    }
  }

  /** The result is the element that was found, and the cursor has moved past it. */
  predicate Moves<T(==)>(found: Result<(T, nat)>, before: nat, after: nat, r: Result<T>)
  {
    match found
    case Ok((x, adv)) => r == Ok(x) && after == before + adv
    case Err(e) => r == Err(e)
  }

  /** A cursor into a buffer. An exception leaves the cursor anywhere. */
  class BufferReader {
    const buffer: seq<byte>
    var index: nat

    constructor (buffer: seq<byte>, offset: nat)
      ensures this.buffer == buffer && index == offset
    {
      this.buffer := buffer;
      index := offset;
    }

    method ReadNumber() returns (r: Result<nat>)
      modifies this
      ensures Moves(NumberAt(buffer, old(index)), old(index), index, r)
    {
      if index + 4 > |buffer| {
        return Err("RangeError");
      }
      index := index + 4;
      r := Ok(FromBE(buffer[index - 4..index]));
    }

    method ReadBoolean() returns (r: Result<bool>)
      modifies this
      ensures Moves(BooleanAt(buffer, old(index), false), old(index), index, r)
    {
      index := index + 1;
      r := Ok(if index - 1 < |buffer| then buffer[index - 1] != 0 else false);
    }

    method ReadBytes(n: nat) returns (r: Result<seq<byte>>)
      modifies this
      ensures r.Ok? && Moves(BytesAt(buffer, old(index), n), old(index), index, r)
    {
      index := index + n;
      r := Ok(Slice(buffer, index - n, index));
    }

    method ReadBuffer() returns (r: Result<seq<byte>>)
      modifies this
      ensures Moves(BufferAt(buffer, old(index)), old(index), index, r)
    {
      var size := ReadNumber();
      if size.Err? {
        return Err(size.error);
      }
      r := ReadBytes(size.value);
    }

    method ReadObject<T>(item: Deserializer<T>) returns (r: Result<T>)
      modifies this
      ensures Moves(item(buffer, old(index)), old(index), index, r)
    {
      match item(buffer, index)
      case Err(e) =>
        r := Err(e);
      case Ok((x, adv)) =>
        index := index + adv;
        r := Ok(x);
    }

    method ReadArray<T>(size: nat, item: Deserializer<T>) returns (r: Result<seq<T>>)
      modifies this
      ensures Moves(ItemsAt(item, size, buffer, old(index)), old(index), index, r)
    {
      var items := ReadItems(item, size, buffer, index);
      match items
      case Err(e) =>
        r := Err(e);
      case Ok((xs, adv)) =>
        index := index + adv;
        r := Ok(xs);
    }

    method ReadVector<T>(item: Deserializer<T>) returns (r: Result<seq<T>>)
      modifies this
      ensures Moves(VectorAt(item, buffer, old(index)), old(index), index, r)
    {
      var size := ReadNumber();
      if size.Err? {
        return Err(size.error);
      }
      r := ReadArray(size.value, item);
    }
  }

  // ---------------------------------------------------------------- encodings that read back

  function Concat<T>(parts: seq<seq<T>>): (r: seq<T>)
  {
    if parts == [] then [] else parts[0] + Concat(parts[1..])
  }

  lemma {:induction false} ConcatAppend<T>(a: seq<seq<T>>, b: seq<seq<T>>)
    ensures Concat(a + b) == Concat(a) + Concat(b)
  {
    if a == [] {
      assert a + b == b;
    } else {
      assert (a + b)[1..] == a[1..] + b;
      ConcatAppend(a[1..], b);
    }
  }

  function TotalLength<T>(parts: seq<seq<T>>): (n: nat)
  {
    if parts == [] then 0 else |parts[0]| + TotalLength(parts[1..])
  }

  lemma {:induction false} ConcatLength<T>(parts: seq<seq<T>>)
    ensures |Concat(parts)| == TotalLength(parts)
  {
    if parts != [] {
      ConcatLength(parts[1..]);
    }
  }

  lemma ConcatSnoc<T>(parts: seq<seq<T>>, i: nat)
    requires i < |parts|
    ensures Concat(parts[..i + 1]) == Concat(parts[..i]) + parts[i]
    ensures |Concat(parts)| >= |Concat(parts[..i + 1])|
  {
    ConcatAppend(parts[..i], [parts[i]]);
    assert parts[..i] + [parts[i]] == parts[..i + 1];
    assert Concat([parts[i]]) == parts[i] + Concat([]);
    ConcatAppend(parts[..i + 1], parts[i + 1..]);
    assert parts[..i + 1] + parts[i + 1..] == parts;
  }

  /** `result.set(array, position)`. */
  method SetAt(result: array<byte>, part: seq<byte>, position: nat)
    requires position + |part| <= result.Length
    modifies result
    ensures result[..position] == old(result[..position]) && result[position..position + |part|] == part
  {
    for k := 0 to |part|
      invariant result[..position] == old(result[..position])
      invariant result[position..position + k] == part[..k]
    {
      result[position + k] := part[k];
    }
  }

  /** `concatenateUint8Arrays`. */
  method ConcatenateUint8Arrays(arrays: seq<seq<byte>>) returns (result: array<byte>)
    ensures result[..] == Concat(arrays)
  {
    ConcatLength(arrays);
    result := new byte[TotalLength(arrays)](_ => 0);
    var length := 0;
    for i := 0 to |arrays|
      invariant length == |Concat(arrays[..i])| <= result.Length
      invariant result[..length] == Concat(arrays[..i])
    {
      ConcatSnoc(arrays, i);
      SetAt(result, arrays[i], length);
      assert result[..length + |arrays[i]|] == result[..length] + result[length..length + |arrays[i]|];
      length := length + |arrays[i]|;
    }
    assert arrays[..|arrays|] == arrays;
  }

  /** The encoding gives the element back at any offset of any buffer, and the advance is its length. */
  ghost predicate Reads<T(!new)>(item: Deserializer<T>, x: T, encoding: seq<byte>)
  {
    forall before: seq<byte>, after: seq<byte> {:trigger item(before + encoding + after, |before|)} ::
      item(before + encoding + after, |before|) == Ok((x, |encoding|))
  }

  /** The number prefix of vectors and buffers: `numToUInt32BE` and `numToInt32BE` keep the low 32 bits. */
  function Prefix(n: nat): (r: seq<byte>)
    ensures |r| == 4
  {
    ToBE(n, 4)
  }

  /** The prefix reads as the number exactly when it fits 32 bits. */
  lemma PrefixReads(n: nat, before: seq<byte>, after: seq<byte>) returns (size: nat)
    ensures NumberAt(before + Prefix(n) + after, |before|) == Ok((size, 4))
    ensures size <= n && (size == n <==> n < Pow2(32))
  {
    ThreeParts(before, Prefix(n), after);
    BigEndianRoundTrip(n, 4);
    RemainderAtMost(n, Pow2(32));
    size := FromBE(Prefix(n));
  }

  lemma {:induction false} ItemsRead<T(!new)>(item: Deserializer<T>, xs: seq<T>, parts: seq<seq<byte>>, before: seq<byte>, after: seq<byte>)
    requires |xs| == |parts| && forall i :: 0 <= i < |xs| ==> Reads(item, xs[i], parts[i])
    ensures ItemsAt(item, |xs|, before + Concat(parts) + after, |before|) == Ok((xs, |Concat(parts)|))
    decreases |xs|
  {
    if xs != [] {
      var rest := Concat(parts[1..]);
      Regroup(before, parts[0], rest, after);
      assert Reads(item, xs[0], parts[0]);
      assert item(before + parts[0] + (rest + after), |before|) == Ok((xs[0], |parts[0]|));
      assert xs == [xs[0]] + xs[1..];
      ItemsRead(item, xs[1..], parts[1..], before + parts[0], after);
    }
  }

  /** A vector of elements that read back reads back itself, wherever it is placed. */
  lemma VectorReads<T(!new)>(item: Deserializer<T>, xs: seq<T>, parts: seq<seq<byte>>, before: seq<byte>, after: seq<byte>)
    requires |xs| == |parts| < Pow2(32) && forall i :: 0 <= i < |xs| ==> Reads(item, xs[i], parts[i])
    ensures VectorAt(item, before + (Prefix(|xs|) + Concat(parts)) + after, |before|) == Ok((xs, 4 + |Concat(parts)|))
  {
    Regroup(before, Prefix(|xs|), Concat(parts), after);
    var size := PrefixReads(|xs|, before, Concat(parts) + after);
    ItemsRead(item, xs, parts, before + Prefix(|xs|), after);
  }
}
