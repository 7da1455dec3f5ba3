/** Field elements over BN254 as integers below the modulus: bit length, conversions, masking, hex. */
module FieldElement {
  import opened Wrappers
  import opened Numbers
  import opened Bits

  const P: nat := 0x30644e72e131a029b85045b68181585d2833e84879b9709143e1f593f0000001

  type Fr = x: nat | x < P witness 0

  lemma Pow2Of125()
    ensures Pow2(125) == 0x2000_0000_0000_0000_0000_0000_0000_0000
  {
    Pow2Of64();
    assert Pow2(64) == 8 * Pow2(61);
    Pow2Add(64, 61);
  }

  lemma ModulusBounds()
    ensures Pow2(253) + Pow2(128) <= P < Pow2(254)
    ensures Pow2(127) < Pow2(128) <= Pow2(253)
  {
    Pow2Of128();
    Pow2Of125();
    Pow2Add(128, 125);
  }

  /** `to_be_bytes`. */
  function ToBeBytes(x: Fr): (r: seq<byte>)
    ensures |r| == 32
  {
    ToBE(x, 32)
  }

  /** `from_be_bytes_reduce`. */
  function FromBeBytesReduce(bytes: seq<byte>): (r: Fr)
  {
    FromBE(bytes) % P
  }

  lemma FitsBytes(x: Fr)
    ensures FromBE(ToBeBytes(x)) == x
  {
    ModulusBounds();
    Pow2Monotone(254, 256);
    BigEndianRoundTrip(x, 32);
  }

  // ---------------------------------------------------------------- bit length

  /** The number a most-significant-first bit list denotes. */
  function BitsValue(bits: seq<bool>): (r: nat)
  {
    if bits == [] then 0 else 2 * BitsValue(bits[..|bits| - 1]) + (if bits[|bits| - 1] then 1 else 0)
  }

  lemma {:induction false} BitsValueConcat(s: seq<bool>, t: seq<bool>)
    ensures BitsValue(s + t) == BitsValue(s) * Pow2(|t|) + BitsValue(t)
  {
    if t == [] {
      assert s + t == s;
    } else {
      var u := t[..|t| - 1];
      assert (s + t)[..|s + t| - 1] == s + u;
      BitsValueConcat(s, u);
      Doubled(BitsValue(s), Pow2(|u|));
    }
  }

  lemma {:induction false} BitsValueBound(s: seq<bool>)
    ensures BitsValue(s) < Pow2(|s|)
  {
    if s != [] {
      BitsValueBound(s[..|s| - 1]);
    }
  }

  /** `byte_to_bit`: eight bits, most significant first. */
  method ByteToBit(b: byte) returns (bits: seq<bool>)
    ensures |bits| == 8 && BitsValue(bits) == b
  {
    bits := [];
    var index := 8;
    UpIsDivision(b, 8);
    Pow2Of8();
    while index > 0
      invariant 0 <= index <= 8 && |bits| == 8 - index
      invariant BitsValue(bits) == Up(b, index)
    {
      index := index - 1;
      AndOneBit(b, index);
      TestBitIsDivision(b, index);
      UpIsDivision(b, index);
      UpStep(b, index);
      var p := Pow2(index);
      DivModUnique(TestBit(b, index) * p, p, TestBit(b, index), 0);
      var bit := Bitwise(BitOp.And, b, p) / p == 1;
      assert (bits + [bit])[..|bits|] == bits;
      bits := bits + [bit];
    }
  }

  /** `bits`: the 256 bits of the big-endian bytes. */
  method BitsOf(x: Fr) returns (bits: seq<bool>)
    ensures |bits| == 256 && BitsValue(bits) == x
  {
    var bytes := ToBeBytes(x);
    bits := [];
    var k := 0;
    while k < |bytes|
      invariant 0 <= k <= |bytes| && |bits| == 8 * k
      invariant BitsValue(bits) == FromBE(bytes[..k])
    {
      var more := ByteToBit(bytes[k]);
      BitsValueConcat(bits, more);
      Pow2Of8();
      assert bytes[..k + 1][..k] == bytes[..k];
      bits := bits + more;
      k := k + 1;
    }
    assert bytes[..k] == bytes;
    FitsBytes(x);
  }

  /** What is left of a bit list after `skip_while(|b| !b)`. */
  function SkipZeros(bits: seq<bool>): (r: seq<bool>)
  {
    if bits == [] || bits[0] then bits else SkipZeros(bits[1..])
  }

  /** k bits are needed to write x. */
  predicate IsBitLength(x: nat, k: nat)
  {
    if x == 0 then k == 0 else k >= 1 && Pow2(k - 1) <= x < Pow2(k)
  }

  lemma BitLengthUnique(x: nat, j: nat, k: nat)
    requires IsBitLength(x, j) && IsBitLength(x, k)
    ensures j == k
  {
    if x > 0 {
      if j < k { Pow2Monotone(j, k - 1); }
      if k < j { Pow2Monotone(k, j - 1); }
    }
  }

  lemma {:induction false} SkipZerosLength(bits: seq<bool>)
    ensures IsBitLength(BitsValue(bits), |SkipZeros(bits)|)
    ensures BitsValue(SkipZeros(bits)) == BitsValue(bits)
  {
    if bits != [] {
      var rest := bits[1..];
      assert bits == bits[..1] + rest;
      BitsValueConcat(bits[..1], rest);
      assert BitsValue(bits[..1]) == if bits[0] then 1 else 0;
      BitsValueBound(rest);
      if !bits[0] {
        SkipZerosLength(rest);
      }
    }
  }

  /** The bit length as a function, for statements. */
  function BitLength(x: nat): (k: nat)
  {
    if x == 0 then 0 else 1 + BitLength(x / 2)
  }

  lemma {:induction false} BitLengthExact(x: nat)
    ensures IsBitLength(x, BitLength(x))
  {
    if x > 0 {
      BitLengthExact(x / 2);
    }
  }

  /** `num_bits`: the unique k with 2^(k-1) <= x < 2^k, and 0 for zero. */
  method NumBits(x: Fr) returns (k: nat)
    ensures IsBitLength(x, k) && k == BitLength(x)
  {
    var bits := BitsOf(x);
    SkipZerosLength(bits);
    k := |SkipZeros(bits)|;
    BitLengthExact(x);
    BitLengthUnique(x, k, BitLength(x));
  }

  lemma BitLengthAtMost(x: nat, k: nat)
    ensures BitLength(x) <= k <==> x < Pow2(k)
  {
    BitLengthExact(x);
    if BitLength(x) <= k {
      Pow2Monotone(BitLength(x), k);
    } else {
      Pow2Monotone(k, BitLength(x) - 1);
    }
  }

  lemma BitLengthOrders(x: nat, y: nat, k: nat)
    requires x < Pow2(k) <= y
    ensures BitLength(x) <= k < BitLength(y)
  {
    BitLengthAtMost(x, k);
    BitLengthAtMost(y, k);
  }

  // ---------------------------------------------------------------- u128 and i128

  /** `to_u128`: the low 16 bytes. */
  function ToU128(x: Fr): (r: nat)
  {
    FromBE(ToBeBytes(x)[16..])
  }

  lemma LowBytes(x: Fr)
    ensures ToU128(x) == x % Pow2(128)
  {
    var bytes := ToBeBytes(x);
    assert bytes == bytes[..16] + bytes[16..];
    BigEndianConcat(bytes[..16], bytes[16..]);
    BigEndianCanonical(bytes[16..]);
    FitsBytes(x);
    DivModUnique(x, Pow2(128), FromBE(bytes[..16]), FromBE(bytes[16..]));
  }

  function TryIntoU128(x: Fr): (r: Option<nat>)
  {
    if BitLength(x) <= 128 then Some(ToU128(x)) else None
  }

  /** The conversion succeeds exactly below 2^128, and then is exact. */
  lemma TryIntoU128Exact(x: Fr)
    ensures TryIntoU128(x) == if x < Pow2(128) then Some(x as nat) else None
  {
    BitLengthAtMost(x, 128);
    LowBytes(x);
    if x < Pow2(128) {
      DivModUnique(x, Pow2(128), 0, x);
    }
  }

  function Neg(x: Fr): (r: Fr)
  {
    if x == 0 then 0 else P - x
  }

  /** `From<i128>`; negating the least i128 overflows. */
  function FromI128(a: int): (r: Result<Fr>)
    requires -0x8000_0000_0000_0000_0000_0000_0000_0000 <= a < 0x8000_0000_0000_0000_0000_0000_0000_0000
  {
    if a == -0x8000_0000_0000_0000_0000_0000_0000_0000 then Err("attempt to negate with overflow")
    else if a < 0 then Ok(Neg(-a % P))
    else Ok(a % P)
  }

  predicate IsNegative(x: Fr)
  {
    BitLength(Neg(x)) < BitLength(x)
  }

  /** Sixteen bytes read as a two's-complement integer. */
  function I128FromBytes(bytes: seq<byte>): (r: int)
  {
    var v := FromBE(bytes);
    if v < Pow2(127) then v else v - Pow2(128)
  }

  function ToI128(x: Fr): (r: Result<int>)
  {
    var magnitude := I128FromBytes(ToBeBytes(if IsNegative(x) then Neg(x) else x)[16..]);
    if !IsNegative(x) then Ok(magnitude)
    else if magnitude == -0x8000_0000_0000_0000_0000_0000_0000_0000 then Err("attempt to multiply with overflow")
    else Ok(-magnitude)
  }

  lemma NegOrders(x: Fr, y: Fr, k: nat)
    requires y == Neg(x) && x == Neg(y) && x < Pow2(k) <= y
    ensures !IsNegative(x) && IsNegative(y)
  {
    BitLengthOrders(x, y, k);
  }

  /** Below 2^127 a non-zero element is non-negative and its negation is negative. */
  lemma SmallMagnitude(x: Fr, y: Fr)
    requires 0 < x < Pow2(127) && y == Neg(x)
    ensures !IsNegative(x) && IsNegative(y)
  {
    ModulusBounds();
    NegOrders(x, y, 253);
  }

  lemma SmallLowBytes(x: Fr)
    requires x < Pow2(127)
    ensures I128FromBytes(ToBeBytes(x)[16..]) == x
  {
    LowBytes(x);
    Pow2Monotone(127, 128);
    DivModUnique(x, Pow2(128), 0, x);
  }

  /** `to_i128` undoes the conversion of every i128 but the least one, which cannot be converted. */
  lemma I128RoundTrip(a: int)
    requires -0x8000_0000_0000_0000_0000_0000_0000_0000 <= a < 0x8000_0000_0000_0000_0000_0000_0000_0000
    ensures FromI128(a).Ok? <==> a != -0x8000_0000_0000_0000_0000_0000_0000_0000
    ensures FromI128(a).Ok? ==> ToI128(FromI128(a).value) == Ok(a)
  {
    ModulusBounds();
    Pow2Of128();
    if FromI128(a).Ok? {
      var x: nat := if a < 0 then -a else a;
      DivModUnique(x, P, 0, x);
      if x > 0 {
        SmallMagnitude(x, Neg(x));
      }
      SmallLowBytes(x);
      if a < 0 {
        assert Neg(Neg(x)) == x;
      }
    }
  }

  // ---------------------------------------------------------------- masking

  function LowBits(b: byte, k: nat): (r: byte)
  {
    RemainderAtMost(b, Pow2(k));
    b % Pow2(k)
  }

  function Less8(n: nat): (r: nat)
  {
    if n >= 8 then n - 8 else 0
  }

  /** The big-endian bytes with everything above the low n bits cleared. */
  function MaskBE(s: seq<byte>, n: nat): (r: seq<byte>)
    ensures |r| == |s|
  {
    if s == [] then []
    else MaskBE(s[..|s| - 1], Less8(n)) + [LowBits(s[|s| - 1], if n >= 8 then 8 else n)]
  }

  /** The low n bits of a number from its low byte and the rest. */
  lemma RemainderAbove(x: nat, b: byte, m: nat)
    requires m > 0
    ensures (x * 256 + b) % (256 * m) == (x % m) * 256 + b
  {
    DivModUnique(x * 256 + b, 256, x, b);
    DivBySplit(x * 256 + b, 256, m);
  }

  lemma RemainderBelow(x: nat, b: byte, k: nat, m: nat)
    requires m > 0 && k * m == 256
    ensures (x * 256 + b) % m == b % m
  {
    Associate(x, k, m);
    MulMod(b, x * k, m);
  }

  lemma WholeByte(b: byte)
    ensures LowBits(b, 8) == b
  {
    Pow2Of8();
  }

  lemma LowBitsSplit(x: nat, b: byte, n: nat)
    ensures (x * 256 + b) % Pow2(n) == (x % Pow2(Less8(n))) * 256 + LowBits(b, if n >= 8 then 8 else n)
  {
    Pow2Of8();
    var v := x * 256 + b;
    if n >= 8 {
      var m := Pow2(n - 8);
      assert Pow2(n) == 256 * m by { Pow2Add(8, n - 8); }
      assert v % (256 * m) == (x % m) * 256 + b by { RemainderAbove(x, b, m); }
      WholeByte(b);
    } else {
      var m := Pow2(n);
      assert v % m == b % m by {
        Pow2Add(8 - n, n);
        RemainderBelow(x, b, Pow2(8 - n), m);
      }
      assert Pow2(Less8(n)) == 1;
    }
  }

  lemma {:induction false} MaskValue(s: seq<byte>, n: nat)
    ensures FromBE(MaskBE(s, n)) == FromBE(s) % Pow2(n)
    decreases |s|
  {
    if s == [] {
      DivModUnique(0, Pow2(n), 0, 0);
    } else {
      assert MaskBE(s, n)[..|s| - 1] == MaskBE(s[..|s| - 1], Less8(n));
      MaskValue(s[..|s| - 1], Less8(n));
      LowBitsSplit(FromBE(s[..|s| - 1]), s[|s| - 1], n);
    }
  }

  /** Byte `index` counted from the least significant end, as the masking loop leaves it. */
  function MaskedByte(b: byte, index: nat, n: nat): (r: byte)
  {
    if index < n / 8 then b
    else if index == n / 8 then LowBits(b, n % 8)
    else 0
  }

  lemma {:induction false} MaskIndex(s: seq<byte>, n: nat, index: nat)
    requires index < |s|
    ensures MaskBE(s, n)[|s| - 1 - index] == MaskedByte(s[|s| - 1 - index], index, n)
    decreases index
  {
    if index == 0 {
      Pow2Of8();
    } else {
      var hi, b := s[..|s| - 1], s[|s| - 1 - index];
      MaskIndex(hi, Less8(n), index - 1);
      assert MaskBE(s, n)[|s| - 1 - index] == MaskBE(hi, Less8(n))[|hi| - 1 - (index - 1)];
      assert LowBits(b, 0) == 0;
    }
  }

  lemma AndIsLowBits(b: byte, k: nat)
    ensures Bitwise(BitOp.And, b, Pow2(k) - 1) == LowBits(b, k)
  {
    AndMask(b, k);
  }

  method Reverse(a: array<byte>)
    modifies a
    ensures forall k :: 0 <= k < a.Length ==> a[k] == old(a[a.Length - 1 - k])
  {
    var i := 0;
    while i < a.Length / 2
      invariant 0 <= i <= a.Length / 2
      invariant forall k :: 0 <= k < a.Length ==>
        a[k] == if k < i || k >= a.Length - i then old(a[a.Length - 1 - k]) else old(a[k])
    {
      a[i], a[a.Length - 1 - i] := a[a.Length - 1 - i], a[i];
      i := i + 1;
    }
  }

  /** The masking loop on the reversed buffer. */
  method MaskReversed(bytes: array<byte>, numBits: nat)
    modifies bytes
    ensures forall k :: 0 <= k < bytes.Length ==> bytes[k] == MaskedByte(old(bytes[k]), k, numBits)
  {
    var maskPower, arrayMaskIndex, index := numBits % 8, numBits / 8, 0;
    while index < bytes.Length
      invariant 0 <= index <= bytes.Length
      invariant forall k :: 0 <= k < index ==> bytes[k] == MaskedByte(old(bytes[k]), k, numBits)
      invariant forall k :: index <= k < bytes.Length ==> bytes[k] == old(bytes[k])
    {
      if index == arrayMaskIndex {
        AndIsLowBits(bytes[index], maskPower);
        bytes[index] := Bitwise(BitOp.And, bytes[index], Pow2(maskPower) - 1);
      } else if index > arrayMaskIndex {
        bytes[index] := 0;
      }
      index := index + 1;
    }
  }

  /** `mask_vector_le`: keeps the low numBits bits of the big-endian buffer, in place. */
  method MaskVectorLe(bytes: array<byte>, numBits: nat)
    modifies bytes
    ensures bytes[..] == MaskBE(old(bytes[..]), numBits)
    ensures FromBE(bytes[..]) == FromBE(old(bytes[..])) % Pow2(numBits)
  {
    ghost var s := bytes[..];
    Reverse(bytes);
    MaskReversed(bytes, numBits);
    Reverse(bytes);
    forall k | 0 <= k < |s|
      ensures bytes[k] == MaskBE(s, numBits)[k]
    {
      MaskIndex(s, numBits, |s| - 1 - k);
    }
    assert bytes[..] == MaskBE(s, numBits);
    MaskValue(s, numBits);
  }

  function ByteOp(op: BitOp, a: byte, b: byte): (r: byte)
  {
    Pow2Of8();
    BitwiseBound(op, a, b, 8);
    Bitwise(op, a, b)
  }

  /** Byte-by-byte application to two buffers of equal length. */
  function ZipBytes(op: BitOp, s: seq<byte>, t: seq<byte>): (r: seq<byte>)
    requires |s| == |t|
    ensures |r| == |s|
  {
    if s == [] then []
    else ZipBytes(op, s[..|s| - 1], t[..|t| - 1]) + [ByteOp(op, s[|s| - 1], t[|t| - 1])]
  }

  lemma BytesSideBySide(op: BitOp, a: nat, x: byte, b: nat, y: byte)
    ensures Bitwise(op, a * 256 + x, b * 256 + y) == Bitwise(op, a, b) * 256 + ByteOp(op, x, y)
  {
    Pow2Of8();
    BitwiseConcat(op, a, x, b, y, 8);
    ShiftedByte(a);
    ShiftedByte(b);
    ShiftedByte(Bitwise(op, a, b));
  }

  lemma {:induction false} ZipValue(op: BitOp, s: seq<byte>, t: seq<byte>)
    requires |s| == |t|
    ensures FromBE(ZipBytes(op, s, t)) == Bitwise(op, FromBE(s), FromBE(t))
  {
    hide Bitwise, Bit;
    if s == [] {
      BitwiseOfZero(op);
    } else {
      var n := |s| - 1;
      assert ZipBytes(op, s, t)[..n] == ZipBytes(op, s[..n], t[..n]);
      ZipValue(op, s[..n], t[..n]);
      BytesSideBySide(op, FromBE(s[..n]), s[n], FromBE(t[..n]), t[n]);
    }
  }

  /** `and_xor`. */
  function AndXor(x: Fr, y: Fr, numBits: nat, isXor: bool): (r: Fr)
  {
    FromBeBytesReduce(ZipBytes(if isXor then BitOp.Xor else BitOp.And,
      MaskBE(ToBeBytes(x), numBits), MaskBE(ToBeBytes(y), numBits)))
  }

  /** `and` is the exact bitwise AND of the operands modulo 2^n; `xor` is their XOR reduced modulo p. */
  lemma AndXorExact(x: Fr, y: Fr, n: nat)
    ensures AndXor(x, y, n, false) == Bitwise(BitOp.And, x % Pow2(n), y % Pow2(n))
    ensures AndXor(x, y, n, true) == Bitwise(BitOp.Xor, x % Pow2(n), y % Pow2(n)) % P
  {
    var a, b := MaskBE(ToBeBytes(x), n), MaskBE(ToBeBytes(y), n);
    MaskValue(ToBeBytes(x), n);
    MaskValue(ToBeBytes(y), n);
    FitsBytes(x);
    FitsBytes(y);
    ZipValue(BitOp.And, a, b);
    ZipValue(BitOp.Xor, a, b);
    AndAtMost(x % Pow2(n), y % Pow2(n));
    RemainderAtMost(x, Pow2(n));
    DivModUnique(FromBE(ZipBytes(BitOp.And, a, b)), P, 0, FromBE(ZipBytes(BitOp.And, a, b)));
  }

  // ---------------------------------------------------------------- hex strings

  function HexChar(v: nat): (c: char)
    requires v < 16
  {
    if v < 10 then ('0' as int + v) as char else ('a' as int + v - 10) as char
  }

  function HexValue(c: char): (r: Option<nat>)
    ensures r.Some? ==> r.value < 16
  {
    if '0' <= c <= '9' then Some(c as int - '0' as int)
    else if 'a' <= c <= 'f' then Some(c as int - 'a' as int + 10)
    else if 'A' <= c <= 'F' then Some(c as int - 'A' as int + 10)
    else None
  }

  function EncodeHex(bytes: seq<byte>): (s: string)
    ensures |s| == 2 * |bytes|
  {
    if bytes == [] then "" else [HexChar(bytes[0] / 16), HexChar(bytes[0] % 16)] + EncodeHex(bytes[1..])
  }

  function DecodeHex(s: string): (r: Option<seq<byte>>)
  {
    if s == "" then Some([])
    else if |s| == 1 then None
    else match (HexValue(s[0]), HexValue(s[1]), DecodeHex(s[2..]))
      case (Some(hi), Some(lo), Some(rest)) => Some([16 * hi + lo] + rest)
      case _ => None
  }

  lemma {:induction false} HexRoundTrip(bytes: seq<byte>)
    ensures DecodeHex(EncodeHex(bytes)) == Some(bytes)
    ensures forall i :: 0 <= i < |EncodeHex(bytes)| ==> EncodeHex(bytes)[i] != 'x'
  {
    if bytes != [] {
      HexRoundTrip(bytes[1..]);
      assert EncodeHex(bytes)[2..] == EncodeHex(bytes[1..]);
      assert bytes == [bytes[0]] + bytes[1..];
    }
  }

  function ToHex(x: Fr): (s: string)
  {
    EncodeHex(ToBeBytes(x))
  }

  function StripPrefix(s: string): (r: string)
  {
    if |s| >= 2 && s[..2] == "0x" then s[2..] else s
  }

  /** `from_hex`: optional 0x, odd lengths padded with a zero digit, then reduced modulo p. */
  function FromHex(s: string): (r: Option<Fr>)
  {
    var value := StripPrefix(s);
    match DecodeHex(if |value| % 2 == 0 then value else "0" + value)
    case Some(bytes) => Some(FromBeBytesReduce(bytes))
    case None => None
  }

  /** Reading back the printed form gives the element, with or without the 0x. */
  lemma HexInverse(x: Fr)
    ensures FromHex(ToHex(x)) == Some(x)
    ensures FromHex("0x" + ToHex(x)) == Some(x)
  {
    var s := ToHex(x);
    HexRoundTrip(ToBeBytes(x));
    FitsBytes(x);
    DivModUnique(x, P, 0, x);
    assert s[..2] != "0x" by { assert s[1] != 'x' && "0x"[1] == 'x'; }
    assert StripPrefix(s) == s;
    assert ("0x" + s)[..2] == "0x" && ("0x" + s)[2..] == s;
  }
}
