/** Powers of two, halving, and the fixed-width byte encodings shared by every codec. */
module Numbers {

  type byte = x: int | 0 <= x < 256

  function Pow2(n: nat): (r: nat)
    ensures r >= 1
  {
    if n == 0 then 1 else 2 * Pow2(n - 1)
  }

  // ---------------------------------------------------------------- products

  lemma MulNonneg(x: int, y: int)
    requires x >= 0 && y >= 0
    ensures x * y >= 0
  {
  }

  lemma Distribute(x: int, y: int, z: int)
    ensures (x - y) * z == x * z - y * z
    ensures (x + y) * z == x * z + y * z
  {
  }

  lemma MulMonotone(x: int, y: int, z: int)
    requires x <= y && 0 <= z
    ensures x * z <= y * z
  {
    MulNonneg(y - x, z);
    Distribute(y, x, z);
  }

  lemma Doubled(x: int, y: int)
    ensures (2 * x) * y == 2 * (x * y) && x * (2 * y) == 2 * (x * y)
  {
  }

  lemma Associate(x: int, y: int, z: int)
    ensures x * y * z == x * (y * z)
  {
  }

  // ---------------------------------------------------------------- powers of two

  lemma {:induction false} Pow2Add(a: nat, b: nat)
    ensures Pow2(a + b) == Pow2(a) * Pow2(b)
  {
    if a > 0 {
      Pow2Add(a - 1, b);
      Doubled(Pow2(a - 1), Pow2(b));
      assert (a - 1) + b == a + b - 1;
    }
  }

  lemma {:induction false} Pow2Monotone(a: nat, b: nat)
    requires a <= b
    ensures Pow2(a) <= Pow2(b)
    ensures a < b ==> 2 * Pow2(a) <= Pow2(b)
    decreases b
  {
    if a < b {
      Pow2Monotone(a, b - 1);
    }
  }

  lemma Pow2Of8()
    ensures Pow2(8) == 0x100
  {
  }

  lemma Pow2Of16()
    ensures Pow2(16) == 0x1_0000
  {
    Pow2Of8();
    Pow2Add(8, 8);
  }

  lemma Pow2Of32()
    ensures Pow2(32) == 0x1_0000_0000
  {
    Pow2Of16();
    Pow2Add(16, 16);
  }

  lemma Pow2Of64()
    ensures Pow2(64) == 0x1_0000_0000_0000_0000
  {
    Pow2Of32();
    Pow2Add(32, 32);
  }

  lemma Pow2Of128()
    ensures Pow2(128) == 0x1_0000_0000_0000_0000_0000_0000_0000_0000
    ensures Pow2(127) == 0x8000_0000_0000_0000_0000_0000_0000_0000
  {
    Pow2Of64();
    Pow2Add(64, 64);
  }

  // ---------------------------------------------------------------- division

  lemma MultipleIsFar(k: int, d: int)
    requires d > 0
    ensures k >= 1 ==> k * d >= d
    ensures k <= -1 ==> k * d <= -d
  {
    if k >= 1 {
      MulMonotone(1, k, d);
    } else if k <= -1 {
      MulMonotone(k, -1, d);
    }
  }

  /** Uniqueness of quotient and remainder: the one fact about division the proofs lean on. */
  lemma DivModUnique(x: int, d: int, q: int, r: int)
    requires 0 < d && 0 <= r < d && x == q * d + r
    ensures x / d == q && x % d == r
  {
    var q', r' := x / d, x % d;
    assert x == q' * d + r' && 0 <= r' < d;
    Distribute(q, q', d);
    MultipleIsFar(q - q', d);
  }

  lemma RemainderAtMost(x: nat, d: nat)
    requires d > 0
    ensures x % d <= x
  {
    if x < d {
      DivModUnique(x, d, 0, x);
    }
  }

  lemma SplitIdentity(x: int, a: int, b: int, q: int, r: int, q2: int, r2: int)
    requires x == q * a + r && q == q2 * b + r2
    ensures x == q2 * (a * b) + (r2 * a + r)
  {
    calc {
      q * a;
      (q2 * b + r2) * a;
      q2 * b * a + r2 * a;
      q2 * (a * b) + r2 * a;
    }
  }

  lemma SplitBound(a: int, b: int, r: int, r2: int)
    requires 0 <= r < a && 0 <= r2 < b
    ensures 0 <= r2 * a + r < a * b
  {
    MulNonneg(r2, a);
    MulMonotone(r2 + 1, b, a);
    Distribute(r2 + 1, 1, a);
    assert 1 * a == a;
  }

  /** Dividing by a product is dividing twice. */
  lemma DivBySplit(x: int, a: nat, b: nat)
    requires a > 0 && b > 0
    ensures a * b > 0
    ensures x / (a * b) == x / a / b
    ensures x % (a * b) == (x / a % b) * a + x % a
  {
    var q, r := x / a, x % a;
    var q2, r2 := q / b, q % b;
    SplitIdentity(x, a, b, q, r, q2, r2);
    SplitBound(a, b, r, r2);
    DivModUnique(x, a * b, q2, r2 * a + r);
  }

  lemma MulMod(x: int, k: int, d: int)
    requires d > 0
    ensures (x + k * d) % d == x % d
    ensures (x + k * d) / d == x / d + k
  {
    var q, r := x / d, x % d;
    Distribute(q, k, d);
    DivModUnique(x + k * d, d, q + k, r);
  }

  /** The low k bits from the lowest bit and the rest. */
  lemma LowBitStep(x: nat, k: nat)
    requires k > 0
    ensures x % Pow2(k) == 2 * (x / 2 % Pow2(k - 1)) + x % 2
  {
    DivBySplit(x, 2, Pow2(k - 1));
  }

  /** `index >>= 1n` repeated k times. */
  function Up(x: nat, k: nat): (r: nat)
  {
    if k == 0 then x else Up(x / 2, k - 1)
  }

  lemma {:induction false} UpStep(x: nat, k: nat)
    ensures Up(x, k + 1) == Up(x, k) / 2
  {
    if k > 0 {
      UpStep(x / 2, k - 1);
    }
  }

  lemma {:induction false} UpIsDivision(x: nat, k: nat)
    ensures Up(x, k) == x / Pow2(k)
  {
    if k > 0 {
      UpIsDivision(x / 2, k - 1);
      DivBySplit(x, 2, Pow2(k - 1));
    }
  }

  lemma {:induction false} UpMonotone(x: nat, y: nat, k: nat)
    requires x <= y
    ensures Up(x, k) <= Up(y, k)
  {
    if k > 0 {
      UpMonotone(x / 2, y / 2, k - 1);
    }
  }

  lemma {:induction false} UpInRange(x: nat, k: nat, d: nat)
    requires k <= d && x < Pow2(d)
    ensures Up(x, k) < Pow2(d - k)
    decreases k
  {
    if k > 0 {
      UpInRange(x / 2, k - 1, d - 1);
    }
  }

  /** First of the 2^k leaves below node x: x * 2^k without a product. */
  function Down(x: nat, k: nat): (r: nat)
    decreases k
  {
    if k == 0 then x else Down(2 * x, k - 1)
  }

  lemma {:induction false} DownNext(x: nat, k: nat)
    ensures Down(x + 1, k) == Down(x, k) + Pow2(k)
    decreases k
  {
    if k > 0 {
      DownNext(2 * x, k - 1);
      DownNext(2 * x + 1, k - 1);
    }
  }

  lemma {:induction false} DownInRange(x: nat, k: nat, l: nat)
    requires x < Pow2(l)
    ensures Down(x, k) + Pow2(k) <= Pow2(l + k)
    decreases k
  {
    if k > 0 {
      DownInRange(2 * x + 1, k - 1, l + 1);
      DownNext(2 * x, k - 1);
      assert (l + 1) + (k - 1) == l + k;
    }
  }

  /** Halving k times inverts `Down`: the leaves whose k-th ancestor is x form one block. */
  lemma {:induction false} UpBlock(j: nat, x: nat, k: nat)
    ensures Up(j, k) == x <==> Down(x, k) <= j < Down(x, k) + Pow2(k)
    decreases k
  {
    if k > 0 {
      UpStep(j, k - 1);
      UpBlock(j, 2 * x, k - 1);
      UpBlock(j, 2 * x + 1, k - 1);
      DownNext(2 * x, k - 1);
    }
  }

  // ---------------------------------------------------------------- byte strings

  /** The number a big-endian byte string denotes. */
  function FromBE(s: seq<byte>): (r: nat)
  {
    if |s| == 0 then 0 else FromBE(s[..|s| - 1]) * 256 + s[|s| - 1]
  }

  /** The low `width` bytes of n in two's complement, most significant first. */
  function ToBE(n: int, width: nat): (r: seq<byte>)
    ensures |r| == width
    decreases width
  {
    if width == 0 then [] else ToBE(n / 256, width - 1) + [n % 256]
  }

  function FromLE(s: seq<byte>): (r: nat)
  {
    if |s| == 0 then 0 else s[0] + 256 * FromLE(s[1..])
  }

  function ToLE(n: nat, width: nat): (r: seq<byte>)
    ensures |r| == width
  {
    if width == 0 then [] else [n % 256] + ToLE(n / 256, width - 1)
  }

  lemma Pow2Plus8(k: nat)
    ensures Pow2(k + 8) == 256 * Pow2(k)
  {
    assert Pow2(k + 8) == 2 * Pow2(k + 7) && Pow2(k + 7) == 2 * Pow2(k + 6);
    assert Pow2(k + 6) == 2 * Pow2(k + 5) && Pow2(k + 5) == 2 * Pow2(k + 4);
    assert Pow2(k + 4) == 2 * Pow2(k + 3) && Pow2(k + 3) == 2 * Pow2(k + 2);
    assert Pow2(k + 2) == 2 * Pow2(k + 1) && Pow2(k + 1) == 2 * Pow2(k);
  }

  lemma Pow2Byte(w: nat)
    requires w > 0
    ensures Pow2(8 * w) == 256 * Pow2(8 * (w - 1))
  {
    Pow2Plus8(8 * (w - 1));
  }

  /** Encoding keeps exactly the value modulo 256^width. */
  lemma {:induction false} BigEndianRoundTrip(n: int, width: nat)
    ensures FromBE(ToBE(n, width)) == n % Pow2(8 * width)
    ensures 0 <= n < Pow2(8 * width) ==> FromBE(ToBE(n, width)) == n
    decreases width
  {
    if width > 0 {
      var r := ToBE(n, width);
      BigEndianRoundTrip(n / 256, width - 1);
      assert r[..width - 1] == ToBE(n / 256, width - 1);
      Pow2Byte(width);
      DivBySplit(n, 256, Pow2(8 * (width - 1)));
    }
    if 0 <= n < Pow2(8 * width) {
      DivModUnique(n, Pow2(8 * width), 0, n);
    }
  }

  lemma {:induction false} LittleEndianRoundTrip(n: nat, width: nat)
    requires n < Pow2(8 * width)
    ensures FromLE(ToLE(n, width)) == n
  {
    if width > 0 {
      Pow2Byte(width);
      LittleEndianRoundTrip(n / 256, width - 1);
      assert ToLE(n, width)[1..] == ToLE(n / 256, width - 1);
    }
  }

  /** Every byte string is the encoding of the number it denotes, so equal values mean equal bytes. */
  lemma {:induction false} BigEndianCanonical(s: seq<byte>)
    ensures FromBE(s) < Pow2(8 * |s|)
    ensures ToBE(FromBE(s), |s|) == s
  {
    if |s| > 0 {
      var p := s[..|s| - 1];
      BigEndianCanonical(p);
      Pow2Byte(|s|);
      DivModUnique(FromBE(s), 256, FromBE(p), s[|s| - 1]);
      assert s == p + [s[|s| - 1]];
    }
  }

  /** A big-endian string splits into its high and low parts. */
  lemma {:induction false} BigEndianConcat(s: seq<byte>, t: seq<byte>)
    ensures FromBE(s + t) == FromBE(s) * Pow2(8 * |t|) + FromBE(t)
  {
    if |t| == 0 {
      assert s + t == s;
    } else {
      var u := t[..|t| - 1];
      BigEndianConcat(s, u);
      assert (s + t)[..|s + t| - 1] == s + u;
      var x, w := FromBE(s), Pow2(8 * |u|);
      Pow2Byte(|t|);
      Associate(x, w, 256);
      Distribute(x * w, FromBE(u), 256);
    }
  }

  // ---------------------------------------------------------------- decimal numerals

  predicate IsDigit(c: char)
  {
    '0' <= c <= '9'
  }

  function Digit(d: nat): (c: char)
    requires d < 10
    ensures IsDigit(c)
  {
    ('0' as int + d) as char
  }

  /** `n.toString()` and Rust's `{}` on an unsigned number. */
  function Decimal(n: nat): (s: string)
    ensures |s| > 0
    ensures forall i :: 0 <= i < |s| ==> IsDigit(s[i])
  {
    if n < 10 then [Digit(n)] else Decimal(n / 10) + [Digit(n % 10)]
  }

  lemma {:induction false} DecimalInjective(a: nat, b: nat)
    requires Decimal(a) == Decimal(b)
    ensures a == b
  {
    var s := Decimal(a);
    assert s[|s| - 1] == Digit(a % 10) == Digit(b % 10);
    if a >= 10 && b >= 10 {
      assert s[..|s| - 1] == Decimal(a / 10) == Decimal(b / 10);
      DecimalInjective(a / 10, b / 10);
    }
  }

  /** Two readings of one text as digits followed by a non-digit: the second cannot be longer. */
  lemma DigitRunNotLonger(u: string, x: string, v: string, y: string)
    requires forall i :: 0 <= i < |v| ==> IsDigit(v[i])
    requires x == [] || !IsDigit(x[0])
    requires u + x == v + y
    ensures |v| <= |u|
  {
    var w := u + x;
    assert forall i :: 0 <= i < |v| ==> w[i] == v[i];
    assert |u| < |w| ==> w[|u|] == x[0];
  }

  /** A numeral ends where the digits end, so a numeral followed by a non-digit reads uniquely. */
  lemma DecimalUniquelyReadable(a: nat, x: string, b: nat, y: string)
    requires x == [] || !IsDigit(x[0])
    requires y == [] || !IsDigit(y[0])
    requires Decimal(a) + x == Decimal(b) + y
    ensures a == b && x == y
  {
    var u, v := Decimal(a), Decimal(b);
    DigitRunNotLonger(u, x, v, y);
    DigitRunNotLonger(v, y, u, x);
    assert u == (u + x)[..|u|] == (v + y)[..|v|] == v;
    assert x == (u + x)[|u|..] == (v + y)[|v|..] == y;
    DecimalInjective(a, b);
  }

  // ---------------------------------------------------------------- sequences

  lemma Regroup<T>(a: seq<T>, b: seq<T>, c: seq<T>, d: seq<T>)
    ensures a + (b + c) + d == a + b + (c + d)
    ensures a + (b + c) + d == (a + b) + c + d
  {
    assert a + (b + c) + d == a + b + (c + d);
  }

  lemma ThreeParts<T>(a: seq<T>, b: seq<T>, c: seq<T>)
    ensures (a + b + c)[..|a|] == a
    ensures (a + b + c)[|a|..|a| + |b|] == b
    ensures (a + b + c)[|a| + |b|..] == c
  {
  }
}
