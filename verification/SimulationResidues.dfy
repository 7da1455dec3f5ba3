/** Residues of one number modulo two powers of two, or modulo a power of two and p, and quotients of residues. */
module SimulationResidues {
  import opened Numbers
  import opened FieldElement
  import Ints = BrilligArithmetic
  import B = Brillig
  import opened Simulation

  // ---------------------------------------------------------------- residues of one number

  /** The bits between the two widths are zero. */
  predicate SameWrap(z: nat, w: nat, n: nat)
  {
    if w <= n then z % Pow2(n) < Pow2(w) else z % Pow2(w) < Pow2(n)
  }

  /** The residue modulo p has n bits, and the quotient has none of the low n bits. */
  predicate SameFieldWrap(z: nat, n: nat)
  {
    z % P < Pow2(n) && (z / P) % Pow2(n) == 0
  }

  lemma ResidueOfResidue(z: nat, w: nat, n: nat)
    requires w <= n
    ensures z % Pow2(n) % Pow2(w) == z % Pow2(w)
  {
    var a, b := Pow2(w), Pow2(n - w);
    Pow2Add(w, n - w);
    DivBySplit(z, a, b);
    MulMod(z % a, z / a % b, a);
    SameResidue(z % a, a);
  }

  lemma ShorterResidue(z: nat, w: nat, n: nat)
    requires w <= n
    ensures z % Pow2(w) == z % Pow2(n) <==> z % Pow2(n) < Pow2(w)
  {
    ResidueOfResidue(z, w, n);
    if z % Pow2(n) < Pow2(w) {
      SameResidue(z % Pow2(n), Pow2(w));
    }
  }

  lemma WrapExact(z: nat, w: nat, n: nat)
    ensures z % Pow2(w) == z % Pow2(n) <==> SameWrap(z, w, n)
  {
    if w <= n {
      ShorterResidue(z, w, n);
    } else {
      ShorterResidue(z, n, w);
    }
  }

  lemma OddProduct(q: nat, k: nat, odd: nat)
    requires odd % 2 == 1 && q * odd == 2 * k
    ensures q % 2 == 0
  {
    var h := odd / 2;
    Distribute(2 * h, -1, q);
    Doubled(h, q);
    assert q * odd == 2 * (h * q) + q;
  }

  /** An odd factor does not help a power of two to divide. */
  lemma {:induction false} OddFactor(q: nat, k: nat, n: nat, odd: nat)
    requires odd % 2 == 1 && q * odd == k * Pow2(n)
    ensures q % Pow2(n) == 0
    decreases n
  {
    if n > 0 {
      Doubled(k, Pow2(n - 1));
      OddProduct(q, k * Pow2(n - 1), odd);
      var half := q / 2;
      Doubled(half, odd);
      OddFactor(half, k, n - 1, odd);
      var j := half / Pow2(n - 1);
      Doubled(j, Pow2(n - 1));
      DivModUnique(q, Pow2(n), j, 0);
    }
  }

  lemma FieldWrapExact(z: nat, n: nat)
    ensures z % P == z % Pow2(n) <==> SameFieldWrap(z, n)
  {
    var m := Pow2(n);
    var q, r := z / P, z % P;
    assert z == q * P + r;
    if r < m && q % m == 0 {
      var j := q / m;
      assert q == j * m;
      ProductOrder(j, m, P);
      DivModUnique(z, m, j * P, r);
    } else if r == z % m {
      var j := z / m;
      assert q * P == j * m;
      OddFactor(q, j, n, P);
    }
  }

  lemma ProductOrder(x: int, y: int, z: int)
    ensures (x * y) * z == (x * z) * y
  {
    Associate(x, y, z);
    Associate(x, z, y);
  }

  lemma SmallFieldSum(z: nat, n: nat)
    requires z < P
    ensures SameFieldWrap(z, n) <==> z < Pow2(n)
  {
    DivModUnique(z, P, 0, z);
    SameResidue(0, Pow2(n));
  }

  lemma LargeFieldSum(z: nat, n: nat)
    requires P <= z < 2 * P && n >= 1
    ensures !SameFieldWrap(z, n)
  {
    DivModUnique(z, P, 1, z - P);
    assert Pow2(n) == 2 * Pow2(n - 1);
    SameResidue(1, Pow2(n));
  }

  /** A sum of two field elements has the same residue modulo p and 2^n only if it is small. */
  lemma FieldSumExact(z: nat, n: nat)
    requires 1 <= n <= 128 && z < 2 * P
    ensures z % P == z % Pow2(n) <==> z < Pow2(n)
  {
    FieldWrapExact(z, n);
    if z < P {
      SmallFieldSum(z, n);
    } else {
      LargeFieldSum(z, n);
      PowerBelowP(n);
    }
  }

  /** A sum of two words has the same residue modulo 2^w and p only if it does not wrap. */
  lemma WordSumExact(x: nat, y: nat, w: nat)
    requires w <= 128 && x < Pow2(128) && y < Pow2(128)
    ensures (x + y) % Pow2(w) == (x + y) % P <==> x + y < Pow2(w)
  {
    ModulusBounds();
    Pow2Of128();
    SameResidue(x + y, P);
    if x + y < Pow2(w) {
      SameResidue(x + y, Pow2(w));
    }
  }

  // ---------------------------------------------------------------- quotients

  /** Where reducing dividend and divisor modulo m does not change the quotient; only for two operands of at least m
      does this depend on the quotients themselves. */
  predicate SameQuotient(x: nat, y: nat, m: nat)
    requires m > 0 && y % m != 0
  {
    if y < m then x < m
    else if x < m then x < y % m
    else y != 0 && x / y == (x % m) / (y % m)
  }

  lemma LargerQuotient(x: nat, r: nat, y: nat)
    requires y > 0 && x >= r + y
    ensures x / y > r / y
  {
    var q := r / y;
    assert x < (x / y) * y + y && q * y <= r;
    if x / y <= q {
      MulMonotone(x / y, q, y);
    }
  }

  lemma QuotientExact(x: nat, y: nat, m: nat)
    requires m > 0 && y % m != 0
    ensures y != 0
    ensures x / y == (x % m) / (y % m) <==> SameQuotient(x, y, m)
  {
    SameResidue(0, m);
    if y < m {
      SameResidue(y, m);
      if x < m {
        SameResidue(x, m);
      } else {
        var k := x / m;
        assert x == k * m + x % m;
        MultipleIsFar(k, m);
        if k <= 0 {
          MulMonotone(k, 0, m);
        }
        LargerQuotient(x, x % m, y);
      }
    } else if x < m {
      SameResidue(x, m);
      ZeroQuotient(x, y);
      ZeroQuotient(x, y % m);
    }
  }

  /** What a field quotient is, without naming the inverse. */
  ghost predicate IsFieldQuotient(x: Fr, y: Fr, q: nat)
  {
    if B.Invertible(y) then (q * y) % P == x else q == 0
  }

  lemma FactorSum(q: int, m: int, r: int, y: int)
    ensures (q * m + r) * y == r * y + (q * y) * m
  {
    Distribute(q * m, -r, y);
    ProductOrder(q, m, y);
  }

  lemma FactorMod(x: int, y: int, m: int)
    requires m > 0
    ensures ((x % m) * y) % m == (x * y) % m
  {
    var q, r := x / m, x % m;
    assert x * y == r * y + (q * y) * m by {
      FactorSum(q, m, r, y);
      assert x == q * m + r;
    }
    MulMod(r * y, q * y, m);
  }

  lemma UndoFactor(x: nat, y: Fr, z: Fr)
    requires x < P && (y * z) % P == 1
    ensures (((x * y) % P) * z) % P == x
  {
    FactorMod(x * y, z, P);
    Associate(x, y, z);
    FactorMod(y * z, x, P);
    SameResidue(x, P);
  }

  lemma FieldQuotientExact(x: Fr, y: Fr, q: nat)
    requires q < P
    ensures B.EvaluateField(B.BinaryFieldOp.Div, x, y) == q <==> IsFieldQuotient(x, y, q)
  {
    var z := B.Inverse(y);
    assert B.EvaluateField(B.BinaryFieldOp.Div, x, y) == (x * z) % P;
    if B.Invertible(y) {
      if (x * z) % P == q {
        UndoFactor(x, z, y);
      }
      if (q * y) % P == x {
        UndoFactor(q, y, z);
      }
    } else {
      SameResidue(0, P);
    }
  }

  /** No remainder is lost. (Modulo a prime every divisor but zero is invertible.) */
  ghost predicate LosesNothing(x: Fr, y: Fr)
    requires y != 0
  {
    if B.Invertible(y) then x % y == 0 else x < y
  }

  /** The truncated quotient of two words is their field quotient exactly when the division leaves no remainder. */
  lemma WordQuotientExact(x: Fr, y: Fr)
    requires y != 0
    ensures x / y < P
    ensures IsFieldQuotient(x, y, x / y) <==> LosesNothing(x, y)
  {
    var q := x / y;
    Ints.QuotientAtMost(x, y);
    ZeroQuotient(x, y);
    assert x == q * y + x % y;
    MulNonneg(q, y);
    SameResidue(q * y, P);
  }

  lemma NotThePower(n: nat)
    requires n <= 128
    ensures Pow2(n) < P
  {
    Pow2Monotone(n, 128);
    ModulusBounds();
  }

  // ---------------------------------------------------------------- 254 bits

  lemma WideModulus()
    ensures P + Pow2(129) <= Pow2(254) < 2 * P
    ensures Pow2(129) == 2 * Pow2(128)
  {
    ModulusBounds();
    Pow2Of128();
    Pow2Of125();
    Pow2Add(128, 125);
  }

  lemma Cancel(x: int, y: int, m: nat)
    requires m > 0 && x * m == y * m
    ensures x == y
  {
    Distribute(x, y, m);
    MultipleIsFar(x - y, m);
  }

  /** P is odd: it divides q * 2^254 only if it divides q. */
  lemma OddMultiple(j: nat, q: nat, m: nat)
    requires m == Pow2(254) && j * P == q * m && q < P
    ensures q == 0
  {
    hide Pow2;
    OddFactor(j, q, 254, P);
    var i := j / m;
    assert j == i * m;
    ProductOrder(i, m, P);
    Cancel(i * P, q, m);
    MultipleIsFar(i, P);
  }

  lemma SameRemainder(z: nat, r: nat, q: nat, m: nat)
    requires z == q * m + r && z % P == r % P && m > 0
    ensures z / P >= r / P && (z / P - r / P) * P == q * m
  {
    Distribute(z / P, r / P, P);
    MulNonneg(q, m);
    MultipleIsFar(z / P - r / P, P);
  }

  /** Wrapping at 254 bits first does not show modulo p only if there is nothing to wrap. */
  lemma WideFieldWrapExact(z: nat)
    requires z / Pow2(254) < P
    ensures z % Pow2(254) % P == z % P <==> z < Pow2(254)
  {
    hide Pow2;
    var m := Pow2(254);
    if z < m {
      SameResidue(z, m);
    } else if z % m % P == z % P {
      SameRemainder(z, z % m, z / m, m);
      OddMultiple(z / P - z % m / P, z / m, m);
    }
  }

  lemma NoMultiple(k: nat, w: nat)
    requires w >= 1
    ensures k * Pow2(w) != P
  {
    Doubled(k, Pow2(w - 1));
    assert Pow2(w) == 2 * Pow2(w - 1);
  }

  lemma OneModulusOff(r: nat, w: nat)
    requires P <= r < 2 * P && w >= 1
    ensures r % P == r - P && r % P != r % Pow2(w)
  {
    DivModUnique(r, P, 1, r - P);
    NoMultiple(r / Pow2(w), w);
  }

  lemma WideWordResidue(r: nat, w: nat)
    requires r < 2 * P && 1 <= w <= 128
    ensures r % P == r % Pow2(w) <==> r < Pow2(w)
  {
    NotThePower(w);
    if r >= P {
      OneModulusOff(r, w);
    } else {
      SameResidue(r, P);
      if r < Pow2(w) {
        SameResidue(r, Pow2(w));
      }
    }
  }

  /** The same against a word of the AVM: the bits between the two widths are zero, as for other widths. */
  lemma WideWrapExact(z: nat, w: nat)
    requires 1 <= w <= 128
    ensures z % Pow2(254) % P == z % Pow2(w) <==> SameWrap(z, w, 254)
  {
    hide Pow2;
    WideModulus();
    ResidueOfResidue(z, w, 254);
    WideWordResidue(z % Pow2(254), w);
  }

  lemma BorrowResidue(v: int, m: nat)
    requires 0 <= v < m < 2 * P
    ensures v % m % P == if v < P then v else v - P
  {
    SameResidue(v, m);
    if v < P {
      SameResidue(v, P);
    } else {
      DivModUnique(v, P, 1, v - P);
    }
  }

  /** A difference below zero wraps to a number that is still large modulo p. */
  lemma WideBorrow(x: nat, y: nat)
    requires x < y <= Pow2(254)
    ensures var v := (Pow2(254) + x - y) % Pow2(254) % P;
      v != x - y + P && (y <= Pow2(128) ==> v >= Pow2(128))
  {
    hide Pow2;
    WideModulus();
    BorrowResidue(Pow2(254) + x - y, Pow2(254));
  }

  lemma WideDifference(x: Fr, y: nat)
    requires y <= x
    ensures (Pow2(254) + x - y) % Pow2(254) % P == x - y
  {
    hide Pow2;
    WideModulus();
    DivModUnique(Pow2(254) + x - y, Pow2(254), 1, x - y);
    SameResidue(x - y, P);
  }
}
