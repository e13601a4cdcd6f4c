/** Powers and inverses in the quadratic extension of the Mersenne-31 field (crates/lean-aggregate/src/m31.rs). */
module M31Roots {
  import opened Words
  import opened NumberTheory
  import opened M31Extension
  import Primality
  import M31

  // ---------------------------------------------------------------- powers

  /** The e-fold product. */
  function FPow(z: F2, e: nat): F2 {
    if e == 0 then ONE else z.Mul(FPow(z, e - 1))
  }

  lemma {:induction false} FPowAdd(z: F2, m: nat, n: nat)
    ensures FPow(z, m + n) == FPow(z, m).Mul(FPow(z, n))
  {
    hide F2.Mul;
    if m == 0 {
      MulOne(FPow(z, n));
    } else {
      FPowAdd(z, m - 1, n);
      MulAssoc(z, FPow(z, m - 1), FPow(z, n));
    }
  }

  lemma {:induction false} FPowMul(z: F2, m: nat, n: nat)
    ensures FPow(z, m * n) == FPow(FPow(z, m), n)
  {
    hide F2.Mul;
    if n == 0 {
      assert m * n == 0;
    } else {
      FPowMul(z, m, n - 1);
      assert m * n == m + m * (n - 1);
      FPowAdd(z, m, m * (n - 1));
    }
  }

  lemma {:induction false} FPowDistrib(x: F2, y: F2, n: nat)
    ensures FPow(x.Mul(y), n) == FPow(x, n).Mul(FPow(y, n))
  {
    hide F2.Mul;
    if n == 0 {
      MulOne(ONE);
    } else {
      var (u, v) := (FPow(x, n - 1), FPow(y, n - 1));
      FPowDistrib(x, y, n - 1);
      MulSwap(x, y, u, v);
    }
  }

  lemma {:induction false} MulSwap(x: F2, y: F2, u: F2, v: F2)
    ensures x.Mul(y).Mul(u.Mul(v)) == x.Mul(u).Mul(y.Mul(v))
  {
    hide F2.Mul;
    MulAssoc(x, y, u.Mul(v));
    MulAssoc(y, u, v);
    MulComm(y, u);
    MulAssoc(u, y, v);
    MulAssoc(x, u, y.Mul(v));
  }

  lemma {:induction false} FPowOne(n: nat)
    ensures FPow(ONE, n) == ONE
  {
    hide F2.Mul;
    if n > 0 {
      FPowOne(n - 1);
      MulOne(ONE);
    }
  }

  lemma {:induction false} FPowTwo(z: F2)
    ensures FPow(z, 1) == z && FPow(z, 2) == z.Mul(z)
  {
    hide F2.Mul;
    MulOne(z);
    assert FPow(z, 1) == z.Mul(FPow(z, 0));
    assert FPow(z, 2) == z.Mul(FPow(z, 1));
  }

  lemma {:induction false} FPowSucc(z: F2, e: nat)
    ensures FPow(z, e + 1) == z.Mul(FPow(z, e))
  {
  }

  /** One round of square-and-multiply. */
  lemma {:induction false} PowRound(r: F2, b: F2, e: nat)
    requires 0 < e
    ensures r.Mul(FPow(b, e)) == (if e % 2 == 1 then r.Mul(b) else r).Mul(FPow(b.Mul(b), e / 2))
  {
    hide *;
    var k := e / 2;
    FPowTwo(b);
    FPowMul(b, 2, k);
    if e % 2 == 1 {
      FPowSucc(b, 2 * k);
      MulAssoc(r, b, FPow(b, 2 * k));
    }
  }

  /** Square-and-multiply computes the e-fold product for every 32-bit exponent. */
  method PowF2(z: F2, exp: u32) returns (r: F2)
    ensures r == FPow(z, exp)
  {
    hide F2.Mul;
    var b, e := z, exp;
    r := ONE;
    MulOne(FPow(z, exp));
    while e > 0
      invariant r.Mul(FPow(b, e)) == FPow(z, exp)
    {
      PowRound(r, b, e);
      if e % 2 == 1 {
        r := r.Mul(b);
      }
      b := b.Mul(b);
      e := e / 2;
    }
    MulOne(r);
  }

  // ---------------------------------------------------------------- inverses

  lemma {:induction false} PowNegOdd(x: int, k: nat)
    ensures Pow(-x, 2 * k) == Pow(x, 2 * k)
    ensures Pow(-x, 2 * k + 1) == -Pow(x, 2 * k + 1)
  {
    M31.PowSquare(x, k);
    M31.PowSquare(-x, k);
    assert (-x) * (-x) == x * x;
    assert Pow(-x, 2 * k + 1) == (-x) * Pow(-x, 2 * k);
    assert Pow(x, 2 * k + 1) == x * Pow(x, 2 * k);
  }

  /** -1 is not a square modulo P, so a^2 + b^2 vanishes only at zero. */
  lemma {:induction false} NormNonzero(a: Fe, b: Fe)
    requires Cong(a * a + b * b, 0, M31.P)
    ensures a == 0 && b == 0
  {
    Primality.MersennePrime();
    if a == 0 {
      assert b * b == a * a + b * b - 0;
      Euclid(M31.P, b, b);
    } else if b == 0 {
      assert a * a == a * a + b * b - 0;
      Euclid(M31.P, a, a);
    } else {
      SquaresNotOpposite(a, b, 0x3FFF_FFFF);
    }
  }

  /** The odd exponent (P-1)/2 turns a^2 == -b^2 into 1 == -1. */
  lemma {:induction false} SquaresNotOpposite(a: Fe, b: Fe, h: nat)
    requires h == 0x3FFF_FFFF && a != 0 && b != 0
    ensures !Cong(a * a + b * b, 0, M31.P)
  {
    var (x, y) := (a * a, b * b);
    if Cong(x + y, 0, M31.P) {
      HalfPower(a, h);
      HalfPower(b, h);
      assert Cong(x, -y, M31.P) by { assert x - (-y) == x + y - 0; }
      OddPowerOpposite(x, y, h);
      NotOpposite(Pow(x, h), Pow(y, h));
    }
  }

  lemma {:induction false} OddPowerOpposite(x: int, y: int, h: nat)
    requires h % 2 == 1 && Cong(x, -y, M31.P)
    ensures Cong(Pow(x, h), -Pow(y, h), M31.P)
  {
    PowCong(x, -y, h, M31.P);
    PowNegOdd(y, h / 2);
  }

  lemma {:induction false} NotOpposite(u: int, v: int)
    requires u % 0x7FFF_FFFF == 1 && v % 0x7FFF_FFFF == 1
    ensures !Cong(u, -v, M31.P)
  {
  }

  lemma {:induction false} HalfPower(a: Fe, h: nat)
    requires h == 0x3FFF_FFFF && a != 0
    ensures Pow(a * a, h) % 0x7FFF_FFFF == 1
  {
    Primality.MersennePrime();
    assert !Divides(M31.P, a) && M31.P - 1 == 2 * h && M31.P == 0x7FFF_FFFF;
    hide *;
    Fermat(M31.P, a);
    M31.PowSquare(a, h);
    CongMod(Pow(a, 2 * h), 1, M31.P);
  }

  /** The inverse through the norm: every nonzero element of F2 is a unit. */
  method InvF2(z: F2) returns (w: F2)
    ensures z != ZERO ==> z.Mul(w) == ONE
    ensures z == ZERO ==> w == ZERO
  {
    var n := M31.Add(M31.Mul(z.a, z.a), M31.Mul(z.b, z.b));
    var i := M31.Inv(n);
    w := F2(M31.Mul(z.a, i), M31.Mul(M31.Sub(0, z.b), i));
    InverseThroughNorm(z, n, i, w);
  }

  lemma {:induction false} InverseThroughNorm(z: F2, n: Fe, i: Fe, w: F2)
    requires n == M31.Add(M31.Mul(z.a, z.a), M31.Mul(z.b, z.b))
    requires n != 0 ==> M31.Mul(n, i) == 1
    requires w == F2(M31.Mul(z.a, i), M31.Mul(M31.Sub(0, z.b), i))
    ensures z != ZERO ==> z.Mul(w) == ONE
    ensures z == ZERO ==> w == ZERO
  {
    hide M31.Red, M31.Add, M31.Sub, M31.Mul, F2.Mul;
    if z != ZERO {
      NormIsUnit(z, n);
      ConjTimesInverse(z, n, i, w);
    }
  }

  lemma {:induction false} NormIsUnit(z: F2, n: Fe)
    requires z != ZERO && n == M31.Add(M31.Mul(z.a, z.a), M31.Mul(z.b, z.b))
    ensures n != 0
  {
    hide M31.Red, M31.Add, M31.Mul;
    CrossAdd(z.a, z.a, z.b, z.b);
    if n == 0 {
      CongMod(z.a * z.a + z.b * z.b, 0, M31.P);
      NormNonzero(z.a, z.b);
    }
  }

  lemma {:induction false} ConjReduced(z: F2, i: Fe)
    ensures F2(M31.Mul(z.a, i), M31.Mul(M31.Sub(0, z.b), i)) == Reduce(Gauss(z.a * i, -(z.b * i)))
  {
    hide M31.Red, M31.Sub, M31.Mul;
    NegTimes(z.b, i);
  }

  lemma {:induction false} ReduceOne(k: int)
    requires k % 0x7FFF_FFFF == 1
    ensures Reduce(Gauss(k, 0)) == ONE
  {
  }

  /** z * conj(z) * i == norm(z) * i, computed in Z[i]. */
  lemma {:induction false} ConjTimesInverse(z: F2, n: Fe, i: Fe, w: F2)
    requires n == M31.Add(M31.Mul(z.a, z.a), M31.Mul(z.b, z.b)) && M31.Mul(n, i) == 1
    requires w == F2(M31.Mul(z.a, i), M31.Mul(M31.Sub(0, z.b), i))
    ensures z.Mul(w) == ONE
  {
    hide *;
    var c := Gauss(z.a * i, -(z.b * i));
    ConjReduced(z, i);
    ReduceLift(z);
    ReduceMul(Lift(z), c);
    ConjProduct(z, i);
    NormTimes(z, n, i);
    ReduceOne(Norm(z) * i);
  }

  function Norm(z: F2): int { z.a * z.a + z.b * z.b }

  lemma {:induction false} ConjProduct(z: F2, i: Fe)
    ensures GMul(Lift(z), Gauss(z.a * i, -(z.b * i))) == Gauss(Norm(z) * i, 0)
  {
  }

  lemma {:induction false} ModTimes(x: int, y: int, i: int)
    requires x % 0x7FFF_FFFF == y % 0x7FFF_FFFF
    ensures x * i % 0x7FFF_FFFF == y * i % 0x7FFF_FFFF
  {
    hide *;
    CongMod(x, y, 0x7FFF_FFFF);
    CongMod(i, i, 0x7FFF_FFFF);
    CongMul(x, y, i, i, 0x7FFF_FFFF);
    CongMod(x * i, y * i, 0x7FFF_FFFF);
  }

  lemma {:induction false} NegTimes(b: Fe, i: Fe)
    ensures M31.Mul(M31.Sub(0, b), i) == (-(b * i)) % 0x7FFF_FFFF
  {
    hide M31.Red, M31.Sub, M31.Mul;
    ModTimes(M31.Sub(0, b), 0 - b, i);
    assert (0 - b) * i == -(b * i);
  }

  lemma {:induction false} NormMod(z: F2, n: Fe)
    requires n == M31.Add(M31.Mul(z.a, z.a), M31.Mul(z.b, z.b))
    ensures n == Norm(z) % 0x7FFF_FFFF
  {
    assert Norm(z) == z.a * z.a + z.b * z.b;
    hide *;
    CrossAdd(z.a, z.a, z.b, z.b);
  }

  lemma {:induction false} NormTimes(z: F2, n: Fe, i: Fe)
    requires n == M31.Add(M31.Mul(z.a, z.a), M31.Mul(z.b, z.b)) && M31.Mul(n, i) == 1
    ensures Norm(z) * i % 0x7FFF_FFFF == 1
  {
    hide M31.Red, M31.Add, M31.Mul, Norm;
    NormMod(z, n);
    ModTimes(Norm(z), n, i);
  }
}
