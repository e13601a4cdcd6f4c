/** The Frobenius map of the quadratic extension and the primitive 16th root of unity
    (crates/lean-aggregate/src/m31.rs). */
module M31Omega {
  import opened NumberTheory
  import opened M31Extension
  import opened M31Roots
  import Primality
  import M31

  const I := F2(0, 1)
  const MINUS_ONE := F2(0x7FFF_FFFE, 0)

  // ---------------------------------------------------------------- Frobenius

  lemma {:induction false} ReducePow(x: Gauss, e: nat)
    ensures Reduce(GPow(x, e)) == FPow(Reduce(x), e)
  {
    hide F2.Mul, GMul;
    if e == 0 {
      assert Reduce(G_ONE) == ONE;
    } else {
      hide Reduce;
      ReducePow(x, e - 1);
      ReduceMul(x, GPow(x, e - 1));
    }
  }

  lemma {:induction false} FrobeniusReal(a: Fe, p: nat)
    requires p == M31.P
    ensures FPow(F2(a, 0), p) == F2(a, 0)
  {
    hide F2.Mul, FPow, Pow, GPow;
    Primality.MersennePrime();
    FermatNat(p, a);
    CongMod(Pow(a, p), a, p);
    GPowReal(a, p);
    ReducePow(Gauss(a, 0), p);
  }

  lemma {:induction false} FrobeniusSum(x: F2, y: F2, p: nat)
    requires p == M31.P
    ensures FPow(x.Add(y), p) == FPow(x, p).Add(FPow(y, p))
  {
    Primality.MersennePrime();
    assert IsPrime(p) && M31.P == p;
    hide *;
    var (x', y') := (Lift(x), Lift(y));
    FrobeniusAdditive(x', y', p);
    ReduceEq(GPow(GAdd(x', y'), p), GAdd(GPow(x', p), GPow(y', p)));
    ReduceAdd(GPow(x', p), GPow(y', p));
    ReducePow(GAdd(x', y'), p);
    ReducePow(x', p);
    ReducePow(y', p);
    ReduceAdd(x', y');
    ReduceLift(x);
    ReduceLift(y);
  }

  lemma {:induction false} TimesMinusOne(z: F2)
    ensures z.Mul(MINUS_ONE) == z.Neg()
  {
    hide F2.Mul, M31.Red, M31.Sub;
    MulIsReduce(z, MINUS_ONE);
    var m := 0x7FFF_FFFE;
    assert GMul(Gauss(z.a, z.b), Gauss(m, 0)) == Gauss(z.a * m, z.b * m);
    ModShift(0 - z.a, z.a, 0x7FFF_FFFF);
    ModShift(0 - z.b, z.b, 0x7FFF_FFFF);
  }

  lemma {:induction false} TimesI(z: F2)
    ensures z.Mul(I) == F2(M31.Sub(0, z.b), z.a)
  {
    hide F2.Mul, M31.Red, M31.Sub;
    MulIsReduce(z, I);
    assert GMul(Gauss(z.a, z.b), Gauss(0, 1)) == Gauss(0 - z.b, z.a);
  }

  lemma {:induction false} PowersOfI()
    ensures I.Mul(I) == MINUS_ONE && MINUS_ONE.Mul(MINUS_ONE) == ONE
    ensures I.Mul(MINUS_ONE) == I.Conj() && MINUS_ONE != ONE
  {
    hide F2.Mul, M31.Red, M31.Sub;
    TimesI(I);
    TimesMinusOne(MINUS_ONE);
    TimesMinusOne(I);
  }

  /** P == 3 mod 4, so i^P == -i. */
  lemma {:induction false} FrobeniusI(p: nat)
    requires p == M31.P
    ensures FPow(I, p) == I.Conj()
  {
    PowersOfI();
    hide F2.Mul, F2.Conj;
    var k := p / 4;
    assert p == 2 * (2 * k + 1) + 1;
    FPowSucc(I, 2 * (2 * k + 1));
    FPowMul(I, 2, 2 * k + 1);
    FPowTwo(I);
    FPowSucc(MINUS_ONE, 2 * k);
    FPowMul(MINUS_ONE, 2, k);
    FPowTwo(MINUS_ONE);
    FPowOne(k);
    MulOne(MINUS_ONE);
  }

  lemma {:induction false} SplitParts(z: F2)
    ensures z == F2(z.a, 0).Add(F2(z.b, 0).Mul(I))
    ensures z.Conj() == F2(z.a, 0).Add(F2(z.b, 0).Mul(I.Conj()))
  {
    hide F2.Mul, M31.Red, M31.Add, M31.Sub;
    var y := F2(z.b, 0);
    TimesI(y);
    PowersOfI();
    MulAssoc(y, I, MINUS_ONE);
    TimesMinusOne(F2(0, z.b));
  }

  /** Frobenius: raising to the P-th power is conjugation. */
  lemma {:induction false} Frobenius(z: F2, p: nat)
    requires p == M31.P
    ensures FPow(z, p) == z.Conj()
  {
    assert M31.P == p;
    SplitParts(z);
    hide *;
    var (x, y) := (F2(z.a, 0), F2(z.b, 0));
    FrobeniusSum(x, y.Mul(I), p);
    FPowDistrib(y, I, p);
    FrobeniusReal(z.a, p);
    FrobeniusReal(z.b, p);
    FrobeniusI(p);
  }

  // ---------------------------------------------------------------- 5 is not a square modulo P

  lemma {:induction false} FiveToThe31(x: int)
    requires x == 5
    ensures Primality.PowerIs(x, 31, 1612389065)
  {
    assert Cong(x, 5, 0x7FFF_FFFF);
    hide *;
    Primality.PowerOne(x, 5);
    Primality.Times(x, 1, 5, 1, 5, 25);
    Primality.Times(x, 2, 25, 1, 5, 125);
    Primality.Times(x, 3, 125, 3, 125, 15625);
    Primality.Times(x, 6, 15625, 1, 5, 78125);
    Primality.Times(x, 7, 78125, 7, 78125, 1808548331);
    Primality.Times(x, 14, 1808548331, 14, 1808548331, 1816785376);
    Primality.Times(x, 28, 1816785376, 3, 125, 1612389065);
  }

  lemma {:induction false} FiveToThe1023(x: int)
    requires x == 5
    ensures Primality.PowerIs(x, 1023, 1974757579)
  {
    hide *;
    FiveToThe31(x);
    Primality.Times(x, 31, 1612389065, 31, 1612389065, 828121020);
    Primality.Times(x, 62, 828121020, 62, 828121020, 1578622121);
    Primality.Times(x, 124, 1578622121, 124, 1578622121, 1169946652);
    Primality.Times(x, 248, 1169946652, 248, 1169946652, 660340375);
    Primality.Times(x, 496, 660340375, 496, 660340375, 178540115);
    Primality.Times(x, 992, 178540115, 31, 1612389065, 1974757579);
  }

  lemma {:induction false} FiveToThe32767(x: int)
    requires x == 5
    ensures Primality.PowerIs(x, 32767, 1826259615)
  {
    hide *;
    FiveToThe31(x);
    FiveToThe1023(x);
    Primality.Times(x, 1023, 1974757579, 1023, 1974757579, 43671252);
    Primality.Times(x, 2046, 43671252, 2046, 43671252, 171830451);
    Primality.Times(x, 4092, 171830451, 4092, 171830451, 620384282);
    Primality.Times(x, 8184, 620384282, 8184, 620384282, 1720121651);
    Primality.Times(x, 16368, 1720121651, 16368, 1720121651, 1243081638);
    Primality.Times(x, 32736, 1243081638, 31, 1612389065, 1826259615);
  }

  /** 5^((P-1)/2) == -1, by an addition chain for 2^30 - 1. */
  lemma {:induction false} FiveToTheHalf(x: int)
    requires x == 5
    ensures Primality.PowerIs(x, 0x3FFF_FFFF, 0x7FFF_FFFE)
  {
    hide *;
    FiveToThe32767(x);
    Primality.Times(x, 32767, 1826259615, 32767, 1826259615, 1040453683);
    Primality.Times(x, 65534, 1040453683, 65534, 1040453683, 1420450299);
    Primality.Times(x, 131068, 1420450299, 131068, 1420450299, 285013226);
    Primality.Times(x, 262136, 285013226, 262136, 285013226, 1497372420);
    Primality.Times(x, 524272, 1497372420, 524272, 1497372420, 172816425);
    Primality.Times(x, 1048544, 172816425, 1048544, 172816425, 2109451167);
    Primality.Times(x, 2097088, 2109451167, 2097088, 2109451167, 1859742492);
    Primality.Times(x, 4194176, 1859742492, 4194176, 1859742492, 843549814);
    Primality.Times(x, 8388352, 843549814, 8388352, 843549814, 1648710686);
    Primality.Times(x, 16776704, 1648710686, 16776704, 1648710686, 927072735);
    Primality.Times(x, 33553408, 927072735, 33553408, 927072735, 1624923110);
    Primality.Times(x, 67106816, 1624923110, 67106816, 1624923110, 1845383422);
    Primality.Times(x, 134213632, 1845383422, 134213632, 1845383422, 2083313470);
    Primality.Times(x, 268427264, 2083313470, 268427264, 2083313470, 985670594);
    Primality.Times(x, 536854528, 985670594, 536854528, 985670594, 720756695);
    Primality.Times(x, 1073709056, 720756695, 32767, 1826259615, 2147483646);
  }

  lemma {:induction false} FiveIsNoSquare(x: Fe, h: nat)
    requires h == 0x3FFF_FFFF
    ensures x * x % 0x7FFF_FFFF != 5
  {
    if x * x % 0x7FFF_FFFF == 5 {
      M31Roots.HalfPower(x, h);
      FiveToTheHalf(5);
      var f := 5;
      assert Cong(Pow(f, h), 0x7FFF_FFFE, 0x7FFF_FFFF);
      hide *;
      CongMod(x * x, f, 0x7FFF_FFFF);
      PowCong(x * x, f, h, 0x7FFF_FFFF);
      CongMod(Pow(x * x, h), Pow(f, h), 0x7FFF_FFFF);
      CongMod(Pow(f, h), 0x7FFF_FFFE, 0x7FFF_FFFF);
    }
  }

  // ---------------------------------------------------------------- the 16th root of unity

  /** g^(n(p-1)) for g == 2 + i, n == 2^27 and p == P. */
  function OmegaFrom(n: nat, p: nat): F2
    requires p > 0
  {
    FPow(FPow(F2(2, 1), n), p - 1)
  }

  function Omega(): F2 {
    OmegaFrom(0x800_0000, 0x7FFF_FFFF)
  }

  lemma {:induction false} FPowSwap(z: F2, m: nat, n: nat)
    ensures FPow(FPow(z, m), n) == FPow(FPow(z, n), m)
  {
    hide *;
    FPowMul(z, m, n);
    FPowMul(z, n, m);
    assert m * n == n * m;
  }

  /** t == g^(2^30) squares to norm(g) == 5. */
  lemma {:induction false} RootOfFive(n: nat, p: nat, t: F2)
    requires n == 0x800_0000 && p == M31.P && t == FPow(F2(2, 1), 8 * n)
    ensures t.Mul(t) == F2(5, 0)
  {
    hide F2.Mul, FPow, F2.Conj, M31.Red, M31.Sub;
    var g := F2(2, 1);
    FPowTwo(t);
    FPowMul(g, 8 * n, 2);
    assert 8 * n * 2 == p + 1;
    FPowSucc(g, p);
    Frobenius(g, p);
    GeneratorNorm();
  }

  lemma {:induction false} GeneratorNorm()
    ensures F2(2, 1).Mul(F2(2, 1).Conj()) == F2(5, 0)
  {
    hide F2.Mul, M31.Red, M31.Sub;
    MulIsReduce(F2(2, 1), F2(2, 1).Conj());
  }

  /** A square root of 5 is purely imaginary. */
  lemma {:induction false} RootOfFiveImaginary(t: F2)
    requires t.Mul(t) == F2(5, 0)
    ensures t.a == 0
  {
    hide F2.Mul;
    MulIsReduce(t, t);
    ZeroProduct(t.a, t.b);
    if t.a != 0 {
      FiveIsNoSquare(t.a, 0x3FFF_FFFF);
    }
  }

  lemma {:induction false} ZeroProduct(x: Fe, y: Fe)
    requires (x * y + y * x) % 0x7FFF_FFFF == 0
    ensures x == 0 || y == 0
  {
    assert x * y + y * x == 2 * (x * y);
    Primality.MersennePrime();
    Euclid(M31.P, 2, x * y);
    Euclid(M31.P, x, y);
  }

  lemma {:induction false} ImaginaryConj(t: F2)
    requires t.a == 0
    ensures t.Conj() == t.Mul(MINUS_ONE)
  {
    hide F2.Mul, M31.Red, M31.Sub;
    TimesMinusOne(t);
  }

  lemma {:induction false} CancelRoot(t: F2, u: F2, v: F2)
    requires t.Mul(t) == F2(5, 0) && t.Mul(u) == t.Mul(v)
    ensures u == v
  {
    var s := F2(858993459, 0);
    assert F2(5, 0).Mul(s) == ONE by {
      hide F2.Mul;
      MulIsReduce(F2(5, 0), s);
    }
    hide *;
    var r := t.Mul(s);
    MulAssoc(t, t, s);
    CancelUnit(t, r, u, v);
  }

  lemma {:induction false} CancelUnit(t: F2, r: F2, u: F2, v: F2)
    requires t.Mul(r) == ONE && t.Mul(u) == t.Mul(v)
    ensures u == v
  {
    hide *;
    MulComm(t, r);
    MulAssoc(r, t, u);
    MulAssoc(r, t, v);
    MulOne(u);
    MulOne(v);
  }

  /** omega^8 == -1 and omega^16 == 1. */
  lemma {:induction false} OmegaEighthPower(n: nat, p: nat)
    requires n == 0x800_0000 && p == M31.P
    ensures FPow(OmegaFrom(n, p), 8) == MINUS_ONE
    ensures FPow(OmegaFrom(n, p), 16) == ONE
  {
    PowersOfI();
    hide F2.Mul, FPow, F2.Conj;
    var g := F2(2, 1);
    var (h, t, w) := (FPow(g, n), FPow(g, 8 * n), OmegaFrom(n, p));
    var w8 := FPow(w, 8);
    FPowSwap(h, p - 1, 8);
    FPowMul(g, n, 8);
    assert w8 == FPow(t, p - 1);
    FPowSucc(t, p - 1);
    Frobenius(t, p);
    RootOfFive(n, p, t);
    RootOfFiveImaginary(t);
    ImaginaryConj(t);
    CancelRoot(t, w8, MINUS_ONE);
    FPowMul(w, 8, 2);
    FPowTwo(w8);
  }

  lemma {:induction false} FPowMinusOne(m: nat)
    requires m % 2 == 1
    ensures FPow(MINUS_ONE, m) == MINUS_ONE
  {
    PowersOfI();
    hide F2.Mul;
    FPowSucc(MINUS_ONE, 2 * (m / 2));
    FPowMul(MINUS_ONE, 2, m / 2);
    FPowTwo(MINUS_ONE);
    FPowOne(m / 2);
    MulOne(MINUS_ONE);
  }

  /** An element with w^8 == -1 has order exactly 16. */
  lemma {:induction false} OrderSixteen(w: F2, k: nat)
    requires FPow(w, 8) == MINUS_ONE && FPow(w, 16) == ONE
    ensures FPow(w, k) == ONE <==> k % 16 == 0
  {
    hide F2.Mul, FPow;
    FPowMul(w, 16, k / 16);
    FPowOne(k / 16);
    FPowAdd(w, 16 * (k / 16), k % 16);
    MulOne(FPow(w, k % 16));
    var r := k % 16;
    assert FPow(w, k) == FPow(w, r);
    if r != 0 {
      var c := if r % 2 == 1 then 8 else if r % 4 == 2 then 4 else if r % 8 == 4 then 2 else 1;
      var m := c * r / 8;
      assert c * r == 8 * m && m % 2 == 1;
      NotOneBelow(w, r, c, m);
    }
  }

  lemma {:induction false} NotOneBelow(w: F2, r: nat, c: nat, m: nat)
    requires FPow(w, 8) == MINUS_ONE && r * c == 8 * m && m % 2 == 1
    ensures FPow(w, r) != ONE
  {
    FPowMul(w, r, c);
    FPowMul(w, 8, m);
    FPowMinusOne(m);
    FPowOne(c);
    PowersOfI();
  }

  /** For every k, omega^k == 1 exactly when 16 divides k. */
  lemma {:induction false} OmegaOrder(k: nat)
    ensures FPow(Omega(), 8) == MINUS_ONE
    ensures FPow(Omega(), k) == ONE <==> k % 16 == 0
  {
    hide FPow, OmegaFrom;
    OmegaEighthPower(0x800_0000, 0x7FFF_FFFF);
    OrderSixteen(Omega(), k);
  }

  lemma {:induction false} TwoTo27()
    ensures Pow(2, 27) == 0x800_0000
  {
    assert Pow(2, 9) == 512;
    PowAdd(2, 9, 9);
    PowAdd(2, 18, 9);
  }

  lemma {:induction false} OmegaUnfold(n: nat, p: nat, h: F2)
    requires h == FPow(F2(2, 1), n) && p > 0
    ensures OmegaFrom(n, p) == FPow(h, p - 1)
  {
  }

  /** The root is the generator to the power (P^2 - 1) / 16. */
  lemma {:induction false} OmegaPower(e: nat)
    requires 16 * e == 0x7FFF_FFFF * 0x7FFF_FFFF - 1
    ensures Omega() == FPow(F2(2, 1), e)
  {
    hide FPow;
    FPowMul(F2(2, 1), 0x800_0000, 0x7FFF_FFFE);
  }

  /** The source's computation: 27 squarings of g, then one power. */
  method Omega16() returns (w: F2)
    ensures w == Omega()
    ensures FPow(w, 8) == MINUS_ONE
    ensures forall k: nat :: FPow(w, k) == ONE <==> k % 16 == 0
  {
    TwoTo27();
    hide F2.Mul, FPow, OmegaFrom;
    var g := F2.New(2, 1);
    var h := g;
    var i := 0;
    ghost var n: nat := 1;
    FPowTwo(g);
    while i < 27
      invariant 0 <= i <= 27 && n == Pow(2, i)
      invariant h == FPow(g, n)
    {
      FPowMul(g, n, 2);
      FPowTwo(h);
      h := h.Mul(h);
      i := i + 1;
      n := n * 2;
    }
    w := PowF2(h, M31.P - 1);
    OmegaUnfold(n, M31.P, h);
    forall k: nat ensures FPow(w, k) == ONE <==> k % 16 == 0 {
      OmegaOrder(k);
    }
    OmegaOrder(0);
  }
}
