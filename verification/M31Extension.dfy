/** The quadratic extension F2 = a + b*i of the Mersenne-31 field
    (crates/lean-aggregate/src/m31.rs), proved to be the quotient of the Gaussian integers by P. */
module M31Extension {
  import opened Words
  import opened NumberTheory
  import M31

  type Fe = M31.Fe

  /** a + b*i with i*i == -1; both coordinates are canonical, as `new` and every operation leave them. */
  datatype F2 = F2(a: Fe, b: Fe) {
    static function New(a: u32, b: u32): F2 { F2(a % M31.P, b % M31.P) }

    function Add(o: F2): F2 { F2(M31.Add(a, o.a), M31.Add(b, o.b)) }

    function Sub(o: F2): F2 { F2(M31.Sub(a, o.a), M31.Sub(b, o.b)) }

    function Mul(o: F2): F2 {
      F2(M31.Sub(M31.Mul(a, o.a), M31.Mul(b, o.b)), M31.Add(M31.Mul(a, o.b), M31.Mul(b, o.a)))
    }

    function Scale(s: u32): F2
      requires s <= M31.P + 1
    {
      F2(M31.Mul(a, s), M31.Mul(b, s))
    }

    function Conj(): F2 { F2(a, M31.Sub(0, b)) }

    function Neg(): F2 { F2(M31.Sub(0, a), M31.Sub(0, b)) }
  }

  const ZERO := F2(0, 0)
  const ONE := F2(1, 0)

  // ---------------------------------------------------------------- the quotient map from Z[i]

  function Lift(z: F2): Gauss { Gauss(z.a, z.b) }
  function Reduce(g: Gauss): F2 { F2(g.re % 0x7FFF_FFFF, g.im % 0x7FFF_FFFF) }

  lemma {:induction false} ReduceEq(x: Gauss, y: Gauss)
    ensures Reduce(x) == Reduce(y) <==> GCong(x, y, M31.P)
  {
    CongMod(x.re, y.re, M31.P);
    CongMod(x.im, y.im, M31.P);
  }

  lemma {:induction false} LiftReduce(x: Gauss)
    ensures GCong(Lift(Reduce(x)), x, M31.P)
  {
    CongMod(x.re, x.re, M31.P);
    CongMod(x.im, x.im, M31.P);
  }

  lemma {:induction false} ReduceLift(z: F2)
    ensures Reduce(Lift(z)) == z
  {
  }

  lemma {:induction false} MulIsReduce(x: F2, y: F2)
    ensures x.Mul(y) == Reduce(GMul(Lift(x), Lift(y)))
  {
    hide M31.Red, M31.Add, M31.Sub, M31.Mul;
    CrossSub(x.a, y.a, x.b, y.b);
    CrossAdd(x.a, y.b, x.b, y.a);
  }

  lemma {:induction false} CrossSub(a: Fe, c: Fe, b: Fe, d: Fe)
    ensures M31.Sub(M31.Mul(a, c), M31.Mul(b, d)) == (a * c - b * d) % 0x7FFF_FFFF
  {
    hide M31.Red, M31.Add, M31.Sub, M31.Mul;
    ModOfMods(a * c, b * d);
  }

  lemma {:induction false} CrossAdd(a: Fe, c: Fe, b: Fe, d: Fe)
    ensures M31.Add(M31.Mul(a, c), M31.Mul(b, d)) == (a * c + b * d) % 0x7FFF_FFFF
  {
    hide M31.Red, M31.Add, M31.Sub, M31.Mul;
    ModOfMods(a * c, b * d);
  }

  lemma {:induction false} ModOfMods(m: int, n: int)
    ensures (m % 0x7FFF_FFFF - n % 0x7FFF_FFFF) % 0x7FFF_FFFF == (m - n) % 0x7FFF_FFFF
    ensures (m % 0x7FFF_FFFF + n % 0x7FFF_FFFF) % 0x7FFF_FFFF == (m + n) % 0x7FFF_FFFF
  {
    var p := 0x7FFF_FFFF;
    ModShift(m % p - n % p, m / p - n / p, p);
    ModShift(m % p + n % p, m / p + n / p, p);
  }

  lemma {:induction false} AddIsReduce(x: F2, y: F2)
    ensures x.Add(y) == Reduce(GAdd(Lift(x), Lift(y)))
    ensures x.Sub(y) == Reduce(GSub(Lift(x), Lift(y)))
  {
    hide M31.Red, M31.Add, M31.Sub;
  }

  /** Reduction modulo P is a ring homomorphism from Z[i] onto F2. */
  lemma {:induction false} ReduceMul(x: Gauss, y: Gauss)
    ensures Reduce(x).Mul(Reduce(y)) == Reduce(GMul(x, y))
  {
    assert M31.P > 0;
    hide *;
    var (x', y') := (Lift(Reduce(x)), Lift(Reduce(y)));
    MulIsReduce(Reduce(x), Reduce(y));
    LiftReduce(x);
    LiftReduce(y);
    GCongMul(x', x, y', y, M31.P);
    ReduceEq(GMul(x', y'), GMul(x, y));
  }

  lemma {:induction false} ReduceAdd(x: Gauss, y: Gauss)
    ensures Reduce(x).Add(Reduce(y)) == Reduce(GAdd(x, y))
  {
    assert M31.P > 0;
    hide *;
    var (x', y') := (Lift(Reduce(x)), Lift(Reduce(y)));
    AddIsReduce(Reduce(x), Reduce(y));
    LiftReduce(x);
    LiftReduce(y);
    GCongAdd(x', x, y', y, M31.P);
    ReduceEq(GAdd(x', y'), GAdd(x, y));
  }

  // ---------------------------------------------------------------- ring laws

  lemma {:induction false} MulComm(x: F2, y: F2)
    ensures x.Mul(y) == y.Mul(x)
  {
    hide *;
    MulIsReduce(x, y);
    MulIsReduce(y, x);
    GMulComm(Lift(x), Lift(y));
  }

  lemma {:induction false} MulAssoc(x: F2, y: F2, z: F2)
    ensures x.Mul(y).Mul(z) == x.Mul(y.Mul(z))
  {
    hide *;
    var (x', y', z') := (Lift(x), Lift(y), Lift(z));
    ReduceLift(x);
    ReduceLift(y);
    ReduceLift(z);
    ReduceMul(x', y');
    ReduceMul(y', z');
    ReduceMul(GMul(x', y'), z');
    ReduceMul(x', GMul(y', z'));
    GMulAssoc(x', y', z');
  }

  lemma {:induction false} Distrib(x: F2, y: F2, z: F2)
    ensures x.Mul(y.Add(z)) == x.Mul(y).Add(x.Mul(z))
  {
    hide *;
    var (x', y', z') := (Lift(x), Lift(y), Lift(z));
    ReduceLift(x);
    ReduceLift(y);
    ReduceLift(z);
    ReduceAdd(y', z');
    ReduceMul(x', y');
    ReduceMul(x', z');
    ReduceMul(x', GAdd(y', z'));
    ReduceAdd(GMul(x', y'), GMul(x', z'));
    GMulDistrib(x', y', z');
  }

  lemma {:induction false} MulOne(x: F2)
    ensures x.Mul(ONE) == x && ONE.Mul(x) == x
  {
    assert Lift(ONE) == G_ONE;
    hide *;
    MulIsReduce(x, ONE);
    MulComm(x, ONE);
    GUnit(Lift(x));
    ReduceLift(x);
  }

  lemma {:induction false} MulZero(x: F2)
    ensures x.Mul(ZERO) == ZERO && ZERO.Mul(x) == ZERO
  {
    MulIsReduce(x, ZERO);
    MulComm(x, ZERO);
  }

  lemma {:induction false} AddLaws(x: F2, y: F2, z: F2)
    ensures x.Add(y) == y.Add(x)
    ensures x.Add(y).Add(z) == x.Add(y.Add(z))
    ensures x.Add(ZERO) == x && x.Add(x.Neg()) == ZERO
    ensures x.Sub(y) == x.Add(y.Neg())
  {
    hide M31.Red, M31.Add, M31.Sub, M31.Mul, M31.P;
    FeAddLaws(x.a, y.a, z.a);
    FeAddLaws(x.b, y.b, z.b);
  }

  lemma {:induction false} FeAddLaws(a: Fe, b: Fe, c: Fe)
    ensures M31.Add(a, b) == M31.Add(b, a)
    ensures M31.Add(M31.Add(a, b), c) == M31.Add(a, M31.Add(b, c))
    ensures M31.Add(a, 0) == a && M31.Add(a, M31.Sub(0, a)) == 0
    ensures M31.Sub(a, b) == M31.Add(a, M31.Sub(0, b))
  {
    hide M31.Red, M31.Add, M31.Sub;
    FeAddAssoc(a, b, c);
    FeSub(a, b);
  }

  lemma {:induction false} FeAddAssoc(a: Fe, b: Fe, c: Fe)
    ensures M31.Add(M31.Add(a, b), c) == M31.Add(a, M31.Add(b, c))
  {
    hide M31.Red, M31.Add;
    var (x, y) := (a + b, b + c);
    ModShift(x % 0x7FFF_FFFF + c, x / 0x7FFF_FFFF, 0x7FFF_FFFF);
    ModShift(a + y % 0x7FFF_FFFF, y / 0x7FFF_FFFF, 0x7FFF_FFFF);
  }

  lemma {:induction false} FeSub(a: Fe, b: Fe)
    ensures M31.Sub(a, b) == M31.Add(a, M31.Sub(0, b))
    ensures M31.Add(a, M31.Sub(0, a)) == 0
  {
    hide M31.Red, M31.Add, M31.Sub;
    NegateValue(b);
    NegateValue(a);
    if b > 0 {
      ModShift(a - b, 1, 0x7FFF_FFFF);
    }
    DivModUnique(a, 0x7FFF_FFFF, 0, a);
  }

  lemma {:induction false} NegateValue(b: Fe)
    ensures M31.Sub(0, b) == if b == 0 then 0 else 0x7FFF_FFFF - b
  {
    hide M31.Red, M31.Sub;
    var t: int := 0 - b;
    if b > 0 {
      DivModUnique(t, 0x7FFF_FFFF, -1, 0x7FFF_FFFF - b);
    }
  }

  /** The F2 operations form a commutative ring with unit. */
  lemma {:induction false} CommutativeRing(x: F2, y: F2, z: F2)
    ensures x.Add(y) == y.Add(x) && x.Mul(y) == y.Mul(x)
    ensures x.Add(y).Add(z) == x.Add(y.Add(z))
    ensures x.Mul(y).Mul(z) == x.Mul(y.Mul(z))
    ensures x.Mul(y.Add(z)) == x.Mul(y).Add(x.Mul(z))
    ensures x.Add(ZERO) == x && x.Mul(ONE) == x
    ensures x.Add(x.Neg()) == ZERO && x.Sub(y) == x.Add(y.Neg())
  {
    hide *;
    AddLaws(x, y, z);
    MulComm(x, y);
    MulAssoc(x, y, z);
    Distrib(x, y, z);
    MulOne(x);
  }
}
