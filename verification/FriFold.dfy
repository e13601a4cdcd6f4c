/** The folding step of the FRI prover (crates/lean-aggregate/src/fri.rs): folding the evaluations of a
    polynomial on a domain of size n gives the evaluations, on the squares of that domain, of the
    polynomial whose coefficients are folded two by two. */
module FriFold {
  import opened NumberTheory
  import opened M31Extension
  import opened M31Roots
  import opened M31Omega
  import M31

  const DOMAIN: nat := 16
  const HALF: Fe := 0x4000_0000

  // ---------------------------------------------------------------- sums and differences in F2

  lemma {:induction false} FeHalves(a: Fe)
    ensures M31.Mul(M31.Add(a, a), HALF) == a
  {
    hide M31.Red, M31.Add, M31.Mul;
    var s: int := M31.Add(a, a);
    var k := if 2 * a < 0x7FFF_FFFF then a else a - 0x4000_0000;
    assert s * 0x4000_0000 == k * 0x7FFF_FFFF + a;
    DivModUnique(s * 0x4000_0000, 0x7FFF_FFFF, k, a);
  }

  lemma {:induction false} Halves(z: F2)
    ensures z.Add(z).Scale(HALF) == z
  {
    hide M31.Red, M31.Add, M31.Mul, HALF;
    FeHalves(z.a);
    FeHalves(z.b);
  }

  lemma {:induction false} FeSumDifference(e: Fe, d: Fe)
    ensures M31.Add(M31.Add(e, d), M31.Sub(e, d)) == M31.Add(e, e)
    ensures M31.Sub(M31.Add(e, d), M31.Sub(e, d)) == M31.Add(d, d)
  {
    hide M31.Red, M31.Add, M31.Sub;
    var s: int, t: int := M31.Add(e, d), M31.Sub(e, d);
    assert s == if e + d < 0x7FFF_FFFF then e + d else e + d - 0x7FFF_FFFF;
    assert t == if d <= e then e - d else e - d + 0x7FFF_FFFF;
    SmallShift(s + t, e + e);
    SmallShift(s - t, d + d);
  }

  lemma {:induction false} SmallShift(x: int, y: int)
    requires x == y || x == y + 0x7FFF_FFFF || x == y - 0x7FFF_FFFF || x == y - 2 * 0x7FFF_FFFF
    ensures x % 0x7FFF_FFFF == y % 0x7FFF_FFFF
  {
  }

  lemma {:induction false} SumDifference(e: F2, d: F2)
    ensures e.Add(d).Add(e.Sub(d)) == e.Add(e)
    ensures e.Add(d).Sub(e.Sub(d)) == d.Add(d)
  {
    hide M31.Red, M31.Add, M31.Sub;
    FeSumDifference(e.a, d.a);
    FeSumDifference(e.b, d.b);
  }

  lemma {:induction false} DistribLeft(x: F2, y: F2, z: F2)
    ensures x.Add(y).Mul(z) == x.Mul(z).Add(y.Mul(z))
  {
    hide *;
    MulComm(x.Add(y), z);
    Distrib(z, x, y);
    MulComm(z, x);
    MulComm(z, y);
  }

  /** (u + v) + (x + y) == (u + x) + (v + y) */
  lemma {:induction false} AddSwap(u: F2, v: F2, x: F2, y: F2)
    ensures u.Add(v).Add(x.Add(y)) == u.Add(x).Add(v.Add(y))
  {
    hide *;
    AddLaws(u, v, x.Add(y));
    AddLaws(v, x, y);
    AddLaws(x, v, y);
    AddLaws(u, x, v.Add(y));
  }

  // ---------------------------------------------------------------- one pair of values

  /** The prover's and verifier's combination of the values at x and -x, given 1/x. */
  function FoldPair(v0: F2, v1: F2, inverse: F2, beta: F2): F2 {
    var fe := v0.Add(v1).Scale(HALF);
    var fo := v0.Sub(v1).Mul(inverse).Scale(HALF);
    fe.Add(beta.Mul(fo))
  }

  /** From e + x*o and e - x*o the fold recovers e + beta*o. */
  lemma {:induction false} FoldPairSolves(e: F2, o: F2, x: F2, inverse: F2, beta: F2)
    requires x.Mul(inverse) == ONE
    ensures FoldPair(e.Add(x.Mul(o)), e.Sub(x.Mul(o)), inverse, beta) == e.Add(beta.Mul(o))
  {
    hide F2.Add, F2.Sub, F2.Mul, F2.Scale, HALF;
    var d := x.Mul(o);
    SumDifference(e, d);
    Halves(e);
    DistribLeft(d, d, inverse);
    MulComm(x, o);
    MulAssoc(o, x, inverse);
    MulOne(o);
    Halves(o);
  }

  // ---------------------------------------------------------------- polynomials

  /** Coefficients from the constant term up, by Horner's rule. */
  function Eval(f: seq<F2>, x: F2): F2 {
    if f == [] then ZERO else f[0].Add(x.Mul(Eval(f[1..], x)))
  }

  function Evens(f: seq<F2>): seq<F2> {
    if f == [] then [] else [f[0]] + Odds(f[1..])
  }

  function Odds(f: seq<F2>): seq<F2> {
    if f == [] then [] else Evens(f[1..])
  }

  lemma {:induction false} EvalCons(c: F2, f: seq<F2>, x: F2)
    ensures Eval([c] + f, x) == c.Add(x.Mul(Eval(f, x)))
  {
    hide F2.Add, F2.Mul;
    assert ([c] + f)[1..] == f;
  }

  /** f(x) == fe(x^2) + x*fo(x^2) */
  lemma {:induction false} EvalSplit(f: seq<F2>, x: F2, y: F2)
    requires y == x.Mul(x)
    ensures Eval(f, x) == Eval(Evens(f), y).Add(x.Mul(Eval(Odds(f), y)))
  {
    if f == [] {
      EvalSplitEmpty(x);
    } else {
      hide F2.Add, F2.Mul, ZERO;
      EvalSplit(f[1..], x, y);
      EvalCons(f[0], Odds(f[1..]), y);
      SplitStep(f[0], Eval(Evens(f[1..]), y), Eval(Odds(f[1..]), y), x, y);
    }
  }

  lemma {:induction false} EvalSplitEmpty(x: F2)
    ensures ZERO == ZERO.Add(x.Mul(ZERO))
  {
    hide F2.Mul;
    MulZero(x);
  }

  /** c + x*(e + x*o) == (c + x^2*o) + x*e */
  lemma {:induction false} SplitStep(c: F2, e: F2, o: F2, x: F2, y: F2)
    requires y == x.Mul(x)
    ensures c.Add(x.Mul(e.Add(x.Mul(o)))) == c.Add(y.Mul(o)).Add(x.Mul(e))
  {
    hide *;
    Distrib(x, e, x.Mul(o));
    MulAssoc(x, x, o);
    AddLaws(x.Mul(e), y.Mul(o), ZERO);
    AddLaws(c, y.Mul(o), x.Mul(e));
  }

  /** f(-x) == fe(x^2) - x*fo(x^2) */
  lemma {:induction false} EvalMinus(f: seq<F2>, x: F2, y: F2)
    requires y == x.Mul(x)
    ensures Eval(f, x.Mul(MINUS_ONE)) == Eval(Evens(f), y).Sub(x.Mul(Eval(Odds(f), y)))
  {
    hide *;
    var (e, o, m) := (Eval(Evens(f), y), Eval(Odds(f), y), x.Mul(MINUS_ONE));
    PowersOfI();
    MulSwap(x, MINUS_ONE, x, MINUS_ONE);
    MulOne(y);
    EvalSplit(f, m, y);
    MulAssoc(x, MINUS_ONE, o);
    MulComm(MINUS_ONE, o);
    MulAssoc(x, o, MINUS_ONE);
    TimesMinusOne(x.Mul(o));
    AddLaws(e, x.Mul(o), ZERO);
  }

  // ---------------------------------------------------------------- folded coefficients

  /** Coefficients combined two by two: f0 + beta*f1, f2 + beta*f3, ... */
  function FoldPoly(f: seq<F2>, beta: F2): (g: seq<F2>)
    ensures |g| == (|f| + 1) / 2
  {
    if f == [] then []
    else if |f| == 1 then f
    else [f[0].Add(beta.Mul(f[1]))] + FoldPoly(f[2..], beta)
  }

  lemma {:induction false} EvalFoldPoly(f: seq<F2>, beta: F2, y: F2)
    ensures Eval(FoldPoly(f, beta), y) == Eval(Evens(f), y).Add(beta.Mul(Eval(Odds(f), y)))
  {
    if |f| == 0 {
      EvalSplitEmpty(beta);
    } else if |f| == 1 {
      EvalFoldSingle(f, beta, y);
    } else {
      hide F2.Add, F2.Mul, ZERO;
      var rest := f[2..];
      EvalFoldPoly(rest, beta, y);
      assert f[1..][1..] == rest;
      EvalCons(f[0].Add(beta.Mul(f[1])), FoldPoly(rest, beta), y);
      EvalCons(f[0], Evens(rest), y);
      EvalCons(f[1], Odds(rest), y);
      FoldStep(f[0], f[1], Eval(Evens(rest), y), Eval(Odds(rest), y), beta, y);
    }
  }

  lemma {:induction false} EvalFoldSingle(f: seq<F2>, beta: F2, y: F2)
    requires |f| == 1
    ensures Eval(f, y) == Eval(Evens(f), y).Add(beta.Mul(Eval(Odds(f), y)))
  {
    hide F2.Add, F2.Mul;
    assert f[1..] == [] && Evens(f) == f && Odds(f) == [];
    MulZero(beta);
    AddLaws(Eval(f, y), ZERO, ZERO);
  }

  /** (a + beta*b) + y*(e + beta*o) == (a + y*e) + beta*(b + y*o) */
  lemma {:induction false} FoldStep(a: F2, b: F2, e: F2, o: F2, beta: F2, y: F2)
    ensures a.Add(beta.Mul(b)).Add(y.Mul(e.Add(beta.Mul(o)))) == a.Add(y.Mul(e)).Add(beta.Mul(b.Add(y.Mul(o))))
  {
    hide *;
    Distrib(y, e, beta.Mul(o));
    Distrib(beta, b, y.Mul(o));
    MulAssoc(y, beta, o);
    MulComm(y, beta);
    MulAssoc(beta, y, o);
    AddSwap(a, beta.Mul(b), y.Mul(e), beta.Mul(y.Mul(o)));
  }

  // ---------------------------------------------------------------- one layer

  predicate LayerSize(n: nat) { n == 2 || n == 4 || n == 8 || n == 16 }

  /** DOMAIN / n * i, the exponent of the i-th point of the domain of size n. */
  function Exponent(n: nat, i: nat): nat {
    if n == 16 then i else if n == 8 then 2 * i else if n == 4 then 4 * i else if n == 2 then 8 * i else 16 * i
  }

  function Point(n: nat, i: nat): F2 {
    FPow(Omega(), Exponent(n, i))
  }

  /** 1/omega^e */
  function PointInverse(e: nat): F2 {
    FPow(Omega(), DOMAIN - e % DOMAIN)
  }

  lemma {:induction false} InverseOfPoint(e: nat)
    requires e < DOMAIN
    ensures FPow(Omega(), e).Mul(PointInverse(e)) == ONE
  {
    hide F2.Mul, FPow, Omega;
    FPowAdd(Omega(), e, DOMAIN - e);
    OmegaOrder(16);
  }

  function Fold(ev: seq<F2>, beta: F2): (out: seq<F2>)
    requires LayerSize(|ev|)
    ensures |out| == |ev| / 2
  {
    seq(|ev| / 2, i requires 0 <= i < |ev| / 2 =>
      FoldPair(ev[i], ev[i + |ev| / 2], PointInverse(Exponent(|ev|, i)), beta))
  }

  /** The values of f on the domain of size n. */
  ghost predicate Codeword(ev: seq<F2>, f: seq<F2>, n: nat) {
    |ev| == n && forall i :: 0 <= i < n ==> ev[i] == Eval(f, Point(n, i))
  }

  /** The second half of a domain holds the negatives of the first, and the next domain its squares. */
  lemma {:induction false} DomainGeometry(n: nat, i: nat)
    requires LayerSize(n) && i < n / 2
    ensures Point(n, i + n / 2) == Point(n, i).Mul(MINUS_ONE)
    ensures Point(n / 2, i) == Point(n, i).Mul(Point(n, i))
  {
    hide F2.Mul, FPow, Omega;
    var e := Exponent(n, i);
    assert Exponent(n, i + n / 2) == e + 8;
    assert Exponent(n / 2, i) == e + e;
    FPowAdd(Omega(), e, 8);
    FPowAdd(Omega(), e, e);
    OmegaOrder(0);
  }

  lemma {:induction false} FoldPoint(f: seq<F2>, beta: F2, n: nat, i: nat)
    requires LayerSize(n) && i < n / 2
    ensures FoldPair(Eval(f, Point(n, i)), Eval(f, Point(n, i + n / 2)), PointInverse(Exponent(n, i)), beta)
         == Eval(FoldPoly(f, beta), Point(n / 2, i))
  {
    hide FoldPair, Eval, FoldPoly, PointInverse, F2.Mul, F2.Add, F2.Sub, FPow, Omega, Evens, Odds;
    DomainGeometry(n, i);
    var (x, y) := (Point(n, i), Point(n / 2, i));
    InverseOfPoint(Exponent(n, i));
    EvalSplit(f, x, y);
    EvalMinus(f, x, y);
    FoldPairSolves(Eval(Evens(f), y), Eval(Odds(f), y), x, PointInverse(Exponent(n, i)), beta);
    EvalFoldPoly(f, beta, y);
  }

  /** Folding a codeword gives the codeword of the folded polynomial on the squared domain. */
  lemma {:induction false} FoldCodeword(ev: seq<F2>, f: seq<F2>, beta: F2, n: nat)
    requires LayerSize(n) && Codeword(ev, f, n)
    ensures Codeword(Fold(ev, beta), FoldPoly(f, beta), n / 2)
  {
    hide FoldPair, Eval, FoldPoly, PointInverse, Point;
    forall i | 0 <= i < n / 2
      ensures Fold(ev, beta)[i] == Eval(FoldPoly(f, beta), Point(n / 2, i))
    {
      FoldPoint(f, beta, n, i);
    }
  }

  // ---------------------------------------------------------------- swapping the two values

  lemma {:induction false} ExistsInverse(z: F2) returns (w: F2)
    requires z != ZERO
    ensures z.Mul(w) == ONE
  {
    hide M31.Red, M31.Add, M31.Sub, M31.Mul, F2.Mul, Pow;
    var n := M31.Add(M31.Mul(z.a, z.a), M31.Mul(z.b, z.b));
    var i: Fe := Pow(n, 0x7FFF_FFFD) % 0x7FFF_FFFF;
    CongMod(i, Pow(n, 0x7FFF_FFFD), M31.P);
    M31.InverseByFermat(n, 0x7FFF_FFFD, i);
    w := F2(M31.Mul(z.a, i), M31.Mul(M31.Sub(0, z.b), i));
    InverseThroughNorm(z, n, i, w);
  }

  lemma {:induction false} NoZeroDivisors(x: F2, y: F2)
    ensures x.Mul(y) == ZERO <==> x == ZERO || y == ZERO
  {
    hide F2.Mul;
    MulZero(x);
    MulZero(y);
    if x != ZERO && x.Mul(y) == ZERO {
      var w := ExistsInverse(x);
      CancelUnit(x, w, y, ZERO);
    }
  }

  lemma {:induction false} FeOpposite(v: Fe, w: Fe)
    ensures M31.Sub(v, w) == 0 <==> v == w
    ensures M31.Sub(w, v) == if v == w then 0 else 0x7FFF_FFFF - M31.Sub(v, w)
  {
    hide M31.Red, M31.Sub;
    var x: int, y: int := v - w, w - v;
    assert x % 0x7FFF_FFFF == if w <= v then x else x + 0x7FFF_FFFF;
    assert y % 0x7FFF_FFFF == if v <= w then y else y + 0x7FFF_FFFF;
  }

  /** x/2 when x is even and (x + P)/2 when it is odd. */
  function HalfValue(x: Fe): Fe { if x % 2 == 0 then x / 2 else (x + 0x7FFF_FFFF) / 2 }

  lemma {:induction false} HalfOf(x: Fe)
    ensures M31.Mul(x, HALF) == HalfValue(x)
  {
    var (k, r) := (x / 2, HalfValue(x));
    assert x * 0x4000_0000 == k * 0x7FFF_FFFF + r;
    hide M31.Red, M31.Mul, HalfValue;
    DivModUnique(x * 0x4000_0000, 0x7FFF_FFFF, k, r);
  }

  lemma {:induction false} HalfOpposite(x: Fe)
    ensures HalfValue(x) == 0 <==> x == 0
    ensures x != 0 ==> HalfValue(0x7FFF_FFFF - x) == 0x7FFF_FFFF - HalfValue(x)
  {
  }

  lemma {:induction false} FeHalf(v: Fe, w: Fe)
    ensures M31.Mul(M31.Sub(w, v), HALF) == M31.Sub(0, M31.Mul(M31.Sub(v, w), HALF))
    ensures M31.Mul(M31.Sub(v, w), HALF) == 0 <==> v == w
  {
    hide M31.Red, M31.Sub, M31.Mul;
    FeOpposite(v, w);
    HalfOfDifference(M31.Sub(v, w), M31.Sub(w, v));
  }

  lemma {:induction false} HalfOfDifference(x: Fe, y: Fe)
    requires y == if x == 0 then 0 else 0x7FFF_FFFF - x
    ensures M31.Mul(y, HALF) == M31.Sub(0, M31.Mul(x, HALF))
    ensures M31.Mul(x, HALF) == 0 <==> x == 0
  {
    hide *;
    HalfOf(x);
    HalfOf(y);
    HalfOpposite(x);
    NegateValue(M31.Mul(x, HALF));
  }

  /** The odd part changes sign when the two values trade places, and vanishes when they are equal. */
  lemma {:induction false} OddPartFlips(v0: F2, v1: F2)
    ensures v1.Sub(v0).Scale(HALF) == v0.Sub(v1).Scale(HALF).Neg()
    ensures v0.Sub(v1).Scale(HALF) == ZERO <==> v0 == v1
  {
    hide M31.Red, M31.Sub, M31.Mul, HALF;
    FeHalf(v0.a, v1.a);
    FeHalf(v0.b, v1.b);
  }

  lemma {:induction false} OwnNegative(z: F2)
    ensures z.Neg() == z <==> z == ZERO
  {
    hide M31.Red, M31.Sub;
    NegateValue(z.a);
    NegateValue(z.b);
  }

  lemma {:induction false} CancelAdd(a: F2, x: F2, y: F2)
    requires a.Add(x) == a.Add(y)
    ensures x == y
  {
    hide *;
    var n := a.Neg();
    AddLaws(a, n, ZERO);
    AddLaws(n, a, x);
    AddLaws(n, a, y);
    AddLaws(x, ZERO, ZERO);
    AddLaws(y, ZERO, ZERO);
    AddLaws(n, a, ZERO);
    AddLaws(ZERO, x, ZERO);
    AddLaws(ZERO, y, ZERO);
  }

  /** Trading the two values keeps the fold at the point 1 exactly when the challenge is zero or the
      values are equal. */
  lemma {:induction false} SwapExactly(v0: F2, v1: F2, beta: F2)
    ensures FoldPair(v1, v0, PointInverse(0), beta) == FoldPair(v0, v1, PointInverse(0), beta)
       <==> beta == ZERO || v0 == v1
  {
    hide F2.Add, F2.Sub, F2.Mul, F2.Scale, F2.Neg, HALF, FPow, Omega;
    OmegaOrder(16);
    var fo := v0.Sub(v1).Scale(HALF);
    MulOne(v0.Sub(v1));
    MulOne(v1.Sub(v0));
    OddPartFlips(v0, v1);
    AddLaws(v0, v1, ZERO);
    var (fe, t) := (v0.Add(v1).Scale(HALF), beta.Mul(fo));
    TimesMinusOne(fo);
    TimesMinusOne(t);
    MulAssoc(beta, fo, MINUS_ONE);
    NoZeroDivisors(beta, fo);
    OwnNegative(t);
    if fe.Add(t.Neg()) == fe.Add(t) {
      CancelAdd(fe, t.Neg(), t);
    }
  }

  // ---------------------------------------------------------------- the loop

  /** The field inverse of a point of the domain is the matching power of omega. */
  lemma {:induction false} InverseIsPower(e: nat, x: F2, inverse: F2)
    requires e < DOMAIN && x == FPow(Omega(), e)
    requires x != ZERO ==> x.Mul(inverse) == ONE
    ensures inverse == PointInverse(e)
  {
    hide F2.Mul, FPow, Omega, PointInverse;
    InverseOfPoint(e);
    MulZero(PointInverse(e));
    CancelUnit(x, inverse, inverse, PointInverse(e));
  }

  method Halve() returns (h: Fe)
    ensures h == HALF
  {
    h := M31.Inv(2);
    assert M31.Mul(2, HALF) == 1;
    M31.InverseUnique(2, h, HALF);
  }

  /** The values at index i and i + n/2 combined, as prover and verifier both do. */
  method Combine(v0: F2, v1: F2, n: nat, i: nat, beta: F2) returns (folded: F2)
    requires n == 1 || (LayerSize(n) && i < n / 2)
    requires n == 1 ==> i == 0
    ensures folded == FoldPair(v0, v1, PointInverse(Exponent(n, i)), beta)
  {
    hide M31.Red, M31.Add, M31.Mul, F2.Mul, F2.Add, F2.Sub, FPow, Omega, PointInverse;
    var w := Omega16();
    assert DOMAIN / n * i == Exponent(n, i) < DOMAIN;
    var x := PowF2(w, DOMAIN / n * i);
    var inverse := InvF2(x);
    InverseIsPower(Exponent(n, i), x, inverse);
    var h := Halve();
    var fe := v0.Add(v1).Scale(h);
    var fo := v0.Sub(v1).Mul(inverse).Scale(h);
    folded := fe.Add(beta.Mul(fo));
  }

  method FoldLayer(evals: seq<F2>, beta: F2) returns (out: seq<F2>)
    requires LayerSize(|evals|)
    ensures out == Fold(evals, beta)
  {
    hide FoldPair, PointInverse;
    var n := |evals|;
    var half := n / 2;
    var buffer := new F2[half](_ => ZERO);
    var i := 0;
    while i < half
      invariant 0 <= i <= half
      invariant forall k :: 0 <= k < i ==> buffer[k] == Fold(evals, beta)[k]
    {
      var folded := Combine(evals[i], evals[i + half], n, i, beta);
      buffer[i] := folded;
      i := i + 1;
    }
    out := buffer[..];
  }
}
