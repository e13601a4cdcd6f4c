/** The Reed-Solomon code behind crates/lean-aggregate/src/fri.rs: evaluation is additive, and a
    polynomial with at most n coefficients is determined by its values on the domain of size n. */
module FriCode {
  import opened M31Extension
  import opened M31Omega
  import opened FriFold

  // ---------------------------------------------------------------- evaluation is additive

  function AddPoly(f: seq<F2>, g: seq<F2>): (r: seq<F2>)
    requires |f| == |g|
    ensures |r| == |f|
  {
    if f == [] then [] else [f[0].Add(g[0])] + AddPoly(f[1..], g[1..])
  }

  lemma {:induction false} EvalAdd(f: seq<F2>, g: seq<F2>, x: F2)
    requires |f| == |g|
    ensures Eval(AddPoly(f, g), x) == Eval(f, x).Add(Eval(g, x))
  {
    hide F2.Add, F2.Mul;
    if f == [] {
      AddLaws(ZERO, ZERO, ZERO);
    } else {
      EvalAdd(f[1..], g[1..], x);
      EvalCons(f[0].Add(g[0]), AddPoly(f[1..], g[1..]), x);
      var (u, v) := (Eval(f[1..], x), Eval(g[1..], x));
      Distrib(x, u, v);
      AddSwap(f[0], g[0], x.Mul(u), x.Mul(v));
    }
  }

  // ---------------------------------------------------------------- one power at a time

  /** a + p*(c + x*e) == (a + p*c) + (p*x)*e */
  lemma {:induction false} PowerStep(a: F2, p: F2, c: F2, e: F2, x: F2)
    ensures a.Add(p.Mul(c.Add(x.Mul(e)))) == a.Add(p.Mul(c)).Add(p.Mul(x).Mul(e))
  {
    hide *;
    Distrib(p, c, x.Mul(e));
    MulAssoc(p, x, e);
    AddLaws(a, p.Mul(c), p.Mul(x.Mul(e)));
  }

  // ---------------------------------------------------------------- values determine the polynomial

  lemma {:induction false} SplitSizes(f: seq<F2>)
    ensures |Evens(f)| == (|f| + 1) / 2 && |Odds(f)| == |f| / 2
  {
    if f != [] {
      SplitSizes(f[1..]);
    }
  }

  lemma {:induction false} Interleave(f: seq<F2>, g: seq<F2>)
    requires |f| == |g| && Evens(f) == Evens(g) && Odds(f) == Odds(g)
    ensures f == g
  {
    if f != [] {
      assert Evens(f)[0] == f[0] && Evens(f)[1..] == Odds(f[1..]);
      assert Evens(g)[0] == g[0] && Evens(g)[1..] == Odds(g[1..]);
      Interleave(f[1..], g[1..]);
      assert f == [f[0]] + f[1..] && g == [g[0]] + g[1..];
    }
  }

  /** Equal values at x and -x mean equal even and equal odd parts at x^2. */
  lemma {:induction false} PartsAgree(f: seq<F2>, g: seq<F2>, x: F2, inverse: F2, y: F2)
    requires y == x.Mul(x) && x.Mul(inverse) == ONE
    requires Eval(f, x) == Eval(g, x) && Eval(f, x.Mul(MINUS_ONE)) == Eval(g, x.Mul(MINUS_ONE))
    ensures Eval(Evens(f), y) == Eval(Evens(g), y) && Eval(Odds(f), y) == Eval(Odds(g), y)
  {
    hide *;
    var (e, o) := (Eval(Evens(f), y), Eval(Odds(f), y));
    var (e', o') := (Eval(Evens(g), y), Eval(Odds(g), y));
    EvalSplit(f, x, y);
    EvalMinus(f, x, y);
    EvalSplit(g, x, y);
    EvalMinus(g, x, y);
    FoldPairSolves(e, o, x, inverse, ZERO);
    FoldPairSolves(e', o', x, inverse, ZERO);
    MulZero(o);
    MulZero(o');
    AddLaws(e, ZERO, ZERO);
    AddLaws(e', ZERO, ZERO);
    FoldPairSolves(e, o, x, inverse, ONE);
    FoldPairSolves(e', o', x, inverse, ONE);
    MulOne(o);
    MulOne(o');
    CancelAdd(e, o, o');
  }

  ghost predicate SameValues(f: seq<F2>, g: seq<F2>, n: nat) {
    forall i :: 0 <= i < n ==> Eval(f, Point(n, i)) == Eval(g, Point(n, i))
  }

  lemma {:induction false} SameParts(f: seq<F2>, g: seq<F2>, n: nat)
    requires LayerSize(n) && SameValues(f, g, n)
    ensures SameValues(Evens(f), Evens(g), n / 2) && SameValues(Odds(f), Odds(g), n / 2)
  {
    hide Eval, Evens, Odds, Point, F2.Mul;
    forall i | 0 <= i < n / 2
      ensures Eval(Evens(f), Point(n / 2, i)) == Eval(Evens(g), Point(n / 2, i))
      ensures Eval(Odds(f), Point(n / 2, i)) == Eval(Odds(g), Point(n / 2, i))
    {
      DomainGeometry(n, i);
      PointIsUnit(n, i);
      PartsAgree(f, g, Point(n, i), PointInverse(Exponent(n, i)), Point(n / 2, i));
    }
  }

  lemma {:induction false} PointIsUnit(n: nat, i: nat)
    requires LayerSize(n) && i < n / 2
    ensures Point(n, i).Mul(PointInverse(Exponent(n, i))) == ONE
  {
    hide F2.Mul, PointInverse;
    InverseOfPoint(Exponent(n, i));
  }

  /** Two polynomials with equally many, at most n, coefficients and the same values on the domain of
      size n are equal. */
  lemma {:induction false} ValuesDetermine(f: seq<F2>, g: seq<F2>, n: nat)
    requires n == 1 || LayerSize(n)
    requires |f| == |g| <= n && SameValues(f, g, n)
    ensures f == g
    decreases n
  {
    if n == 1 {
      assert Eval(f, Point(1, 0)) == Eval(g, Point(1, 0));
      EvalConstant(f, Point(1, 0));
      EvalConstant(g, Point(1, 0));
    } else {
      hide Eval, Evens, Odds, SameValues;
      SameParts(f, g, n);
      SplitSizes(f);
      SplitSizes(g);
      ValuesDetermine(Evens(f), Evens(g), n / 2);
      ValuesDetermine(Odds(f), Odds(g), n / 2);
      Interleave(f, g);
    }
  }

  lemma {:induction false} EvalConstant(f: seq<F2>, x: F2)
    requires |f| <= 1
    ensures Eval(f, x) == if f == [] then ZERO else f[0]
  {
    if |f| == 1 {
      hide F2.Mul, F2.Add;
      assert f[1..] == [];
      MulZero(x);
      AddLaws(f[0], ZERO, ZERO);
    }
  }
}
