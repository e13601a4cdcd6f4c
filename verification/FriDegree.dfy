/** Honest FRI proofs and the degree (crates/lean-aggregate/src/fri.rs): the proof of 16 values is
    accepted under all challenges exactly when the values are those of a polynomial with at most eight
    coefficients. */
module FriDegree {
  import opened M31Extension
  import opened M31Roots
  import opened M31Omega
  import opened FriFold
  import opened FriCode
  import opened Merkle
  import opened Fri
  import M31

  // ---------------------------------------------------------------- every list of values is a codeword

  /** (s + d)/2 and x * ((d/x)/2) give back v0, and their difference v1. */
  lemma {:induction false} Unfold(v0: F2, v1: F2, x: F2, inverse: F2)
    requires x.Mul(inverse) == ONE
    ensures var e := FoldPair(v0, v1, inverse, ZERO);
            var o := FoldPair(v0, v1, inverse, ONE).Sub(e);
            e.Add(x.Mul(o)) == v0 && e.Sub(x.Mul(o)) == v1
  {
    hide F2.Add, F2.Sub, F2.Mul, F2.Scale, HALF, ZERO, ONE;
    var (fe, fo) := (v0.Add(v1).Scale(HALF), v0.Sub(v1).Mul(inverse).Scale(HALF));
    MulZero(fo);
    MulOne(fo);
    AddLaws(fe, ZERO, ZERO);
    CancelSub(fe, fo);
    TimesHalf(v0.Sub(v1), x, inverse);
    HalfSum(v0, v1);
  }

  /** (a + b) - a == b */
  lemma {:induction false} CancelSub(a: F2, b: F2)
    ensures a.Add(b).Sub(a) == b
  {
    hide *;
    var n := a.Neg();
    AddLaws(a.Add(b), a, ZERO);
    AddLaws(a, b, n);
    AddLaws(b, n, ZERO);
    AddLaws(b, a, n);
    AddLaws(a, n, ZERO);
    AddLaws(b, ZERO, ZERO);
  }

  /** x * ((d/x)/2) == d/2 */
  lemma {:induction false} TimesHalf(d: F2, x: F2, inverse: F2)
    requires x.Mul(inverse) == ONE
    ensures x.Mul(d.Mul(inverse).Scale(HALF)) == d.Scale(HALF)
  {
    hide F2.Mul, F2.Scale, HALF, ONE;
    var h := F2(HALF, 0);
    ScaleIs(d.Mul(inverse));
    ScaleIs(d);
    MulAssoc(x, d.Mul(inverse), h);
    MulComm(d, inverse);
    MulAssoc(x, inverse, d);
    MulOne(d);
  }

  lemma {:induction false} ScaleIs(z: F2)
    ensures z.Scale(HALF) == z.Mul(F2(HALF, 0))
  {
    hide M31.Red, M31.Add, M31.Sub, M31.Mul;
    CrossSub(z.a, HALF, z.b, 0);
    CrossAdd(z.a, 0, z.b, HALF);
  }

  /** (v0 + v1)/2 plus and minus (v0 - v1)/2. */
  lemma {:induction false} HalfSum(v0: F2, v1: F2)
    ensures var (e, d) := (v0.Add(v1).Scale(HALF), v0.Sub(v1).Scale(HALF));
            e.Add(d) == v0 && e.Sub(d) == v1
  {
    hide *;
    var h := F2(HALF, 0);
    var (s, t) := (v0.Add(v1), v0.Sub(v1));
    ScaleIs(s);
    ScaleIs(t);
    SumDifference(v0, v1);
    DistribLeft(s, t, h);
    ScaleIs(v0.Add(v0));
    Halves(v0);
    DistribLeft(s, t.Neg(), h);
    ScaleIs(v1.Add(v1));
    Halves(v1);
    NegTimes(t, h);
    AddLaws(s, t, ZERO);
    AddLaws(s.Mul(h), t.Mul(h), ZERO);
  }

  lemma {:induction false} NegTimes(t: F2, h: F2)
    ensures t.Neg().Mul(h) == t.Mul(h).Neg()
  {
    hide *;
    TimesMinusOne(t);
    TimesMinusOne(t.Mul(h));
    MulAssoc(t, MINUS_ONE, h);
    MulComm(MINUS_ONE, h);
    MulAssoc(t, h, MINUS_ONE);
  }

  /** Even and odd coefficients in turn. */
  function Weave(e: seq<F2>, o: seq<F2>): (f: seq<F2>)
    requires |e| == |o|
    ensures |f| == 2 * |e|
  {
    if e == [] then [] else [e[0], o[0]] + Weave(e[1..], o[1..])
  }

  lemma {:induction false} WeaveSplits(e: seq<F2>, o: seq<F2>)
    requires |e| == |o|
    ensures Evens(Weave(e, o)) == e && Odds(Weave(e, o)) == o
  {
    if e != [] {
      WeaveSplits(e[1..], o[1..]);
      var (f, rest) := (Weave(e, o), Weave(e[1..], o[1..]));
      assert f[1..][1..] == rest && f[0] == e[0] && f[1..][0] == o[0];
      assert Evens(f) == [e[0]] + Odds(f[1..]) && Odds(f) == Evens(f[1..]);
      assert Odds(f[1..]) == Evens(rest) && Evens(f[1..]) == [o[0]] + Odds(rest);
    }
  }

  function Difference(s: seq<F2>, t: seq<F2>): (d: seq<F2>)
    requires |s| == |t|
    ensures |d| == |s| && forall i :: 0 <= i < |s| ==> d[i] == s[i].Sub(t[i])
  {
    seq(|s|, i requires 0 <= i < |s| => s[i].Sub(t[i]))
  }

  /** Interpolation: any n values are those of a polynomial with n coefficients. */
  lemma {:induction false} Interpolate(ev: seq<F2>, n: nat) returns (f: seq<F2>)
    requires (n == 1 || LayerSize(n)) && |ev| == n
    ensures |f| == n && Codeword(ev, f, n)
    decreases n
  {
    hide Codeword, Fold, Weave, Difference;
    if n == 1 {
      f := ev;
      OneValue(ev);
    } else {
      var e := Fold(ev, ZERO);
      var o := Difference(Fold(ev, ONE), e);
      var fe := Interpolate(e, n / 2);
      var fo := Interpolate(o, n / 2);
      f := Weave(fe, fo);
      WeaveSplits(fe, fo);
      WovenCodeword(ev, n, f, fe, fo);
    }
  }

  lemma {:induction false} OneValue(ev: seq<F2>)
    requires |ev| == 1
    ensures Codeword(ev, ev, 1)
  {
    hide Point, Eval;
    EvalConstant(ev, Point(1, 0));
  }

  lemma {:induction false} WovenCodeword(ev: seq<F2>, n: nat, f: seq<F2>, fe: seq<F2>, fo: seq<F2>)
    requires LayerSize(n) && |ev| == n && Evens(f) == fe && Odds(f) == fo
    requires Codeword(Fold(ev, ZERO), fe, n / 2)
    requires Codeword(Difference(Fold(ev, ONE), Fold(ev, ZERO)), fo, n / 2)
    ensures Codeword(ev, f, n)
  {
    hide Eval, Point, Fold, Difference, Evens, Odds;
    forall k | 0 <= k < n
      ensures ev[k] == Eval(f, Point(n, k))
    {
      WovenValues(ev, n, f, fe, fo, if k < n / 2 then k else k - n / 2);
    }
  }

  lemma {:induction false} WovenValues(ev: seq<F2>, n: nat, f: seq<F2>, fe: seq<F2>, fo: seq<F2>, i: nat)
    requires LayerSize(n) && |ev| == n && i < n / 2 && Evens(f) == fe && Odds(f) == fo
    requires Codeword(Fold(ev, ZERO), fe, n / 2)
    requires Codeword(Difference(Fold(ev, ONE), Fold(ev, ZERO)), fo, n / 2)
    ensures ev[i] == Eval(f, Point(n, i)) && ev[i + n / 2] == Eval(f, Point(n, i + n / 2))
  {
    hide FoldPair, Eval, PointInverse, F2.Mul, F2.Add, F2.Sub, Evens, Odds, Point, Fold;
    var (x, y, inverse) := (Point(n, i), Point(n / 2, i), PointInverse(Exponent(n, i)));
    DomainGeometry(n, i);
    PointIsUnit(n, i);
    FoldAt(ev, ZERO, i);
    FoldAt(ev, ONE, i);
    EvalSplit(f, x, y);
    EvalMinus(f, x, y);
    Unfold(ev[i], ev[i + n / 2], x, inverse);
  }

  // ---------------------------------------------------------------- challenges that keep the top alive

  predicate NonZero(g: seq<F2>) { exists i :: 0 <= i < |g| && g[i] != ZERO }

  lemma {:induction false} FoldPolyAt(f: seq<F2>, beta: F2, j: nat)
    requires 2 * j + 1 < |f|
    ensures FoldPoly(f, beta)[j] == f[2 * j].Add(beta.Mul(f[2 * j + 1]))
    decreases j
  {
    hide F2.Add, F2.Mul;
    if j > 0 {
      assert f[2..][2 * (j - 1)] == f[2 * j] && f[2..][2 * (j - 1) + 1] == f[2 * j + 1];
      FoldPolyAt(f[2..], beta, j - 1);
    }
  }

  /** A challenge of zero or one under which a nonzero list stays nonzero. */
  lemma {:induction false} Survives(g: seq<F2>) returns (beta: F2)
    requires NonZero(g) && |g| % 2 == 0
    ensures NonZero(FoldPoly(g, beta))
  {
    hide F2.Add, F2.Mul, FoldPoly;
    var i :| 0 <= i < |g| && g[i] != ZERO;
    var j := i / 2;
    var (u, v) := (g[2 * j], g[2 * j + 1]);
    beta := if u != ZERO then ZERO else ONE;
    FoldPolyAt(g, beta, j);
    MulZero(v);
    MulOne(v);
    AddLaws(u, ZERO, ZERO);
    AddLaws(ZERO, v, ZERO);
    AddLaws(v, ZERO, ZERO);
  }

  lemma {:induction false} FoldConcat(f: seq<F2>, g: seq<F2>, beta: F2)
    requires |f| % 2 == 0
    ensures FoldPoly(f + g, beta) == FoldPoly(f, beta) + FoldPoly(g, beta)
  {
    hide F2.Add, F2.Mul;
    if f == [] {
      assert f + g == g;
    } else {
      assert (f + g)[2..] == f[2..] + g;
      FoldConcat(f[2..], g, beta);
    }
  }

  /** Three folds of 16 coefficients: the first eight end in the first slot, the last eight in the
      second. */
  lemma {:induction false} ThreeFolds(f: seq<F2>, b0: F2, b1: F2, b2: F2)
    requires |f| == 16
    ensures FoldPoly(FoldPoly(FoldPoly(f, b0), b1), b2)
         == FoldPoly(FoldPoly(FoldPoly(f[..8], b0), b1), b2) + FoldPoly(FoldPoly(FoldPoly(f[8..], b0), b1), b2)
  {
    hide FoldPoly;
    var (l, r) := (f[..8], f[8..]);
    assert f == l + r;
    FoldConcat(l, r, b0);
    FoldConcat(FoldPoly(l, b0), FoldPoly(r, b0), b1);
    FoldConcat(FoldPoly(FoldPoly(l, b0), b1), FoldPoly(FoldPoly(r, b0), b1), b2);
  }

  /** Fixed challenges, the last one not zero, and queries at index one. */
  function Fixed(h: Hash, b0: F2, b1: F2, b2: F2): Oracle {
    Oracle(h, (roots, l) => if l == 0 then b0 else if l == 1 then b1 else if l == 2 then b2 else ONE, (root, q) => 1)
  }

  lemma {:induction false} FixedAnswers(h: Hash, b0: F2, b1: F2, b2: F2, ev: seq<F2>)
    requires |ev| == DOMAIN
    ensures var o := Fixed(h, b0, b1, b2);
            && Beta(o, ev, 0) == b0 && Beta(o, ev, 1) == b1 && Beta(o, ev, 2) == b2 && Beta(o, ev, 3) != ZERO
            && o.hash == h && QueryIndex(o, RootOf(h, ev), 0) == 1
  {
    hide Roots, Layers, RootOf;
  }

  /** a + b and a - b differ when b is not zero. */
  lemma {:induction false} TwoValuesDiffer(ev: seq<F2>, f: seq<F2>)
    requires |f| == 2 && f[1] != ZERO && Codeword(ev, f, 2)
    ensures ev[0] != ev[1]
  {
    hide F2.Add, F2.Mul, F2.Neg, Eval, ZERO, ONE, FPow, Omega;
    OmegaOrder(0);
    assert Point(2, 0) == FPow(Omega(), 0) && Point(2, 1) == FPow(Omega(), 8);
    LinearAt(f, ONE);
    LinearAt(f, MINUS_ONE);
    MulOne(f[1]);
    MulComm(MINUS_ONE, f[1]);
    TimesMinusOne(f[1]);
    OwnNegative(f[1]);
    if ev[0] == ev[1] {
      CancelAdd(f[0], f[1], f[1].Neg());
    }
  }

  lemma {:induction false} LinearAt(f: seq<F2>, x: F2)
    requires |f| == 2
    ensures Eval(f, x) == f[0].Add(x.Mul(f[1]))
  {
    hide F2.Add, F2.Mul, ZERO;
    EvalConstant(f[1..], x);
  }

  /** Values of a polynomial with a nonzero coefficient from the ninth on are rejected under some
      challenges. */
  lemma {:induction false} HighDegreeRejected(h: Hash, ev: seq<F2>, f: seq<F2>) returns (o: Oracle)
    requires |ev| == DOMAIN && |f| == 16 && Codeword(ev, f, 16) && NonZero(f[8..])
    ensures o.hash == h && Verdict(o, ev, HonestProof(o, ev)) == Reject
  {
    hide *;
    var b0 := Survives(f[8..]);
    var b1 := Survives(FoldPoly(f[8..], b0));
    var b2 := Survives(FoldPoly(FoldPoly(f[8..], b0), b1));
    o := Fixed(h, b0, b1, b2);
    FixedAnswers(h, b0, b1, b2, ev);
    LayerIsCodeword(o, ev, f, 3);
    LayerPolyThree(o, ev, f);
    ThreeFolds(f, b0, b1, b2);
    LastValuesDiffer(o, ev, f, FoldPoly(FoldPoly(FoldPoly(f[8..], b0), b1), b2));
    OddQueryRejected(o, ev);
  }

  lemma {:induction false} LayerPolyThree(o: Oracle, ev: seq<F2>, f: seq<F2>)
    requires |ev| == DOMAIN
    ensures LayerPoly(o, ev, f, 3)
         == FoldPoly(FoldPoly(FoldPoly(f, Beta(o, ev, 0)), Beta(o, ev, 1)), Beta(o, ev, 2))
  {
    hide FoldPoly, Beta;
  }

  lemma {:induction false} LastValuesDiffer(o: Oracle, ev: seq<F2>, f: seq<F2>, top: seq<F2>)
    requires |ev| == DOMAIN && Codeword(Layers(o, ev, 4)[3], LayerPoly(o, ev, f, 3), Size(3))
    requires |LayerPoly(o, ev, f, 3)| == 2 && |top| == 1 && LayerPoly(o, ev, f, 3)[1..] == top && NonZero(top)
    ensures |Layers(o, ev, 4)[3]| == 2 && Layers(o, ev, 4)[3][0] != Layers(o, ev, 4)[3][1]
  {
    hide Layers, LayerPoly, Point, Eval;
    TwoValuesDiffer(Layers(o, ev, 4)[3], LayerPoly(o, ev, f, 3));
  }

  // ---------------------------------------------------------------- the exact degree bound

  lemma {:induction false} TrailingZeros(f: seq<F2>, k: nat, x: F2)
    requires k <= |f| && !NonZero(f[k..])
    ensures Eval(f, x) == Eval(f[..k], x)
    decreases |f|
  {
    hide F2.Add, F2.Mul;
    if f == [] {
    } else if k == 0 {
      assert f[0..] == f && f[0] == ZERO;
      assert forall i :: 0 <= i < |f[1..]| ==> f[1..][i] == f[i + 1];
      assert f[1..][0..] == f[1..] && f[1..][..0] == [] && f[..0] == [];
      TrailingZeros(f[1..], 0, x);
      MulZero(x);
      AddLaws(ZERO, ZERO, ZERO);
    } else {
      assert f[1..][k - 1..] == f[k..] && f[..k][1..] == f[1..][..k - 1];
      TrailingZeros(f[1..], k - 1, x);
    }
  }

  /** Under a given hash, the honest proof of 16 values is accepted whatever the challenges and queries
      if and only if the values come from a polynomial with at most eight coefficients. */
  lemma {:induction false} DegreeExactly(h: Hash, ev: seq<F2>)
    requires |ev| == DOMAIN
    ensures (forall o: Oracle :: o.hash == h ==> Verdict(o, ev, HonestProof(o, ev)) == Accept)
       <==> exists f :: |f| <= 8 && Codeword(ev, f, 16)
  {
    hide Verdict, HonestProof, Codeword;
    var f := Interpolate(ev, 16);
    if NonZero(f[8..]) {
      var o := HighDegreeRejected(h, ev, f);
      if g :| |g| <= 8 && Codeword(ev, g, 16) {
        LowDegreeAccepted(o, ev, g);
      }
    } else {
      ShortCodeword(ev, f);
      forall o: Oracle | o.hash == h
        ensures Verdict(o, ev, HonestProof(o, ev)) == Accept
      {
        LowDegreeAccepted(o, ev, f[..8]);
      }
    }
  }

  lemma {:induction false} ShortCodeword(ev: seq<F2>, f: seq<F2>)
    requires |f| == 16 && Codeword(ev, f, 16) && !NonZero(f[8..])
    ensures Codeword(ev, f[..8], 16)
  {
    hide Eval, Point, NonZero;
    forall i | 0 <= i < 16
      ensures ev[i] == Eval(f[..8], Point(16, i))
    {
      TrailingZeros(f, 8, Point(16, i));
    }
  }
}
