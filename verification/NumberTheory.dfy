/** The number theory behind the Mersenne-31 field: divisibility, congruences, the Gaussian
    integers Z[i], Euclid's lemma, the binomial theorem and Fermat's little theorem.  Everything
    here is over unbounded integers and an arbitrary modulus. */
module NumberTheory {

  // ---------------------------------------------------------------- division and divisibility

  /** The quotient and the remainder are unique. */
  lemma {:induction false} DivModUnique(x: int, d: int, q: int, r: int)
    requires 0 <= r < d
    requires x == q * d + r
    ensures x / d == q && x % d == r
  {
    var k := x / d - q;
    assert k * d == r - x % d by {
      assert x == d * (x / d) + x % d;
      assert k * d == d * (x / d) - q * d;
    }
    if k >= 1 {
      MulMonotone(1, k, d);
    } else if k <= -1 {
      MulMonotone(k, -1, d);
    }
  }

  lemma {:induction false} MulMonotone(a: int, b: int, c: int)
    requires a <= b && 0 <= c
    ensures a * c <= b * c
  {
  }

  lemma {:induction false} ModShift(x: int, k: int, m: int)
    requires m > 0
    ensures (x + k * m) % m == x % m
  {
    assert x == m * (x / m) + x % m;
    assert x + k * m == (x / m + k) * m + x % m;
    DivModUnique(x + k * m, m, x / m + k, x % m);
  }

  predicate Divides(d: int, n: int)
    requires d > 0
  {
    n % d == 0
  }

  lemma {:induction false} MultipleDivides(k: int, d: int)
    requires d > 0
    ensures Divides(d, k * d)
  {
    DivModUnique(k * d, d, k, 0);
  }

  lemma {:induction false} DivisorWitness(d: int, n: int) returns (k: int)
    requires d > 0 && Divides(d, n)
    ensures n == k * d
  {
    k := n / d;
    assert n == d * (n / d) + n % d;
  }

  /** Divisibility is closed under linear combinations. */
  lemma {:induction false} DividesCombination(d: int, a: int, x: int, b: int, y: int)
    requires d > 0 && Divides(d, x) && Divides(d, y)
    ensures Divides(d, a * x + b * y)
  {
    var k := DivisorWitness(d, x);
    var l := DivisorWitness(d, y);
    assert a * x + b * y == (a * k + b * l) * d by {
      assert a * x == (a * k) * d;
      assert b * y == (b * l) * d;
    }
    MultipleDivides(a * k + b * l, d);
  }

  lemma {:induction false} DividesTransitive(d: int, e: int, n: int)
    requires d > 0 && e > 0 && Divides(d, e) && Divides(e, n)
    ensures Divides(d, n)
  {
    var k := DivisorWitness(e, n);
    DividesCombination(d, k, e, 0, e);
  }

  // ---------------------------------------------------------------- congruences

  predicate Cong(a: int, b: int, m: int)
    requires m > 0
  {
    Divides(m, a - b)
  }

  lemma {:induction false} CongMod(a: int, b: int, m: int)
    requires m > 0
    ensures Cong(a, b, m) <==> a % m == b % m
    ensures Cong(a % m, a, m)
  {
    DifferenceMod(a / m, a % m, b / m, b % m, m, a - b);
    DifferenceMod(0, a % m, a / m, a % m, m, a % m - a);
  }

  /** A difference leaves no remainder exactly when the two remainders are equal. */
  lemma {:induction false} DifferenceMod(q: int, r: int, q': int, r': int, m: int, d: int)
    requires m > 0 && 0 <= r < m && 0 <= r' < m && d == (q * m + r) - (q' * m + r')
    ensures d % m == 0 <==> r == r'
  {
    var k := q - q';
    assert d == k * m + (r - r');
    if r >= r' {
      DivModUnique(d, m, k, r - r');
    } else {
      assert (k - 1) * m == k * m - m;
      DivModUnique(d, m, k - 1, m + r - r');
    }
  }

  lemma {:induction false} CongAdd(a: int, a': int, b: int, b': int, m: int)
    requires m > 0 && Cong(a, a', m) && Cong(b, b', m)
    ensures Cong(a + b, a' + b', m) && Cong(a - b, a' - b', m)
  {
    DividesCombination(m, 1, a - a', 1, b - b');
    DividesCombination(m, 1, a - a', -1, b - b');
    assert (a + b) - (a' + b') == 1 * (a - a') + 1 * (b - b');
    assert (a - b) - (a' - b') == 1 * (a - a') + (-1) * (b - b');
  }

  lemma {:induction false} ProductDifference(a: int, a': int, b: int, b': int)
    ensures a * b - a' * b' == a * (b - b') + b' * (a - a')
  {
  }

  lemma {:induction false} CongMul(a: int, a': int, b: int, b': int, m: int)
    requires m > 0 && Cong(a, a', m) && Cong(b, b', m)
    ensures Cong(a * b, a' * b', m)
  {
    hide Divides;
    DividesCombination(m, a, b - b', b', a - a');
    ProductDifference(a, a', b, b');
  }

  lemma {:induction false} CongSym(a: int, b: int, m: int)
    requires m > 0 && Cong(a, b, m)
    ensures Cong(b, a, m)
  {
    CongMod(a, b, m);
    CongMod(b, a, m);
  }

  lemma {:induction false} CongTrans(a: int, b: int, c: int, m: int)
    requires m > 0 && Cong(a, b, m) && Cong(b, c, m)
    ensures Cong(a, c, m)
  {
    CongMod(a, b, m);
    CongMod(b, c, m);
    CongMod(a, c, m);
  }

  // ---------------------------------------------------------------- primes and Euclid's lemma

  ghost predicate IsPrime(p: int) {
    2 <= p && forall d :: 2 <= d < p ==> !Divides(d, p)
  }

  /** Euclid's lemma: a prime that divides a product divides a factor. */
  lemma {:induction false} Euclid(p: int, a: int, b: int)
    requires IsPrime(p) && Divides(p, a * b)
    ensures Divides(p, a) || Divides(p, b)
  {
    if !Divides(p, a) {
      DividesRemainder(p, a, b);
      EuclidDescent(p, a % p, b);
    }
  }

  lemma {:induction false} DividesRemainder(p: int, a: int, b: int)
    requires p > 0 && Divides(p, a * b)
    ensures Divides(p, a % p * b)
  {
    var (q, r) := (a / p, a % p);
    MultipleDivides(1, p);
    RemainderProduct(p, q, r, b, a);
    hide Divides;
    DividesCombination(p, 1, a * b, -(q * b), p);
  }

  lemma {:induction false} RemainderProduct(p: int, q: int, r: int, b: int, a: int)
    requires a == p * q + r
    ensures r * b == 1 * (a * b) + (-(q * b)) * p
  {
  }

  /** Descent on the first factor: p mod a is smaller than a, nonzero, and p still divides
      the product. */
  lemma {:induction false} EuclidDescent(p: int, a: int, b: int)
    requires IsPrime(p) && 0 < a < p && Divides(p, a * b)
    ensures Divides(p, b)
    decreases a
  {
    if a == 1 {
      assert a * b == b;
    } else {
      assert !Divides(a, p);
      var r := p % a;
      assert r * b == b * p + (-(p / a)) * (a * b) by {
        assert p == a * (p / a) + r;
        assert b * p == b * (a * (p / a)) + b * r;
        assert (-(p / a)) * (a * b) == -(b * (a * (p / a)));
      }
      assert Divides(p, p) by { MultipleDivides(1, p); }
      DividesCombination(p, b, p, -(p / a), a * b);
      EuclidDescent(p, r, b);
    }
  }

  // ---------------------------------------------------------------- integer powers

  function Pow(b: int, e: nat): int {
    if e == 0 then 1 else b * Pow(b, e - 1)
  }

  lemma {:induction false} PowAdd(b: int, m: nat, n: nat)
    ensures Pow(b, m + n) == Pow(b, m) * Pow(b, n)
  {
    if m == 0 {
      assert Pow(b, n) == 1 * Pow(b, n);
    } else {
      PowAdd(b, m - 1, n);
      assert Pow(b, m + n) == b * (Pow(b, m - 1) * Pow(b, n));
      assert b * (Pow(b, m - 1) * Pow(b, n)) == (b * Pow(b, m - 1)) * Pow(b, n);
    }
  }

  lemma {:induction false} PowMul(b: int, m: nat, n: nat)
    ensures Pow(b, m * n) == Pow(Pow(b, m), n)
  {
    if n == 0 {
      assert m * n == 0;
    } else {
      PowMul(b, m, n - 1);
      assert m * n == m + m * (n - 1);
      PowAdd(b, m, m * (n - 1));
    }
  }

  lemma {:induction false} PowCong(a: int, b: int, e: nat, m: int)
    requires m > 0 && Cong(a, b, m)
    ensures Cong(Pow(a, e), Pow(b, e), m)
  {
    if e > 0 {
      PowCong(a, b, e - 1, m);
      CongMul(a, b, Pow(a, e - 1), Pow(b, e - 1), m);
    }
  }

  lemma {:induction false} PowOne(e: nat)
    ensures Pow(1, e) == 1
  {
    if e > 0 { PowOne(e - 1); }
  }

  // ---------------------------------------------------------------- Gaussian integers

  /** re + im*i with i*i == -1. */
  datatype Gauss = Gauss(re: int, im: int)

  const G_ZERO := Gauss(0, 0)
  const G_ONE := Gauss(1, 0)

  function GAdd(x: Gauss, y: Gauss): Gauss { Gauss(x.re + y.re, x.im + y.im) }
  function GSub(x: Gauss, y: Gauss): Gauss { Gauss(x.re - y.re, x.im - y.im) }
  function GMul(x: Gauss, y: Gauss): Gauss {
    Gauss(x.re * y.re - x.im * y.im, x.re * y.im + x.im * y.re)
  }

  function GScale(k: int, x: Gauss): Gauss { Gauss(k * x.re, k * x.im) }
  function GPow(x: Gauss, e: nat): Gauss {
    if e == 0 then G_ONE else GMul(x, GPow(x, e - 1))
  }

  lemma {:induction false} GMulComm(x: Gauss, y: Gauss)
    ensures GMul(x, y) == GMul(y, x)
  {
  }

  lemma {:induction false} GMulAssoc(x: Gauss, y: Gauss, z: Gauss)
    ensures GMul(GMul(x, y), z) == GMul(x, GMul(y, z))
  {
  }

  lemma {:induction false} GMulDistrib(x: Gauss, y: Gauss, z: Gauss)
    ensures GMul(x, GAdd(y, z)) == GAdd(GMul(x, y), GMul(x, z))
    ensures GMul(GAdd(y, z), x) == GAdd(GMul(y, x), GMul(z, x))
  {
  }

  lemma {:induction false} GMulScale(k: int, x: Gauss, y: Gauss)
    ensures GMul(x, GScale(k, y)) == GScale(k, GMul(x, y))
  {
  }

  /** Powers of a real Gaussian integer are the integer powers. */
  lemma {:induction false} GPowReal(a: int, e: nat)
    ensures GPow(Gauss(a, 0), e) == Gauss(Pow(a, e), 0)
  {
    if e > 0 { GPowReal(a, e - 1); }
  }

  // ---------------------------------------------------------------- binomial coefficients

  function Choose(n: nat, k: nat): nat {
    if k == 0 then 1
    else if n == 0 then 0
    else Choose(n - 1, k - 1) + Choose(n - 1, k)
  }

  lemma {:induction false} ChooseBeyond(n: nat, k: nat)
    requires n < k
    ensures Choose(n, k) == 0
  {
    if n > 0 {
      ChooseBeyond(n - 1, k - 1);
      ChooseBeyond(n - 1, k);
    }
  }

  lemma {:induction false} ChooseSelf(n: nat)
    ensures Choose(n, n) == 1
  {
    if n > 0 {
      ChooseSelf(n - 1);
      ChooseBeyond(n - 1, n);
    }
  }

  /** The absorption identity k * C(n,k) == n * C(n-1,k-1). */
  lemma {:induction false} ChooseAbsorb(n: nat, k: nat)
    requires 1 <= k && 1 <= n
    ensures k * Choose(n, k) == n * Choose(n - 1, k - 1)
  {
    if n == 1 {
      if k == 1 {
        assert Choose(0, 0) == 1 && Choose(0, 1) == 0;
      } else {
        ChooseBeyond(1, k);
        ChooseBeyond(0, k - 1);
      }
    } else if k == 1 {
      ChooseAbsorb(n - 1, 1);
      assert Choose(n, 1) == Choose(n - 1, 0) + Choose(n - 1, 1);
      assert n * Choose(n - 1, 0) == n;
    } else {
      ChooseAbsorb(n - 1, k);
      ChooseAbsorb(n - 1, k - 1);
      AbsorbStep(n, k, Choose(n - 2, k - 2), Choose(n - 2, k - 1), Choose(n - 1, k));
    }
  }

  lemma {:induction false} AbsorbStep(n: int, k: int, a: int, b: int, c: int)
    requires (k - 1) * (a + b) == (n - 1) * a && k * c == (n - 1) * b
    ensures k * ((a + b) + c) == n * (a + b)
  {
  }

  /** A prime divides its middle binomial coefficients. */
  lemma {:induction false} PrimeDividesChoose(p: int, k: nat)
    requires IsPrime(p) && 0 < k < p
    ensures Divides(p, Choose(p, k))
  {
    ChooseAbsorb(p, k);
    assert p * Choose(p - 1, k - 1) == Choose(p - 1, k - 1) * p;
    MultipleDivides(Choose(p - 1, k - 1), p);
    DivModUnique(k, p, 0, k);
    Euclid(p, k, Choose(p, k));
  }

  /** One term of the binomial expansion, and its partial sums up to x^j. */
  function Term(x: Gauss, y: Gauss, n: nat, k: nat): Gauss
    requires k <= n
  {
    GScale(Choose(n, k), GMul(GPow(x, k), GPow(y, n - k)))
  }

  function PartialSum(x: Gauss, y: Gauss, n: nat, j: nat): Gauss
    requires j <= n
  {
    if j == 0 then Term(x, y, n, 0) else GAdd(PartialSum(x, y, n, j - 1), Term(x, y, n, j))
  }

  /** x^(k) y^(n-k) multiplied by x or by y moves one exponent up. */
  lemma {:induction false} MonomialStep(x: Gauss, y: Gauss, n: nat, k: nat)
    requires k <= n
    ensures GMul(x, GMul(GPow(x, k), GPow(y, n - k))) == GMul(GPow(x, k + 1), GPow(y, n - k))
    ensures GMul(y, GMul(GPow(x, k), GPow(y, n - k))) == GMul(GPow(x, k), GPow(y, n + 1 - k))
  {
    GMulAssoc(x, GPow(x, k), GPow(y, n - k));
    GMulAssoc(y, GPow(x, k), GPow(y, n - k));
    GMulComm(y, GPow(x, k));
    GMulAssoc(GPow(x, k), y, GPow(y, n - k));
    assert GPow(y, n + 1 - k) == GMul(y, GPow(y, n - k));
  }

  lemma {:induction false} TermStep(x: Gauss, y: Gauss, n: nat, j: nat)
    requires j <= n
    ensures GMul(GAdd(x, y), Term(x, y, n, j))
         == GAdd(GScale(Choose(n, j), GMul(GPow(x, j + 1), GPow(y, n - j))),
                 GScale(Choose(n, j), GMul(GPow(x, j), GPow(y, n + 1 - j))))
  {
    hide GMul, GAdd, GScale, GPow, Choose;
    var m := GMul(GPow(x, j), GPow(y, n - j));
    GMulDistrib(Term(x, y, n, j), x, y);
    GMulScale(Choose(n, j), x, m);
    GMulScale(Choose(n, j), y, m);
    MonomialStep(x, y, n, j);
  }

  /** Pascal's rule for the coefficient of one monomial. */
  lemma {:induction false} PascalTerm(x: Gauss, y: Gauss, n: nat, j: nat)
    requires 0 < j <= n
    ensures var z := GMul(GPow(x, j), GPow(y, n + 1 - j));
            Term(x, y, n + 1, j) == GAdd(GScale(Choose(n, j - 1), z), GScale(Choose(n, j), z))
  {
    hide GMul, GAdd, GScale, GPow;
    ScaleAdd(Choose(n, j - 1), Choose(n, j), GMul(GPow(x, j), GPow(y, n + 1 - j)));
  }

  lemma {:induction false} SwapSums(a: Gauss, b: Gauss, c: Gauss, d: Gauss)
    ensures GAdd(GAdd(a, b), GAdd(c, d)) == GAdd(GAdd(a, GAdd(b, d)), c)
  {
  }

  lemma {:induction false} SumSwap(a: Gauss, b: Gauss)
    ensures GAdd(a, b) == GAdd(b, a)
  {
  }

  lemma {:induction false} FirstTerms(x: Gauss, y: Gauss, n: nat)
    ensures Choose(n, 0) == 1
    ensures Term(x, y, n + 1, 0) == GScale(Choose(n, 0), GMul(GPow(x, 0), GPow(y, n + 1)))
  {
    hide GMul, GScale, GPow;
  }

  lemma {:induction false} PartialSumStep(x: Gauss, y: Gauss, n: nat, j: nat)
    requires j <= n
    ensures GMul(GAdd(x, y), PartialSum(x, y, n, j))
         == GAdd(PartialSum(x, y, n + 1, j),
                 GScale(Choose(n, j), GMul(GPow(x, j + 1), GPow(y, n - j))))
  {
    hide GMul, GAdd, GScale, GPow, Choose, Term;
    TermStep(x, y, n, j);
    var a := GScale(Choose(n, j), GMul(GPow(x, j + 1), GPow(y, n - j)));
    var b := GScale(Choose(n, j), GMul(GPow(x, j), GPow(y, n + 1 - j)));
    if j == 0 {
      FirstTerms(x, y, n);
      SumSwap(a, b);
    } else {
      PartialSumStep(x, y, n, j - 1);
      var c := GScale(Choose(n, j - 1), GMul(GPow(x, j), GPow(y, n + 1 - j)));
      GMulDistrib(GAdd(x, y), PartialSum(x, y, n, j - 1), Term(x, y, n, j));
      PascalTerm(x, y, n, j);
      SwapSums(PartialSum(x, y, n + 1, j - 1), c, a, b);
    }
  }

  lemma {:induction false} ScaleAdd(k: int, l: int, z: Gauss)
    ensures GScale(k + l, z) == GAdd(GScale(k, z), GScale(l, z))
  {
  }

  lemma {:induction false} TopTerm(x: Gauss, y: Gauss, n: nat)
    requires 1 <= n
    ensures GScale(Choose(n - 1, n - 1), GMul(GPow(x, n), GPow(y, 0))) == Term(x, y, n, n)
  {
    ChooseSelf(n);
    ChooseSelf(n - 1);
  }

  lemma {:induction false} BinomialStep(x: Gauss, y: Gauss, n: nat)
    requires GPow(GAdd(x, y), n) == PartialSum(x, y, n, n)
    ensures GPow(GAdd(x, y), n + 1) == PartialSum(x, y, n + 1, n + 1)
  {
    PartialSumStep(x, y, n, n);
    TopTerm(x, y, n + 1);
  }

  lemma {:induction false} GPowZero(x: Gauss, n: nat)
    requires n == 0
    ensures GPow(x, n) == G_ONE
  {
  }

  lemma {:induction false} GUnit(x: Gauss)
    ensures GMul(G_ONE, x) == x && GMul(x, G_ONE) == x
    ensures GScale(1, x) == x
  {
  }

  lemma {:induction false} TermZero(x: Gauss, y: Gauss, n: nat)
    requires n == 0
    ensures Term(x, y, n, n) == G_ONE
  {
    GPowZero(x, n);
    GPowZero(y, n - n);
    GUnit(G_ONE);
  }

  /** The binomial theorem in Z[i]. */
  lemma {:induction false} Binomial(x: Gauss, y: Gauss, n: nat)
    ensures GPow(GAdd(x, y), n) == PartialSum(x, y, n, n)
  {
    if n == 0 {
      TermZero(x, y, n);
      GPowZero(GAdd(x, y), n);
    } else {
      Binomial(x, y, n - 1);
      BinomialStep(x, y, n - 1);
    }
  }

  // ---------------------------------------------------------------- characteristic p

  predicate GCong(x: Gauss, y: Gauss, m: int)
    requires m > 0
  {
    Cong(x.re, y.re, m) && Cong(x.im, y.im, m)
  }

  lemma {:induction false} GCongSelf(x: Gauss, m: int)
    requires m > 0
    ensures GCong(x, x, m)
  {
    MultipleDivides(0, m);
  }

  lemma {:induction false} GCongAdd(x: Gauss, x': Gauss, y: Gauss, y': Gauss, m: int)
    requires m > 0 && GCong(x, x', m) && GCong(y, y', m)
    ensures GCong(GAdd(x, y), GAdd(x', y'), m)
  {
    CongAdd(x.re, x'.re, y.re, y'.re, m);
    CongAdd(x.im, x'.im, y.im, y'.im, m);
  }

  lemma {:induction false} GCongMul(x: Gauss, x': Gauss, y: Gauss, y': Gauss, m: int)
    requires m > 0 && GCong(x, x', m) && GCong(y, y', m)
    ensures GCong(GMul(x, y), GMul(x', y'), m)
  {
    CongMul(x.re, x'.re, y.re, y'.re, m);
    CongMul(x.im, x'.im, y.im, y'.im, m);
    CongMul(x.re, x'.re, y.im, y'.im, m);
    CongMul(x.im, x'.im, y.re, y'.re, m);
    CongAdd(x.re * y.re, x'.re * y'.re, x.im * y.im, x'.im * y'.im, m);
    CongAdd(x.re * y.im, x'.re * y'.im, x.im * y.re, x'.im * y'.re, m);
  }

  lemma {:induction false} GPowCong(x: Gauss, y: Gauss, e: nat, m: int)
    requires m > 0 && GCong(x, y, m)
    ensures GCong(GPow(x, e), GPow(y, e), m)
  {
    if e > 0 {
      GPowCong(x, y, e - 1, m);
      GCongMul(x, y, GPow(x, e - 1), GPow(y, e - 1), m);
    }
  }

  lemma {:induction false} TermModPrime(x: Gauss, y: Gauss, p: int, j: nat)
    requires IsPrime(p) && 0 < j < p
    ensures GCong(Term(x, y, p, j), G_ZERO, p)
  {
    PrimeDividesChoose(p, j);
    hide GPow, Choose, GMul;
    ScaledZero(Choose(p, j), GMul(GPow(x, j), GPow(y, p - j)), p);
  }

  lemma {:induction false} ScaledZero(c: int, m: Gauss, p: int)
    requires p > 0 && Divides(p, c)
    ensures GCong(GScale(c, m), G_ZERO, p)
  {
    DividesCombination(p, m.re, c, 0, c);
    DividesCombination(p, m.im, c, 0, c);
    assert c * m.re == m.re * c + 0 * c && c * m.im == m.im * c + 0 * c;
  }

  lemma {:induction false} FirstTerm(x: Gauss, y: Gauss, n: nat)
    ensures Term(x, y, n, 0) == GPow(y, n)
  {
    hide GPow;
    GPowZero(x, 0);
    GUnit(GPow(y, n));
  }

  /** All but the last binomial term vanish modulo a prime, except y^p. */
  lemma {:induction false} PartialSumModPrime(x: Gauss, y: Gauss, p: int, j: nat)
    requires IsPrime(p) && j < p
    ensures GCong(PartialSum(x, y, p, j), GPow(y, p), p)
  {
    hide GPow, Choose, Term, GCong, GMul;
    if j == 0 {
      FirstTerm(x, y, p);
      GCongSelf(GPow(y, p), p);
    } else {
      PartialSumModPrime(x, y, p, j - 1);
      TermModPrime(x, y, p, j);
      GCongAdd(PartialSum(x, y, p, j - 1), GPow(y, p), Term(x, y, p, j), G_ZERO, p);
    }
  }

  /** (x + y)^p == x^p + y^p modulo a prime p, in Z[i]. */
  lemma {:induction false} FrobeniusAdditive(x: Gauss, y: Gauss, p: int)
    requires IsPrime(p)
    ensures GCong(GPow(GAdd(x, y), p), GAdd(GPow(x, p), GPow(y, p)), p)
  {
    Binomial(x, y, p);
    PartialSumModPrime(x, y, p, p - 1);
    ChooseSelf(p);
    assert GMul(GPow(x, p), GPow(y, 0)) == GPow(x, p);
    assert Term(x, y, p, p) == GPow(x, p);
    GCongSelf(GPow(x, p), p);
    GCongAdd(PartialSum(x, y, p, p - 1), GPow(y, p), GPow(x, p), GPow(x, p), p);
    assert PartialSum(x, y, p, p) == GAdd(PartialSum(x, y, p, p - 1), Term(x, y, p, p));
    assert GAdd(GPow(y, p), GPow(x, p)) == GAdd(GPow(x, p), GPow(y, p));
  }

  lemma {:induction false} PowSuccModPrime(a: int, p: int)
    requires IsPrime(p)
    ensures Cong(Pow(a + 1, p), Pow(a, p) + 1, p)
  {
    var (x, y) := (Gauss(a, 0), Gauss(1, 0));
    var s := GAdd(x, y);
    assert GPow(s, p).re == Pow(a + 1, p) by { GPowReal(a + 1, p); }
    assert GPow(x, p).re == Pow(a, p) by { GPowReal(a, p); }
    assert GPow(y, p).re == 1 by { GPowReal(1, p); PowOne(p); }
    FrobeniusAdditive(x, y, p);
  }

  /** Fermat's little theorem, a^p == a. */
  lemma {:induction false} FermatNat(p: int, a: nat)
    requires IsPrime(p)
    ensures Cong(Pow(a, p), a, p)
  {
    if a == 0 {
      assert Pow(0, p) == 0 * Pow(0, p - 1);
    } else {
      FermatNat(p, a - 1);
      PowSuccModPrime(a - 1, p);
      assert Cong(1, 1, p);
      CongAdd(Pow(a - 1, p), a - 1, 1, 1, p);
      CongTrans(Pow(a, p), Pow(a - 1, p) + 1, a, p);
    }
  }

  lemma {:induction false} FactorOut(a: int, n: int)
    requires n > 0
    ensures Pow(a, n) - a == a * (Pow(a, n - 1) - 1)
  {
    assert Pow(a, n) == a * Pow(a, n - 1);
  }

  /** Fermat's little theorem, a^(p-1) == 1 for a prime to p. */
  lemma {:induction false} Fermat(p: int, a: int)
    requires IsPrime(p) && !Divides(p, a)
    ensures Cong(Pow(a, p - 1), 1, p)
  {
    hide Pow;
    CongMod(a % p, a, p);
    FermatNat(p, a % p);
    PowCong(a, a % p, p, p) by { CongMod(a, a % p, p); }
    CongTrans(Pow(a, p), Pow(a % p, p), a % p, p);
    CongTrans(Pow(a, p), a % p, a, p);
    FactorOut(a, p);
    Euclid(p, a, Pow(a, p - 1) - 1);
  }
}
