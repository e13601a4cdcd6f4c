/** 2^31 - 1 is prime.  The proof is a Pocklington certificate: the part 151 * 331 of P - 1 already
    exceeds the square root of P, and 3 has order divisible by it modulo every prime factor of P. */
module Primality {
  import opened NumberTheory

  // ---------------------------------------------------------------- prime factors and trial division

  /** The least divisor above 1 of a composite number is prime and at most its square root. */
  lemma {:induction false} LeastPrimeFactor(n: nat) returns (q: nat)
    requires 2 <= n && !IsPrime(n)
    ensures IsPrime(q) && Divides(q, n) && q * q <= n
  {
    q := 2;
    while !Divides(q, n)
      invariant 2 <= q <= n
      invariant forall d :: 2 <= d < q ==> !Divides(d, n)
      decreases n - q
    {
      if q == n { MultipleDivides(1, n); }
      q := q + 1;
    }
    forall d | 2 <= d < q ensures !Divides(d, q) {
      if Divides(d, q) { DividesTransitive(d, q, n); }
    }
    var k := DivisorWitness(q, n);
    assert q < n;
    if k <= 1 {
      MulMonotone(k, 1, q);
    } else if k < q {
      assert n == q * k;
      MultipleDivides(q, k);
    } else {
      MulMonotone(q, k, q);
    }
  }

  predicate NoFactorFrom(n: nat, d: nat)
    requires 2 <= d
    decreases if d > n then 0 else n - d + 1
  {
    d * d > n || d > n || (n % d != 0 && NoFactorFrom(n, d + 1))
  }

  lemma {:induction false} NoFactorFromSound(n: nat, d: nat, q: nat)
    requires 2 <= d <= q && NoFactorFrom(n, d) && q * q <= n
    ensures !Divides(q, n)
    decreases q - d
  {
    assert d * d <= n && d <= n by {
      MulMonotone(d, q, d);
      MulMonotone(d, q, q);
      MulMonotone(1, d, d);
    }
    if d < q { NoFactorFromSound(n, d + 1, q); }
  }

  lemma {:induction false} TrialDivision(n: nat)
    requires 2 <= n && NoFactorFrom(n, 2)
    ensures IsPrime(n)
  {
    if !IsPrime(n) {
      var q := LeastPrimeFactor(n);
      NoFactorFromSound(n, 2, q);
    }
  }

  // ---------------------------------------------------------------- exponents that give one

  lemma {:induction false} PowMultipleIsOne(b: int, n: nat, k: nat, q: nat)
    requires q > 0 && Cong(Pow(b, n), 1, q)
    ensures Cong(Pow(b, n * k), 1, q)
  {
    PowMul(b, n, k);
    PowCong(Pow(b, n), 1, k, q);
    PowOne(k);
  }

  lemma {:induction false} RemainderExponent(b: int, n: nat, k: nat, r: nat, m: nat, q: nat)
    requires q > 0 && m == n * k + r && Cong(Pow(b, n), 1, q) && Cong(Pow(b, m), 1, q)
    ensures Cong(Pow(b, r), 1, q)
  {
    hide Pow;
    PowAdd(b, n * k, r);
    PowMultipleIsOne(b, n, k, q);
    CongMod(Pow(b, r), Pow(b, r), q);
    CongMul(Pow(b, n * k), 1, Pow(b, r), Pow(b, r), q);
    CongMod(Pow(b, m), 1 * Pow(b, r), q);
    CongMod(Pow(b, m), 1, q);
    CongMod(Pow(b, r), 1, q);
  }

  /** If b^m and b^n are one modulo q, so is b^g for a common divisor g of m and n. */
  lemma {:induction false} CommonExponent(b: int, m: nat, n: nat, q: nat) returns (g: nat)
    requires q > 0 && m > 0 && Cong(Pow(b, m), 1, q) && Cong(Pow(b, n), 1, q)
    ensures g > 0 && Divides(g, m) && Divides(g, n) && Cong(Pow(b, g), 1, q)
    decreases n
  {
    if n == 0 {
      g := m;
      MultipleDivides(1, m);
      MultipleDivides(0, m);
    } else {
      var (k, r) := (m / n, m % n);
      RemainderExponent(b, n, k, r, m, q);
      g := CommonExponent(b, n, r, q);
      DividesCombination(g, k, n, 1, r);
      assert m == k * n + 1 * r;
    }
  }

  lemma {:induction false} Swapped(a: int, b: int, c: int, d: int)
    ensures a * b == b * a && c * d == d * c
  {
  }

  lemma {:induction false} PositiveFactor(j: int, s: int)
    requires s > 0 && j * s > 0
    ensures j > 0
  {
    if j <= 0 { MulMonotone(j, 0, s); }
  }

  lemma {:induction false} DivisorsOfTwoPrimes(g: nat, s: nat, t: nat)
    requires g > 0 && IsPrime(s) && IsPrime(t) && Divides(g, s * t)
    ensures g == 1 || g == s || g == t || g == s * t
  {
    assert s > 0 && t > 0;
    hide *;
    var k := DivisorWitness(g, s * t);
    Swapped(s, t, k, g);
    MultipleDivides(t, s);
    Euclid(s, k, g);
    if Divides(s, k) {
      var j := DivisorWitness(s, k);
      DivisorCofactor(j, g, t, s);
    } else {
      var j := DivisorWitness(s, g);
      PositiveFactor(j, s);
      Swapped(s, t, g, k);
      DivisorCofactor(k, j, t, s);
    }
  }

  lemma {:induction false} DivisorCofactor(j: int, g: int, t: int, s: int)
    requires s > 0 && g > 0 && IsPrime(t) && (j * s) * g == t * s
    ensures g == 1 || g == t
  {
    assert (j * g) * s == (j * s) * g;
    CancelFactor(j * g, t, s);
    MultipleDivides(j, g);
    DivisorOfPrime(g, t);
  }

  lemma {:induction false} CancelFactor(a: int, b: int, c: int)
    requires c > 0 && a * c == b * c
    ensures a == b
  {
  }

  lemma {:induction false} DivisorOfPrime(g: int, t: int)
    requires g > 0 && IsPrime(t) && Divides(g, t)
    ensures g == 1 || g == t
  {
  }

  lemma {:induction false} SmallPrimes()
    ensures IsPrime(151) && IsPrime(331)
  {
    assert NoFactorFrom(151, 2);
    assert NoFactorFrom(331, 16) by { assert NoFactorFrom(331, 19); }
    assert NoFactorFrom(331, 12);
    assert NoFactorFrom(331, 8);
    assert NoFactorFrom(331, 2);
    TrialDivision(151);
    TrialDivision(331);
  }

  // ---------------------------------------------------------------- the certificate

  ghost predicate PowerIs(x: int, e: nat, r: int) {
    Cong(Pow(x, e), r, 0x7FFF_FFFF)
  }

  lemma {:induction false} PowerOne(x: int, c: int)
    requires Cong(x, c, 0x7FFF_FFFF)
    ensures PowerIs(x, 1, c)
  {
  }

  /** Exponents add when residues are multiplied. */
  lemma {:induction false} Times(x: int, e: nat, r: int, f: nat, s: int, t: int)
    requires PowerIs(x, e, r) && PowerIs(x, f, s) && r * s % 0x7FFF_FFFF == t
    ensures PowerIs(x, e + f, t)
  {
    var m := 0x7FFF_FFFF;
    CongMul(Pow(x, e), r, Pow(x, f), s, m);
    PowAdd(x, e, f);
    CongMod(r * s, t, m);
    CongTrans(Pow(x, e + f), r * s, t, m);
  }

  lemma {:induction false} Raise18(x: int)
    requires Cong(x, 3, 0x7FFF_FFFF)
    ensures PowerIs(x, 18, 387420489)
  {
    hide *;
    PowerOne(x, 3);
    Times(x, 1, 3, 1, 3, 9);
    Times(x, 2, 9, 2, 9, 81);
    Times(x, 4, 81, 4, 81, 6561);
    Times(x, 8, 6561, 1, 3, 19683);
    Times(x, 9, 19683, 9, 19683, 387420489);
  }

  lemma {:induction false} Raise77(x: int)
    requires Cong(x, 387420489, 0x7FFF_FFFF)
    ensures PowerIs(x, 77, 1897554765)
  {
    hide *;
    PowerOne(x, 387420489);
    Times(x, 1, 387420489, 1, 387420489, 263996254);
    Times(x, 2, 263996254, 2, 263996254, 163154740);
    Times(x, 4, 163154740, 4, 163154740, 630630168);
    Times(x, 8, 630630168, 1, 387420489, 1049246618);
    Times(x, 9, 1049246618, 9, 1049246618, 108451754);
    Times(x, 18, 108451754, 1, 387420489, 1333482731);
    Times(x, 19, 1333482731, 19, 1333482731, 1901577056);
    Times(x, 38, 1901577056, 38, 1901577056, 79205667);
    Times(x, 76, 79205667, 1, 387420489, 1897554765);
  }

  lemma {:induction false} Raise31(x: int)
    requires Cong(x, 1897554765, 0x7FFF_FFFF)
    ensures PowerIs(x, 31, 1415456845)
  {
    hide *;
    PowerOne(x, 1897554765);
    Times(x, 1, 1897554765, 1, 1897554765, 806961646);
    Times(x, 2, 806961646, 1, 1897554765, 650384700);
    Times(x, 3, 650384700, 3, 650384700, 1633713932);
    Times(x, 6, 1633713932, 1, 1897554765, 610999786);
    Times(x, 7, 610999786, 7, 610999786, 1601664091);
    Times(x, 14, 1601664091, 1, 1897554765, 965104491);
    Times(x, 15, 965104491, 15, 965104491, 789364219);
    Times(x, 30, 789364219, 1, 1897554765, 1415456845);
  }

  lemma {:induction false} Raise151(x: int)
    requires Cong(x, 1415456845, 0x7FFF_FFFF)
    ensures PowerIs(x, 151, 272122089)
  {
    hide *;
    PowerOne(x, 1415456845);
    Times(x, 1, 1415456845, 1, 1415456845, 1585447249);
    Times(x, 2, 1585447249, 2, 1585447249, 314981779);
    Times(x, 4, 314981779, 4, 314981779, 2096387776);
    Times(x, 8, 2096387776, 1, 1415456845, 1877498741);
    Times(x, 9, 1877498741, 9, 1877498741, 1016268772);
    Times(x, 18, 1016268772, 18, 1016268772, 213959514);
    Times(x, 36, 213959514, 1, 1415456845, 1073001432);
    Times(x, 37, 1073001432, 37, 1073001432, 1108114199);
    Times(x, 74, 1108114199, 1, 1415456845, 989291688);
    Times(x, 75, 989291688, 75, 989291688, 518897567);
    Times(x, 150, 518897567, 1, 1415456845, 272122089);
  }

  lemma {:induction false} Raise331(x: int)
    requires Cong(x, 1415456845, 0x7FFF_FFFF)
    ensures PowerIs(x, 331, 556613938)
  {
    hide *;
    PowerOne(x, 1415456845);
    Times(x, 1, 1415456845, 1, 1415456845, 1585447249);
    Times(x, 2, 1585447249, 2, 1585447249, 314981779);
    Times(x, 4, 314981779, 1, 1415456845, 60384542);
    Times(x, 5, 60384542, 5, 60384542, 971413525);
    Times(x, 10, 971413525, 10, 971413525, 340127895);
    Times(x, 20, 340127895, 20, 340127895, 783776375);
    Times(x, 40, 783776375, 1, 1415456845, 1523528604);
    Times(x, 41, 1523528604, 41, 1523528604, 1897674508);
    Times(x, 82, 1897674508, 82, 1897674508, 308936698);
    Times(x, 164, 308936698, 1, 1415456845, 735062482);
    Times(x, 165, 735062482, 165, 735062482, 387194597);
    Times(x, 330, 387194597, 1, 1415456845, 556613938);
  }

  lemma {:induction false} RaiseAll(x: int)
    requires Cong(x, 272122089, 0x7FFF_FFFF)
    ensures PowerIs(x, 331, 1)
  {
    hide *;
    PowerOne(x, 272122089);
    Times(x, 1, 272122089, 1, 272122089, 410221828);
    Times(x, 2, 410221828, 2, 410221828, 1397792548);
    Times(x, 4, 1397792548, 1, 272122089, 379095342);
    Times(x, 5, 379095342, 5, 379095342, 471820594);
    Times(x, 10, 471820594, 10, 471820594, 461624191);
    Times(x, 20, 461624191, 20, 461624191, 1923005950);
    Times(x, 40, 1923005950, 1, 272122089, 1090433);
    Times(x, 41, 1090433, 41, 1090433, 1485670698);
    Times(x, 82, 1485670698, 82, 1485670698, 2131047422);
    Times(x, 164, 2131047422, 1, 272122089, 946096990);
    Times(x, 165, 946096990, 165, 946096990, 813188876);
    Times(x, 330, 813188876, 1, 272122089, 1);
  }

  /** b == 3^42966 satisfies b^49981 == 1 modulo 2^31 - 1, while b^151 - 1 and b^331 - 1 are units. */
  lemma {:induction false} Certificate(b: int)
    requires b == Pow(Pow(Pow(3, 18), 77), 31)
    ensures PowerIs(b, 151, 272122089) && PowerIs(b, 331, 556613938)
    ensures PowerIs(b, 151 * 331, 1)
  {
    Raise18(3);
    Raise77(Pow(3, 18));
    Raise31(Pow(Pow(3, 18), 77));
    Raise151(b);
    Raise331(b);
    RaiseAll(Pow(b, 151));
    PowMul(b, 151, 331);
  }

  /** 2^31 - 1 is prime. */
  lemma {:induction false} MersennePrime()
    ensures IsPrime(0x7FFF_FFFF)
  {
    if !IsPrime(0x7FFF_FFFF) {
      var q := LeastPrimeFactor(0x7FFF_FFFF);
      FactorIsLarge(q, Pow(Pow(Pow(3, 18), 77), 31));
      MulMonotone(49982, q, q);
      MulMonotone(49982, q, 49982);
    }
  }

  /** Every prime factor of 2^31 - 1 is one more than a multiple of 151 * 331. */
  lemma {:induction false} FactorIsLarge(q: nat, b: int)
    requires IsPrime(q) && Divides(q, 0x7FFF_FFFF)
    requires b == Pow(Pow(Pow(3, 18), 77), 31)
    ensures q >= 49982
  {
    Certificate(b);
    CongFactor(Pow(b, 151 * 331), 1, q);
    assert !Divides(q, b) by {
      if Divides(q, b) {
        assert Pow(b, 49981) == b * Pow(b, 49980);
        DividesCombination(q, Pow(b, 49980), b, 0, b);
        DividesCombination(q, 1, Pow(b, 49981), -1, Pow(b, 49981) - 1);
        NotDividesOne(q);
      }
    }
    Fermat(q, b);
    var g := CommonExponent(b, 151 * 331, q - 1, q);
    SmallPrimes();
    DivisorsOfTwoPrimes(g, 151, 331);
    NotOneModFactor(Pow(b, 151), 272122089, 411595504, 52156033, q);
    NotOneModFactor(Pow(b, 331), 556613938, 2069584139, 536422886, q);
    if g == 1 {
      PowMultipleIsOne(b, 1, 151, q);
    }
    assert g == 49981;
    var k := DivisorWitness(g, q - 1);
    if k <= 0 { MulMonotone(k, 0, g); } else { MulMonotone(1, k, g); }
  }

  lemma {:induction false} CongFactor(a: int, b: int, q: nat)
    requires q > 0 && Divides(q, 0x7FFF_FFFF) && Cong(a, b, 0x7FFF_FFFF)
    ensures Cong(a, b, q)
  {
    DividesTransitive(q, 0x7FFF_FFFF, a - b);
  }

  lemma {:induction false} NotDividesOne(q: nat)
    requires 2 <= q
    ensures !Divides(q, 1)
  {
  }

  /** A residue r with u * (r - 1) - k * (2^31 - 1) == 1 is not one modulo any factor. */
  lemma {:induction false} NotOneModFactor(x: int, r: int, u: int, k: int, q: nat)
    requires 2 <= q && Divides(q, 0x7FFF_FFFF) && Cong(x, r, 0x7FFF_FFFF)
    requires u * (r - 1) - k * 0x7FFF_FFFF == 1
    ensures !Cong(x, 1, q)
  {
    if Cong(x, 1, q) {
      CongFactor(x, r, q);
      DividesCombination(q, 1, x - 1, -1, x - r);
      assert 1 * (x - 1) + (-1) * (x - r) == r - 1;
      DividesCombination(q, u, r - 1, -k, 0x7FFF_FFFF);
      NotDividesOne(q);
    }
  }
}
