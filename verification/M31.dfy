/** Word-level arithmetic in the Mersenne-31 field (crates/lean-aggregate/src/m31.rs).
    The Rust integers are modelled by explicit ranges, and every truncation and wrap-around of the
    source is written out. */
module M31 {
  import opened Words
  import opened NumberTheory
  import Primality

  const P: nat := 0x7FFF_FFFF

  /** A canonical residue. */
  type Fe = x: int | 0 <= x < 0x7FFF_FFFF

  function Wrap32(x: nat): (r: u32) {
    x % 0x1_0000_0000
  }

  /** One-fold reduction: the mask by P keeps the low 31 bits. */
  function Red(x: u64): u32 {
    var v := Wrap32(Wrap32(x) % 0x8000_0000 + Wrap32(x / 0x8000_0000));
    if v >= 0x7FFF_FFFF then v - 0x7FFF_FFFF else v
  }

  /** Exactly when one fold is enough: the two halves must add up to less than 2P.  Everywhere else
      the result is wrong, either by missing a subtraction or by wrapping around. */
  lemma {:induction false} RedExact(x: u64)
    ensures Red(x) == x % 0x7FFF_FFFF <==> x % 0x8000_0000 + x / 0x8000_0000 < 2 * 0x7FFF_FFFF
  {
    var (lo, hi) := (x % 0x8000_0000, x / 0x8000_0000);
    LowBits(x);
    var v := Wrap32(lo + Wrap32(hi));
    assert Red(x) == if v >= 0x7FFF_FFFF then v - 0x7FFF_FFFF else v;
    hide *;
    WrapTwice(lo, hi);
    ModOfFold(x, lo, hi);
    FoldDecides(lo + hi, (lo + hi) / 0x1_0000_0000, v);
  }

  lemma {:induction false} LowBits(x: nat)
    ensures Wrap32(x) % 0x8000_0000 == x % 0x8000_0000
  {
    ModShift(x % 0x1_0000_0000, x / 0x1_0000_0000 * 2, 0x8000_0000);
  }

  lemma {:induction false} WrapTwice(lo: nat, hi: nat)
    ensures Wrap32(lo + Wrap32(hi)) == lo + hi - (lo + hi) / 0x1_0000_0000 * 0x1_0000_0000
  {
  }

  lemma {:induction false} ModOfFold(x: nat, lo: nat, hi: nat)
    requires x == hi * 0x8000_0000 + lo
    ensures x % 0x7FFF_FFFF == (lo + hi) % 0x7FFF_FFFF
  {
  }

  lemma {:induction false} FoldDecides(s: nat, k: nat, v: u32)
    requires v == s - k * 0x1_0000_0000 && k <= 2
    ensures (if v >= 0x7FFF_FFFF then v - 0x7FFF_FFFF else v) == s % 0x7FFF_FFFF
       <==> s < 2 * 0x7FFF_FFFF
  {
  }

  /** The promised range of the fold, and the first word beyond it, where it fails. */
  lemma {:induction false} RedRange(x: u64)
    ensures x <= 0x3FFF_FFFF_FFFF_FFFE ==> Red(x) == x % 0x7FFF_FFFF
    ensures Red(0x3FFF_FFFF_FFFF_FFFF) != 0x3FFF_FFFF_FFFF_FFFF % 0x7FFF_FFFF
  {
    RedExact(x);
  }

  lemma {:induction false} ProductBelow(a: nat, b: nat, m: nat)
    requires a <= m && b <= m
    ensures 0 <= a * b <= m * m
  {
    MulMonotone(a, m, b);
    MulMonotone(b, m, m);
  }

  /** Addition is right on all 32-bit words, not only on canonical ones. */
  function Add(a: u32, b: u32): (r: u32)
    ensures r == (a + b) % P
  {
    RedRange(a + b);
    Red(a + b)
  }

  /** The subtraction underflows when b exceeds a + P. */
  function Sub(a: u32, b: u32): (r: u32)
    requires b <= a + P
    ensures r == (a - b) % P
  {
    ShiftedFold(a - b);
    Red(a + P - b)
  }

  lemma {:induction false} ShiftedFold(d: int)
    requires 0 <= d + P <= 0x1_7FFF_FFFE
    ensures Red(d + P) == d % P
  {
    assert (d + 0x7FFF_FFFF) % 0x7FFF_FFFF == d % 0x7FFF_FFFF;
    RedRange(d + P);
  }

  /** The product is right a little beyond the canonical range, where `Red` can leave its result. */
  function Mul(a: u32, b: u32): (r: u32)
    ensures a <= P && b <= P + 1 ==> r == a * b % P
  {
    WordProduct(a, b);
    Red(a * b)
  }

  lemma {:induction false} WordProduct(a: u32, b: u32)
    ensures 0 <= a * b < 0x1_0000_0000_0000_0000
    ensures a <= P && b <= P + 1 ==> Red(a * b) == a * b % P
  {
    ProductBelow(a, b, 0xFFFF_FFFF);
    if a <= P && b <= P + 1 {
      MulMonotone(a, P, b);
      MulMonotone(b, P + 1, P);
      hide *;
      RedRange(a * b);
    }
  }

  // ---------------------------------------------------------------- inversion in the base field

  lemma {:induction false} MulCong(a: Fe, b: Fe)
    ensures Cong(Mul(a, b), a * b, P)
  {
    CongMod(a * b, a * b, P);
  }

  /** The square-and-multiply invariant r * b^e == target, one round. */
  lemma {:induction false} InvRound(r: Fe, b: Fe, e: nat, target: int)
    requires 0 < e && Cong(r * Pow(b, e), target, P)
    ensures Cong((if e % 2 == 1 then Mul(r, b) else r) * Pow(Mul(b, b), e / 2), target, P)
  {
    var k := e / 2;
    SquareCong(b, k);
    if e % 2 == 1 {
      MulCong(r, b);
      OddPower(r, b, k);
      assert e == 2 * k + 1;
      hide *;
      CongMul(Mul(r, b), r * b, Pow(Mul(b, b), k), Pow(b, 2 * k), P);
      CongTrans(Mul(r, b) * Pow(Mul(b, b), k), r * Pow(b, e), target, P);
    } else {
      assert Cong(r, r, P) && e == 2 * k;
      hide *;
      CongMul(r, r, Pow(Mul(b, b), k), Pow(b, 2 * k), P);
      CongTrans(r * Pow(Mul(b, b), k), r * Pow(b, e), target, P);
    }
  }

  lemma {:induction false} SquareCong(b: Fe, k: nat)
    ensures Cong(Pow(Mul(b, b), k), Pow(b, 2 * k), P)
  {
    MulCong(b, b);
    PowSquare(b, k);
    assert P > 0;
    hide *;
    PowCong(Mul(b, b), b * b, k, P);
  }

  lemma {:induction false} OddPower(r: int, b: int, k: nat)
    ensures r * Pow(b, 2 * k + 1) == (r * b) * Pow(b, 2 * k)
  {
  }

  lemma {:induction false} PowSquare(b: int, k: nat)
    ensures Pow(b * b, k) == Pow(b, 2 * k)
  {
    PowMul(b, 2, k);
    assert Pow(b, 2) == b * b by {
      assert Pow(b, 2) == b * Pow(b, 1) && Pow(b, 1) == b * Pow(b, 0);
    }
  }

  /** Fermat inversion: the loop computes a^(P-2), the inverse of every nonzero residue. */
  method Inv(a: Fe) returns (r: Fe)
    ensures a != 0 ==> Mul(a, r) == 1
    ensures a == 0 ==> r == 0
  {
    var b: Fe := a;
    var e: u32 := P - 2;
    ghost var n: nat := P - 2;
    r := 1;
    while e > 0
      invariant Cong(r * Pow(b, e), Pow(a, n), P)
    {
      InvRound(r, b, e, Pow(a, n));
      if e % 2 == 1 {
        r := Mul(r, b);
      }
      b := Mul(b, b);
      e := e / 2;
    }
    InverseByFermat(a, n, r);
  }

  lemma {:induction false} InverseByFermat(a: Fe, n: nat, r: Fe)
    requires n == P - 2 && Cong(r * 1, Pow(a, n), P)
    ensures a != 0 ==> Mul(a, r) == 1
    ensures a == 0 ==> r == 0
  {
    if a == 0 {
      assert Pow(a, n) == 0 * Pow(a, n - 1);
      CongMod(r, 0, P);
    } else {
      Primality.MersennePrime();
      Fermat(P, a);
      assert Pow(a, n + 1) == a * Pow(a, n);
      assert Cong(a, a, P);
      CongMul(a, a, r, Pow(a, n), P);
      CongTrans(a * r, Pow(a, n + 1), 1, P);
      CongMod(a * r, 1, P);
    }
  }

  lemma {:induction false} CongFe(r: Fe, s: Fe)
    requires Cong(r, s, P)
    ensures r == s
  {
  }

  function Triple(a: int, r: int, s: int): int { (a * r) * s }

  lemma {:induction false} TripleSwap(a: int, r: int, s: int)
    ensures Triple(a, r, s) == Triple(a, s, r)
  {
  }

  lemma {:induction false} CancelInverse(a: Fe, r: Fe, s: Fe)
    requires Mul(a, r) == 1
    ensures Cong(Triple(a, r, s), s, P)
  {
    CongMod(a * r, 1, P);
    assert Cong(s, s, P);
    CongMul(a * r, 1, s, s, P);
  }

  /** The inverse is unique, so the contract of `Inv` determines its result. */
  lemma {:induction false} InverseUnique(a: Fe, r: Fe, s: Fe)
    requires Mul(a, r) == 1 && Mul(a, s) == 1
    ensures r == s
  {
    assert P > 0;
    hide *;
    CancelInverse(a, r, s);
    CancelInverse(a, s, r);
    TripleSwap(a, r, s);
    CongSym(Triple(a, r, s), s, P);
    CongTrans(s, Triple(a, r, s), r, P);
    CongFe(s, r);
  }
}
