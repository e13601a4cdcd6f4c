/** The 18-decimal fixed-point numbers of the Cosmos SDK, as far as the reward patch and the balance
    export use them.  A decimal is an integer scaled by 10^18. */
module Dec {
  import opened NumberTheory

  const ONE: int := 1_000_000_000_000_000_000
  const HALF: int := 500_000_000_000_000_000

  type Dec = int

  // ---------------------------------------------------------------- decimals

  /** Division that truncates toward zero, as math/big does. */
  function QuoT(a: int, b: int): int
    requires b != 0
  {
    var q := (if a < 0 then -a else a) / (if b < 0 then -b else b);
    if (a < 0) != (b < 0) then -q else q
  }

  /** Drop 18 digits, rounding half to even. */
  function ChopRound(x: int): int {
    if x < 0 then 0 - ChopRoundNat(-x) else ChopRoundNat(x)
  }

  function ChopRoundNat(x: nat): nat {
    var (q, r) := (x / ONE, x % ONE);
    if r < HALF then q
    else if r > HALF then q + 1
    else if q % 2 == 0 then q else q + 1
  }

  function Mul(a: Dec, b: Dec): Dec { ChopRound(a * b) }

  function MulTruncate(a: Dec, b: Dec): Dec { QuoT(a * b, ONE) }

  function Quo(a: Dec, b: Dec): Dec
    requires b != 0
  {
    ChopRound(QuoT(a * (ONE * ONE), b))
  }

  function QuoTruncate(a: Dec, b: Dec): Dec
    requires b != 0
  {
    QuoT(a * ONE, b)
  }

  function RoundInt(a: Dec): int { ChopRound(a) }

  lemma {:induction false} QuoTNat(a: int, b: int)
    requires a >= 0 && b > 0
    ensures QuoT(a, b) == a / b && 0 <= a / b
  {
    DivNonneg(a, b);
  }

  lemma {:induction false} DivNonneg(a: int, b: int)
    requires a >= 0 && b > 0
    ensures 0 <= a / b && a / b * b <= a < (a / b + 1) * b
  {
    assert a == b * (a / b) + a % b;
  }

  /** The largest k with k * b <= a is a / b. */
  lemma {:induction false} DivCharacter(a: int, b: int, k: int)
    requires b > 0
    ensures k * b <= a ==> k <= a / b
    ensures a < (k + 1) * b ==> a / b <= k
  {
    assert a == b * (a / b) + a % b;
    if k > a / b { MulMonotone(a / b + 1, k, b); }
    if a / b > k { MulMonotone(k + 1, a / b, b); }
  }

  lemma {:induction false} ChopRoundBounds(x: nat)
    ensures x / ONE <= ChopRoundNat(x) <= x / ONE + 1
    ensures ONE * ChopRoundNat(x) - HALF <= x <= ONE * ChopRoundNat(x) + HALF
  {
  }

  /** r is the nearest integer to x / 10^18, and the even one of two equally near. */
  predicate NearestEven(x: int, r: int) {
    && -ONE <= 2 * (x - r * ONE) <= ONE
    && (2 * (x - r * ONE) == ONE || 2 * (x - r * ONE) == -ONE ==> r % 2 == 0)
  }

  lemma {:induction false} RoundsHalfToEven(x: int)
    ensures NearestEven(x, ChopRound(x))
  {
  }

  lemma {:induction false} ProductRounds(a: Dec, b: Dec)
    ensures NearestEven(a * b, Mul(a, b))
  {
    hide NearestEven, ChopRound;
    RoundsHalfToEven(a * b);
  }

  lemma {:induction false} NearestEvenUnique(x: int, r: int, s: int)
    requires NearestEven(x, r) && NearestEven(x, s)
    ensures r == s
  {
  }

  /** The truncated quotient is the largest decimal that does not exceed the exact one. */
  lemma {:induction false} TruncatedQuotient(x: nat, s: int)
    requires s > 0
    ensures QuoTruncate(x, s) * s <= x * ONE < (QuoTruncate(x, s) + 1) * s
  {
    QuoTNat(x * ONE, s);
    DivNonneg(x * ONE, s);
  }

  /** The rounded quotient is within half a unit, and 10^-18 of one, of the exact one. */
  lemma {:induction false} RoundedQuotient(x: nat, s: int)
    requires s > 0
    ensures -(s * ONE) <= 2 * ONE * (x * ONE - Quo(x, s) * s) < s * (ONE + 2)
  {
    var (big, r) := (x * (ONE * ONE), Quo(x, s));
    QuoTNat(big, s);
    var a := big / s;
    DivNonneg(big, s);
    ChopRoundBounds(a);
    QuotientSpread(x, s, a, r, ONE);
  }

  lemma {:induction false} QuotientSpread(x: int, s: int, a: int, r: int, one: int)
    requires s > 0 && a * s <= x * (one * one) < (a + 1) * s
    requires 2 * one * r - one <= 2 * a <= 2 * one * r + one
    ensures -(s * one) <= 2 * one * (x * one - r * s) < s * (one + 2)
  {
    MulMonotone(2 * one * r - one, 2 * a, s);
    MulMonotone(2 * a, 2 * one * r + one, s);
    SpreadTerms(x, s, a, r, one);
  }

  lemma {:induction false} SpreadTerms(x: int, s: int, a: int, r: int, one: int)
    ensures (2 * one * r - one) * s == 2 * one * (r * s) - s * one
    ensures (2 * one * r + one) * s == 2 * one * (r * s) + s * one
    ensures 2 * a * s == 2 * (a * s) && (a + 1) * s == a * s + s
    ensures 2 * one * (x * one - r * s) == 2 * (x * (one * one)) - 2 * one * (r * s)
    ensures s * (one + 2) == s * one + 2 * s
  {
  }

  /** Tokens from shares, rounded, is never below tokens from shares, truncated. */
  lemma {:induction false} TruncatedBelowRounded(x: nat, s: int)
    requires s > 0
    ensures 0 <= QuoTruncate(x, s) <= Quo(x, s) <= QuoTruncate(x, s) + 1
  {
    var (big, small) := (x * (ONE * ONE), x * ONE);
    assert big == small * ONE && small >= 0 && big >= 0;
    QuoTNat(big, s);
    QuoTNat(small, s);
    var q := small / s;
    DivNonneg(small, s);
    MulMonotone(q * s, small, ONE);
    assert (q * ONE) * s == (q * s) * ONE;
    DivCharacter(big, s, q * ONE);
    DivCharacter(big / s, ONE, q);
    ChopRoundBounds(big / s);
  }

  lemma {:induction false} MulTruncateNat(a: nat, b: nat)
    ensures MulTruncate(a, b) == a * b / ONE && 0 <= a * b / ONE
  {
    QuoTNat(a * b, ONE);
  }

  /** Slashing by a fraction in [0, 1] never raises a stake and keeps it nonnegative. */
  lemma {:induction false} SlashShrinks(stake: nat, fraction: Dec)
    requires 0 <= fraction <= ONE
    ensures 0 <= MulTruncate(stake, ONE - fraction) <= stake
  {
    var f := ONE - fraction;
    MulTruncateNat(stake, f);
    MulMonotone(f, ONE, stake);
    assert stake * f <= stake * ONE;
    DivCharacter(stake * f, ONE, stake);
  }

  /** Truncated products: monotone in the stake, and superadditive in the ratio. */
  lemma {:induction false} TruncMonotone(s: nat, t: nat, d: nat)
    requires s <= t
    ensures s * d / ONE <= t * d / ONE
  {
    MulMonotone(s, t, d);
    DivNonneg(s * d, ONE);
    DivCharacter(t * d, ONE, s * d / ONE);
  }

  lemma {:induction false} TruncSuperadditive(s: nat, d: nat, e: nat)
    ensures s * d / ONE + s * e / ONE <= s * (d + e) / ONE
    ensures s * (d + e) / ONE <= s * d / ONE + s * e / ONE + 1
  {
    assert s * (d + e) == s * d + s * e;
    DivNonneg(s * d, ONE);
    DivNonneg(s * e, ONE);
    DivCharacter(s * (d + e), ONE, s * d / ONE + s * e / ONE);
    DivCharacter(s * (d + e), ONE, s * d / ONE + s * e / ONE + 1);
  }
}
