/** The coin sets of the Cosmos SDK: finite maps from denominations to positive amounts.  The same
    type serves whole coins and decimal coins, whose amounts are scaled by 10^18. */
module CoinSets {
  import opened Dec

  type Denom = string

  type Pos = x: int | 0 < x witness 1

  /** A normalised coin set: only denominations with a positive amount are present. */
  type Coins = map<Denom, Pos>

  function Amt(c: Coins, d: Denom): nat {
    if d in c then c[d] else 0
  }

  predicate Covers(x: Coins, y: Coins) {
    forall d :: d in y ==> d in x && y[d] <= x[d]
  }

  function Plus(x: Coins, y: Coins): (z: Coins)
    ensures forall d :: Amt(z, d) == Amt(x, d) + Amt(y, d)
  {
    map d | d in x.Keys + y.Keys :: Amt(x, d) + Amt(y, d)
  }

  function Minus(x: Coins, y: Coins): (z: Coins)
    requires Covers(x, y)
    ensures forall d :: Amt(z, d) == Amt(x, d) - Amt(y, d)
  {
    map d | d in x && x[d] > Amt(y, d) :: x[d] - Amt(y, d)
  }

  /** Multiply every amount by a decimal, truncating; zero products disappear. */
  function MulDecTruncate(x: Coins, s: Dec): (z: Coins)
    requires s >= 0
    ensures forall d :: Amt(z, d) == Amt(x, d) * s / ONE
  {
    map d | d in x && x[d] * s / ONE > 0 :: x[d] * s / ONE
  }

  function QuoDecTruncate(x: Coins, s: Dec): (z: Coins)
    requires s > 0
  {
    map d | d in x && x[d] * ONE / s > 0 :: x[d] * ONE / s
  }

  function Min(a: int, b: int): int { if a <= b then a else b }

  function Intersect(x: Coins, y: Coins): (z: Coins)
    ensures forall d :: Amt(z, d) == Min(Amt(x, d), Amt(y, d))
    ensures Covers(x, z) && Covers(y, z)
  {
    map d | d in x && d in y :: Min(x[d], y[d])
  }

  /** Whole coins, and the fractional remainder. */
  function Whole(x: Coins): (z: Coins)
    ensures forall d :: Amt(z, d) == Amt(x, d) / ONE
  {
    map d | d in x && x[d] / ONE > 0 :: x[d] / ONE
  }

  function Fraction(x: Coins): (z: Coins)
    ensures forall d :: Amt(z, d) == Amt(x, d) % ONE
  {
    map d | d in x && x[d] % ONE > 0 :: x[d] % ONE
  }

  lemma {:induction false} PlusCovers(x: Coins, y: Coins)
    ensures Covers(Plus(x, y), x)
  {
  }

  lemma {:induction false} CoversTransitive(x: Coins, y: Coins, z: Coins)
    requires Covers(x, y) && Covers(y, z)
    ensures Covers(x, z)
  {
  }
}
