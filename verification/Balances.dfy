/** The balance derivation of `export-derive-balances` (cmd/terpd/cmd/export.go): what every account
    ends up with, and that nothing is created or lost except by rounding. */
module Balances {
  import opened NumberTheory
  import opened Dec
  import opened CoinSets
  import opened MapSums

  type Addr = string

  datatype BankBalance = BankBalance(addr: Addr, coins: Coins)
  datatype Unbonding = Unbonding(addr: Addr, entries: seq<int>)
  datatype Validator = Validator(operator: Addr, tokens: int, shares: Dec)
  datatype Delegation = Delegation(delegator: Addr, validator: Addr, shares: Dec)

  datatype Genesis = Genesis(
    balances: seq<BankBalance>,
    unbondings: seq<Unbonding>,
    validators: seq<Validator>,
    delegations: seq<Delegation>)

  datatype Account = Account(liquid: Coins, staked: int, unbonding: int, total: Coins)

  datatype Failure = UnknownValidator | DivisionByZero | NegativeCoin

  datatype Outcome<+T> = Ok(value: T) | Panic(failure: Failure)

  const BASE_DENOM: Denom := "uterp"

  // ---------------------------------------------------------------- what each account is due

  /** The last bank entry of an address wins. */
  function LiquidOf(bs: seq<BankBalance>, a: Addr): Coins {
    if bs == [] then map[]
    else if bs[|bs| - 1].addr == a then bs[|bs| - 1].coins
    else LiquidOf(bs[..|bs| - 1], a)
  }

  function EntrySum(es: seq<int>): int {
    if es == [] then 0 else EntrySum(es[..|es| - 1]) + es[|es| - 1]
  }

  /** Amounts credited to an address by a list of (address, amount) pairs. */
  function Credit(cs: seq<(Addr, int)>, a: Addr): int {
    if cs == [] then 0
    else Credit(cs[..|cs| - 1], a) + (if cs[|cs| - 1].0 == a then cs[|cs| - 1].1 else 0)
  }

  function UnbondingCredits(us: seq<Unbonding>): seq<(Addr, int)> {
    seq(|us|, i requires 0 <= i < |us| => (us[i].addr, EntrySum(us[i].entries)))
  }

  /** Later validators with the same operator address replace earlier ones. */
  function ValidatorMap(vs: seq<Validator>): map<Addr, Validator> {
    if vs == [] then map[] else ValidatorMap(vs[..|vs| - 1])[vs[|vs| - 1].operator := vs[|vs| - 1]]
  }

  /** Shares times tokens over total shares, rounded to 18 decimals and then to an integer. */
  function StakedTokens(shares: Dec, v: Validator): int
    requires v.shares != 0
  {
    RoundInt(Quo(shares * v.tokens, v.shares))
  }

  predicate Payable(vals: map<Addr, Validator>, d: Delegation) {
    d.validator in vals && vals[d.validator].shares != 0
  }

  function StakeCredits(ds: seq<Delegation>, vals: map<Addr, Validator>): seq<(Addr, int)>
    requires forall i :: 0 <= i < |ds| ==> Payable(vals, ds[i])
  {
    seq(|ds|, i requires 0 <= i < |ds| && Payable(vals, ds[i]) =>
      (ds[i].delegator, StakedTokens(ds[i].shares, vals[ds[i].validator])))
  }

  function Coin(d: Denom, x: nat): Coins { if x > 0 then map[d := x] else map[] }

  function TotalOf(liquid: Coins, staked: nat, unbonding: nat): Coins {
    Plus(Plus(liquid, Coin(BASE_DENOM, staked)), Coin(BASE_DENOM, unbonding))
  }

  function Holders(g: Genesis): set<Addr> {
    (set i | 0 <= i < |g.balances| :: g.balances[i].addr)
    + (set i | 0 <= i < |g.unbondings| :: g.unbondings[i].addr)
    + (set i | 0 <= i < |g.delegations| :: g.delegations[i].delegator)
  }

  ghost predicate AllPayable(g: Genesis) {
    forall i :: 0 <= i < |g.delegations| ==> Payable(ValidatorMap(g.validators), g.delegations[i])
  }

  function Due(g: Genesis, a: Addr): (int, int)
    requires AllPayable(g)
  {
    (Credit(StakeCredits(g.delegations, ValidatorMap(g.validators)), a), Credit(UnbondingCredits(g.unbondings), a))
  }

  /** The last bank entry of an address is its liquid balance, and an address without one has none. */
  lemma {:induction false} LastEntryWins(bs: seq<BankBalance>, i: nat, a: Addr)
    requires i < |bs| && forall j :: i < j < |bs| ==> bs[j].addr != bs[i].addr
    ensures LiquidOf(bs, bs[i].addr) == bs[i].coins
    ensures (forall j :: 0 <= j < |bs| ==> bs[j].addr != a) ==> LiquidOf(bs, a) == map[]
  {
    var front := bs[..|bs| - 1];
    if i < |bs| - 1 {
      LastEntryWins(front, i, a);
    } else if forall j :: 0 <= j < |bs| ==> bs[j].addr != a {
      NoEntry(front, a);
    }
  }

  lemma {:induction false} NoEntry(bs: seq<BankBalance>, a: Addr)
    requires forall j :: 0 <= j < |bs| ==> bs[j].addr != a
    ensures LiquidOf(bs, a) == map[]
  {
    if bs != [] { NoEntry(bs[..|bs| - 1], a); }
  }

  /** The last validator of an operator is the one that counts, and only listed operators are known. */
  lemma {:induction false} LastValidatorCounts(vs: seq<Validator>, i: nat)
    requires i < |vs| && forall j :: i < j < |vs| ==> vs[j].operator != vs[i].operator
    ensures vs[i].operator in ValidatorMap(vs) && ValidatorMap(vs)[vs[i].operator] == vs[i]
    ensures forall a :: a in ValidatorMap(vs) <==> exists j :: 0 <= j < |vs| && vs[j].operator == a
  {
    OperatorsListed(vs);
    if i < |vs| - 1 {
      LastValidatorCounts(vs[..|vs| - 1], i);
    }
  }

  lemma {:induction false} OperatorsListed(vs: seq<Validator>)
    ensures forall a :: a in ValidatorMap(vs) <==> exists j :: 0 <= j < |vs| && vs[j].operator == a
  {
    if vs != [] {
      var (front, last) := (vs[..|vs| - 1], vs[|vs| - 1]);
      OperatorsListed(front);
      forall a
        ensures a in ValidatorMap(vs) <==> exists j :: 0 <= j < |vs| && vs[j].operator == a
      {
        if a == last.operator {
          assert vs[|vs| - 1].operator == a;
        } else if j :| 0 <= j < |vs| && vs[j].operator == a {
          assert front[j].operator == a;
        }
      }
    }
  }

  /** The pairs of one address. */
  function PairsOf(cs: seq<(Addr, int)>, a: Addr): seq<(Addr, int)> {
    if cs == [] then []
    else PairsOf(cs[..|cs| - 1], a) + (if cs[|cs| - 1].0 == a then [cs[|cs| - 1]] else [])
  }

  /** An address is credited with exactly the amounts of its own pairs. */
  lemma {:induction false} CreditsOwn(cs: seq<(Addr, int)>, a: Addr)
    ensures Credit(cs, a) == CreditTotal(PairsOf(cs, a))
    ensures forall p :: p in PairsOf(cs, a) <==> p in cs && p.0 == a
  {
    if cs != [] {
      var (front, last) := (cs[..|cs| - 1], cs[|cs| - 1]);
      CreditsOwn(front, a);
      assert cs == front + [last];
      var own := PairsOf(cs, a);
      if last.0 == a {
        assert own[..|own| - 1] == PairsOf(front, a);
      } else {
        assert own == PairsOf(front, a);
      }
    }
  }

  // ---------------------------------------------------------------- conservation

  /** The sum of all credited amounts. */
  function CreditTotal(cs: seq<(Addr, int)>): int {
    if cs == [] then 0 else CreditTotal(cs[..|cs| - 1]) + cs[|cs| - 1].1
  }

  ghost function CreditsOver(cs: seq<(Addr, int)>, keys: set<Addr>): map<Addr, int> {
    map a | a in keys :: Credit(cs, a)
  }

  lemma {:induction false} SumOfZeros(m: map<Addr, int>)
    requires forall a :: a in m ==> m[a] == 0
    ensures Sum(m) == 0
    decreases |m|
  {
    if m != map[] {
      var a :| a in m;
      SumRemove(m, a);
      SumOfZeros(m - {a});
    }
  }

  /** Crediting loses nothing and invents nothing: over any set of accounts that holds all the
      addresses, the credits add up to the total. */
  lemma {:induction false} CreditsConserved(cs: seq<(Addr, int)>, keys: set<Addr>)
    requires forall i :: 0 <= i < |cs| ==> cs[i].0 in keys
    ensures Sum(CreditsOver(cs, keys)) == CreditTotal(cs)
  {
    if cs == [] {
      SumOfZeros(CreditsOver(cs, keys));
    } else {
      var (front, last) := (cs[..|cs| - 1], cs[|cs| - 1]);
      CreditsConserved(front, keys);
      var m := CreditsOver(front, keys);
      SumUpdate(m, last.0, m[last.0] + last.1);
      assert CreditsOver(cs, keys) == m[last.0 := m[last.0] + last.1];
    }
  }

  /** Amounts of a denomination in bank entries that a later entry of the same address replaces. */
  function Overwritten(bs: seq<BankBalance>, d: Denom): nat {
    if bs == [] then 0
    else Overwritten(bs[..|bs| - 1], d) + Amt(LiquidOf(bs[..|bs| - 1], bs[|bs| - 1].addr), d)
  }

  function BankTotal(bs: seq<BankBalance>, d: Denom): nat {
    if bs == [] then 0 else BankTotal(bs[..|bs| - 1], d) + Amt(bs[|bs| - 1].coins, d)
  }

  ghost function LiquidOver(bs: seq<BankBalance>, keys: set<Addr>, d: Denom): map<Addr, int> {
    map a | a in keys :: Amt(LiquidOf(bs, a), d)
  }

  /** Liquid balances account for every bank entry except the overwritten ones. */
  lemma {:induction false} LiquidConserved(bs: seq<BankBalance>, keys: set<Addr>, d: Denom)
    requires forall i :: 0 <= i < |bs| ==> bs[i].addr in keys
    ensures Sum(LiquidOver(bs, keys, d)) + Overwritten(bs, d) == BankTotal(bs, d)
  {
    if bs == [] {
      SumOfZeros(LiquidOver(bs, keys, d));
    } else {
      var (front, last) := (bs[..|bs| - 1], bs[|bs| - 1]);
      LiquidConserved(front, keys, d);
      var m := LiquidOver(front, keys, d);
      SumUpdate(m, last.addr, Amt(last.coins, d));
      assert LiquidOver(bs, keys, d) == m[last.addr := Amt(last.coins, d)];
    }
  }

  /** Entry i is replaced by a later entry of its address, and held some of the denomination. */
  ghost predicate LosesAt(bs: seq<BankBalance>, d: Denom, i: nat, j: nat) {
    i < j < |bs| && bs[i].addr == bs[j].addr && Amt(bs[i].coins, d) > 0
  }

  /** What an address holds in the end stood in one of its entries. */
  lemma {:induction false} HeldSomewhere(bs: seq<BankBalance>, a: Addr, d: Denom) returns (i: nat)
    requires Amt(LiquidOf(bs, a), d) > 0
    ensures i < |bs| && bs[i].addr == a && Amt(bs[i].coins, d) > 0
  {
    var k := |bs| - 1;
    if bs[k].addr == a {
      i := k;
    } else {
      i := HeldSomewhere(bs[..k], a, d);
    }
  }

  /** An entry either still counts or has been overwritten. */
  lemma {:induction false} HeldOrLost(bs: seq<BankBalance>, d: Denom, i: nat)
    requires i < |bs| && Amt(bs[i].coins, d) > 0
    ensures Overwritten(bs, d) > 0 || Amt(LiquidOf(bs, bs[i].addr), d) > 0
  {
    var k := |bs| - 1;
    if i < k {
      HeldOrLost(bs[..k], d, i);
    }
  }

  /** Coins are lost exactly when an entry that holds some is followed by another of its address. */
  lemma {:induction false} OverwrittenExactly(bs: seq<BankBalance>, d: Denom)
    ensures Overwritten(bs, d) > 0 <==> exists i: nat, j: nat :: LosesAt(bs, d, i, j)
  {
    if bs != [] {
      var k := |bs| - 1;
      var front := bs[..k];
      OverwrittenExactly(front, d);
      if Overwritten(front, d) > 0 {
        var i: nat, j: nat :| LosesAt(front, d, i, j);
        assert LosesAt(bs, d, i, j);
      } else if Overwritten(bs, d) > 0 {
        var i := HeldSomewhere(front, bs[k].addr, d);
        assert LosesAt(bs, d, i, k);
      }
      if i: nat, j: nat :| LosesAt(bs, d, i, j) {
        if j < k {
          assert LosesAt(front, d, i, j);
        } else {
          HeldOrLost(front, d, i);
        }
      }
    }
  }

  /** Two entries of one address: the first one's coin is gone. */
  lemma {:induction false} RepeatedAddressLoses(a: Addr, d: Denom)
    ensures var bs := [BankBalance(a, map[d := 1]), BankBalance(a, map[])];
            LiquidOf(bs, a) == map[] && Overwritten(bs, d) == BankTotal(bs, d) == 1
  {
    var one := [BankBalance(a, map[d := 1])];
    var bs := one + [BankBalance(a, map[])];
    assert one[..0] == [] && Overwritten(one, d) == 0 && BankTotal(one, d) == 1 && LiquidOf(one, a) == map[d := 1];
    assert bs[..1] == one;
  }

  /** With unique bank addresses nothing is overwritten. */
  lemma {:induction false} UniqueNotOverwritten(bs: seq<BankBalance>, d: Denom)
    requires forall i, j :: 0 <= i < j < |bs| ==> bs[i].addr != bs[j].addr
    ensures Overwritten(bs, d) == 0
  {
    OverwrittenExactly(bs, d);
  }

  // ---------------------------------------------------------------- rounding

  /** A stake is rounded twice, to 18 digits and to an integer, each time to the nearest and from a tie
      to the even neighbour. */
  lemma {:induction false} StakedExactly(shares: nat, v: Validator, a: int, r: int)
    requires v.shares > 0 && v.tokens >= 0
    requires a * v.shares <= shares * v.tokens * (ONE * ONE) < (a + 1) * v.shares && NearestEven(a, r)
    ensures NearestEven(r, StakedTokens(shares, v))
  {
    var x := shares * v.tokens;
    NonnegProduct(shares, v.tokens);
    QuoTNat(x * (ONE * ONE), v.shares);
    DivCharacter(x * (ONE * ONE), v.shares, a);
    hide NearestEven, ChopRound, QuoT;
    RoundsHalfToEven(a);
    NearestEvenUnique(a, r, ChopRound(a));
    RoundsHalfToEven(r);
  }

  lemma {:induction false} NonnegProduct(x: nat, y: int)
    requires y >= 0
    ensures x * y >= 0
  {
  }

  /** Two equal delegations to a validator with five tokens get two each, and one token is lost. */
  lemma {:induction false} TieGoesToEven(addr: Addr)
    ensures StakedTokens(ONE, Validator(addr, 5, 2 * ONE)) == 2
  {
  }

  /** One rounded delegation is within one half, plus 10^-18, of its exact share. */
  lemma {:induction false} StakedTokensBound(s: nat, v: Validator)
    requires v.shares > 0 && v.tokens >= 0
    ensures 0 <= StakedTokens(s, v)
    ensures -(v.shares * (ONE + 2)) <= 2 * ONE * (StakedTokens(s, v) * v.shares - s * v.tokens) <= v.shares * (ONE + 2)
  {
    var (x, b) := (s * v.tokens, v.shares);
    assert x >= 0;
    var big := x * (ONE * ONE);
    QuoTNat(big, b);
    var a := big / b;
    DivNonneg(big, b);
    var q := ChopRoundNat(a);
    var t := ChopRoundNat(q);
    ChopRoundBounds(a);
    ChopRoundBounds(q);
    assert StakedTokens(s, v) == t;
    hide *;
    RoundingArithmetic(x, b, a, q, t);
  }

  lemma {:induction false} RoundingArithmetic(x: int, b: int, a: int, q: int, t: int)
    requires b > 0
    requires a * b <= x * (ONE * ONE) < (a + 1) * b
    requires ONE * q - HALF <= a <= ONE * q + HALF
    requires ONE * t - HALF <= q <= ONE * t + HALF
    ensures -(b * (ONE + 2)) <= 2 * ONE * (t * b - x) <= b * (ONE + 2)
  {
    var e := ONE * ONE * t - a;
    assert -(HALF * ONE + HALF) <= e <= HALF * ONE + HALF;
    MulMonotone(e, HALF * ONE + HALF, b);
    MulMonotone(-(HALF * ONE + HALF), e, b);
    assert ONE * ONE * (t * b - x) == e * b + (a * b - x * (ONE * ONE));
  }

  function ShareSum(ss: seq<Dec>): Dec {
    if ss == [] then 0 else ShareSum(ss[..|ss| - 1]) + ss[|ss| - 1]
  }

  function StakedSum(ss: seq<Dec>, v: Validator): int
    requires v.shares != 0
  {
    if ss == [] then 0 else StakedSum(ss[..|ss| - 1], v) + StakedTokens(ss[|ss| - 1], v)
  }

  lemma {:induction false} StakedSumBound(ss: seq<Dec>, v: Validator)
    requires v.shares > 0 && v.tokens >= 0 && forall i :: 0 <= i < |ss| ==> ss[i] >= 0
    ensures var e := 2 * ONE * (StakedSum(ss, v) * v.shares - ShareSum(ss) * v.tokens);
            -(|ss| * (v.shares * (ONE + 2))) <= e <= |ss| * (v.shares * (ONE + 2))
  {
    hide StakedTokens;
    if ss != [] {
      var (front, last) := (ss[..|ss| - 1], ss[|ss| - 1]);
      StakedSumBound(front, v);
      StakedTokensBound(last, v);
      SumStep(StakedSum(front, v), StakedTokens(last, v), ShareSum(front), last, v.shares, v.tokens);
      StepBound(|front|, v.shares * (ONE + 2));
    }
  }

  lemma {:induction false} SumStep(a: int, b: int, x: int, y: int, s: int, t: int)
    ensures (a + b) * s - (x + y) * t == (a * s - x * t) + (b * s - y * t)
  {
  }

  lemma {:induction false} StepBound(n: int, k: int)
    ensures n * k + k == (n + 1) * k
  {
  }

  /** If the n delegations of a validator add up to its shares, their rounded stakes add up to its
      tokens within n * (1/2 + 10^-18). */
  lemma {:induction false} ValidatorRounding(ss: seq<Dec>, v: Validator)
    requires v.shares > 0 && v.tokens >= 0 && forall i :: 0 <= i < |ss| ==> ss[i] >= 0
    requires ShareSum(ss) == v.shares
    ensures -(|ss| * (ONE + 2)) <= 2 * ONE * (StakedSum(ss, v) - v.tokens) <= |ss| * (ONE + 2)
  {
    StakedSumBound(ss, v);
    hide *;
    CancelShares(StakedSum(ss, v), v.tokens, v.shares, |ss|, ONE);
  }

  lemma {:induction false} CancelShares(total: int, tokens: int, s: int, n: int, one: int)
    requires s > 0
    requires var e := 2 * one * (total * s - s * tokens);
             -(n * (s * (one + 2))) <= e <= n * (s * (one + 2))
    ensures -(n * (one + 2)) <= 2 * one * (total - tokens) <= n * (one + 2)
  {
    FactorShares(total, tokens, s, n, one);
    CancelBound(2 * one * (total - tokens), n * (one + 2), s);
  }

  lemma {:induction false} FactorShares(total: int, tokens: int, s: int, n: int, one: int)
    ensures 2 * one * (total * s - s * tokens) == (2 * one * (total - tokens)) * s
    ensures n * (s * (one + 2)) == (n * (one + 2)) * s
  {
  }

  lemma {:induction false} CancelBound(d: int, k: int, s: int)
    requires s > 0 && -(k * s) <= d * s <= k * s
    ensures -k <= d <= k
  {
    if d > k { MulMonotone(k + 1, d, s); }
    if d < -k { MulMonotone(d, -k - 1, s); }
  }

  // ---------------------------------------------------------------- the loops

  type Snapshot = map<Addr, Account>

  const NEW_ACCOUNT := Account(map[], 0, 0, map[])

  function Get(accs: Snapshot, a: Addr): Account {
    if a in accs then accs[a] else NEW_ACCOUNT
  }

  function AddrsOf(bs: seq<BankBalance>): set<Addr> { set i | 0 <= i < |bs| :: bs[i].addr }
  function CreditAddrs(cs: seq<(Addr, int)>): set<Addr> { set i | 0 <= i < |cs| :: cs[i].0 }

  method LoadBalances(bs: seq<BankBalance>) returns (accs: Snapshot)
    ensures accs.Keys == AddrsOf(bs)
    ensures forall a :: Get(accs, a) == NEW_ACCOUNT.(liquid := LiquidOf(bs, a))
  {
    accs := map[];
    var i := 0;
    while i < |bs|
      invariant 0 <= i <= |bs|
      invariant accs.Keys == AddrsOf(bs[..i])
      invariant forall a :: Get(accs, a) == NEW_ACCOUNT.(liquid := LiquidOf(bs[..i], a))
    {
      var address := bs[i].addr;
      var acc := Get(accs, address);
      assert bs[..i + 1][..i] == bs[..i];
      AddrsSnoc(bs, i);
      acc := acc.(liquid := bs[i].coins);
      accs := accs[address := acc];
      i := i + 1;
    }
    assert bs[..i] == bs;
  }

  lemma {:induction false} AddrsSnoc(bs: seq<BankBalance>, i: nat)
    requires i < |bs|
    ensures AddrsOf(bs[..i + 1]) == AddrsOf(bs[..i]) + {bs[i].addr}
  {
    assert forall j :: 0 <= j < i ==> bs[..i + 1][j] == bs[..i][j];
    assert bs[..i + 1][i] == bs[i];
  }

  lemma {:induction false} CreditAddrsSnoc(cs: seq<(Addr, int)>, i: nat)
    requires i < |cs|
    ensures CreditAddrs(cs[..i + 1]) == CreditAddrs(cs[..i]) + {cs[i].0}
    ensures forall a :: Credit(cs[..i + 1], a) == Credit(cs[..i], a) + (if cs[i].0 == a then cs[i].1 else 0)
  {
    assert forall j :: 0 <= j < i ==> cs[..i + 1][j] == cs[..i][j];
    assert cs[..i + 1][i] == cs[i] && cs[..i + 1][..i] == cs[..i];
  }

  method SumEntries(es: seq<int>) returns (total: int)
    ensures total == EntrySum(es)
  {
    total := 0;
    var i := 0;
    while i < |es|
      invariant 0 <= i <= |es| && total == EntrySum(es[..i])
    {
      assert es[..i + 1][..i] == es[..i];
      total := total + es[i];
      i := i + 1;
    }
    assert es[..i] == es;
  }

  lemma {:induction false} NoCredits(cs: seq<(Addr, int)>)
    ensures CreditAddrs(cs[..0]) == {} && forall a :: Credit(cs[..0], a) == 0
  {
  }

  method AddUnbondings(us: seq<Unbonding>, start: Snapshot) returns (accs: Snapshot)
    ensures accs.Keys == start.Keys + CreditAddrs(UnbondingCredits(us))
    ensures forall a ::
      Get(accs, a) == Get(start, a).(unbonding := Get(start, a).unbonding + Credit(UnbondingCredits(us), a))
  {
    hide Credit, CreditAddrs, EntrySum;
    ghost var cs := UnbondingCredits(us);
    accs := start;
    NoCredits(cs);
    var i := 0;
    while i < |us|
      invariant 0 <= i <= |us|
      invariant accs.Keys == start.Keys + CreditAddrs(cs[..i])
      invariant forall a :: Get(accs, a) == Get(start, a).(unbonding := Get(start, a).unbonding + Credit(cs[..i], a))
    {
      var address := us[i].addr;
      var acc := Get(accs, address);
      var unbondingTerps := SumEntries(us[i].entries);
      CreditAddrsSnoc(cs, i);
      acc := acc.(unbonding := acc.unbonding + unbondingTerps);
      accs := accs[address := acc];
      i := i + 1;
    }
    assert cs[..i] == cs;
  }

  method IndexValidators(vs: seq<Validator>) returns (vals: map<Addr, Validator>)
    ensures vals == ValidatorMap(vs)
  {
    vals := map[];
    var i := 0;
    while i < |vs|
      invariant 0 <= i <= |vs| && vals == ValidatorMap(vs[..i])
    {
      assert vs[..i + 1][..i] == vs[..i];
      vals := vals[vs[i].operator := vs[i]];
      i := i + 1;
    }
    assert vs[..i] == vs;
  }

  /** accs is start with these amounts added to the staked field. */
  ghost predicate StakesAdded(start: Snapshot, accs: Snapshot, cs: seq<(Addr, int)>) {
    && accs.Keys == start.Keys + CreditAddrs(cs)
    && forall a :: Get(accs, a) == Get(start, a).(staked := Get(start, a).staked + Credit(cs, a))
  }

  lemma {:induction false} NoStakesAdded(start: Snapshot)
    ensures StakesAdded(start, start, [])
  {
  }

  lemma {:induction false} StakeAdded(start: Snapshot, accs: Snapshot, cs: seq<(Addr, int)>, a: Addr, x: int)
    requires StakesAdded(start, accs, cs)
    ensures StakesAdded(start, accs[a := Get(accs, a).(staked := Get(accs, a).staked + x)], cs + [(a, x)])
  {
    var cs' := cs + [(a, x)];
    CreditAddrsSnoc(cs', |cs|);
    assert cs'[..|cs|] == cs && cs'[..|cs| + 1] == cs';
  }

  /** A delegation to an unknown validator or to one without shares panics. */
  method AddStakes(ds: seq<Delegation>, vals: map<Addr, Validator>, start: Snapshot) returns (o: Outcome<Snapshot>)
    ensures o.Ok? <==> forall i :: 0 <= i < |ds| ==> Payable(vals, ds[i])
    ensures o.Ok? ==> StakesAdded(start, o.value, StakeCredits(ds, vals))
    ensures o.Panic? ==> o.failure != NegativeCoin
  {
    hide StakedTokens, StakesAdded;
    var accs := start;
    var i := 0;
    ghost var cs: seq<(Addr, int)> := [];
    NoStakesAdded(start);
    while i < |ds|
      invariant 0 <= i <= |ds| && |cs| == i
      invariant forall j :: 0 <= j < i ==>
                  Payable(vals, ds[j]) && cs[j] == (ds[j].delegator, StakedTokens(ds[j].shares, vals[ds[j].validator]))
      invariant StakesAdded(start, accs, cs)
    {
      var address := ds[i].delegator;
      var acc := Get(accs, address);
      if ds[i].validator !in vals {
        return Panic(UnknownValidator);
      }
      var val := vals[ds[i].validator];
      if val.shares == 0 {
        return Panic(DivisionByZero);
      }
      var stakedTerps := StakedTokens(ds[i].shares, val);
      StakeAdded(start, accs, cs, address, stakedTerps);
      acc := acc.(staked := acc.staked + stakedTerps);
      accs := accs[address := acc];
      cs := cs + [(address, stakedTerps)];
      i := i + 1;
    }
    assert cs == StakeCredits(ds, vals);
    return Ok(accs);
  }

  /** Totals, account by account in an unspecified order; a negative amount panics. */
  method AddTotals(start: Snapshot) returns (o: Outcome<Snapshot>)
    ensures o.Ok? <==> forall a :: a in start ==> start[a].staked >= 0 && start[a].unbonding >= 0
    ensures o.Panic? ==> o.failure == NegativeCoin
    ensures o.Ok? ==>
              && o.value.Keys == start.Keys
              && forall a :: a in start ==>
                   && start[a].staked >= 0 && start[a].unbonding >= 0
                   && o.value[a] == start[a].(total := TotalOf(start[a].liquid, start[a].staked, start[a].unbonding))
  {
    var accs := start;
    var todo := start.Keys;
    while todo != {}
      invariant todo <= start.Keys && accs.Keys == start.Keys
      invariant forall a :: a in todo ==> accs[a] == start[a]
      invariant forall a :: a in start && a !in todo ==>
                  && start[a].staked >= 0 && start[a].unbonding >= 0
                  && accs[a] == start[a].(total := TotalOf(start[a].liquid, start[a].staked, start[a].unbonding))
      decreases todo
    {
      var addr :| addr in todo;
      var account := accs[addr];
      if account.staked < 0 || account.unbonding < 0 {
        return Panic(NegativeCoin);
      }
      accs := accs[addr := account.(total := TotalOf(account.liquid, account.staked, account.unbonding))];
      todo := todo - {addr};
    }
    return Ok(accs);
  }

  /** Every holder of the genesis has exactly one account, holding what it is due. */
  ghost predicate Derived(g: Genesis, accs: Snapshot) {
    && AllPayable(g)
    && accs.Keys == Holders(g)
    && forall a :: a in accs ==>
         && accs[a].liquid == LiquidOf(g.balances, a)
         && (accs[a].staked, accs[a].unbonding) == Due(g, a)
         && accs[a].staked >= 0 && accs[a].unbonding >= 0
         && accs[a].total == TotalOf(accs[a].liquid, accs[a].staked, accs[a].unbonding)
  }

  /** The accounts before the last loop. */
  ghost predicate Collected(g: Genesis, accs: Snapshot)
    requires AllPayable(g)
  {
    && accs.Keys == Holders(g)
    && forall a :: a in accs ==>
         accs[a].liquid == LiquidOf(g.balances, a) && (accs[a].staked, accs[a].unbonding) == Due(g, a)
  }

  lemma {:induction false} CollectedByLoops(g: Genesis, a1: Snapshot, a2: Snapshot, a3: Snapshot)
    requires AllPayable(g)
    requires a1.Keys == AddrsOf(g.balances)
    requires forall a :: Get(a1, a) == NEW_ACCOUNT.(liquid := LiquidOf(g.balances, a))
    requires a2.Keys == a1.Keys + CreditAddrs(UnbondingCredits(g.unbondings))
    requires forall a :: Get(a2, a)
               == Get(a1, a).(unbonding := Get(a1, a).unbonding + Credit(UnbondingCredits(g.unbondings), a))
    requires StakesAdded(a2, a3, StakeCredits(g.delegations, ValidatorMap(g.validators)))
    ensures Collected(g, a3)
  {
    hide StakedTokens, Credit, UnbondingCredits, StakeCredits, LiquidOf, Holders, AddrsOf, CreditAddrs;
    HoldersAre(g);
    forall a | a in a3
      ensures a3[a].liquid == LiquidOf(g.balances, a) && (a3[a].staked, a3[a].unbonding) == Due(g, a)
    {
      assert a3[a] == Get(a3, a);
    }
  }

  /** The whole derivation. */
  method DeriveBalances(g: Genesis) returns (o: Outcome<Snapshot>)
    ensures o.Ok? ==> Derived(g, o.value)
    ensures o.Panic? <==> !AllPayable(g) || exists a :: a in Holders(g) && (Due(g, a).0 < 0 || Due(g, a).1 < 0)
  {
    hide StakedTokens, Credit, UnbondingCredits, StakeCredits, LiquidOf, Holders;
    hide AddrsOf, CreditAddrs, TotalOf, Due, StakesAdded;
    var balances := LoadBalances(g.balances);
    var accs := AddUnbondings(g.unbondings, balances);
    var vals := IndexValidators(g.validators);
    var staked := AddStakes(g.delegations, vals, accs);
    if staked.Panic? {
      return Panic(staked.failure);
    }
    CollectedByLoops(g, balances, accs, staked.value);
    o := AddTotals(staked.value);
  }

  lemma {:induction false} HoldersAre(g: Genesis)
    requires AllPayable(g)
    ensures Holders(g) == AddrsOf(g.balances) + CreditAddrs(UnbondingCredits(g.unbondings))
                          + CreditAddrs(StakeCredits(g.delegations, ValidatorMap(g.validators)))
  {
    hide StakedTokens;
    var (us, cs) := (g.unbondings, UnbondingCredits(g.unbondings));
    var (ds, ss) := (g.delegations, StakeCredits(g.delegations, ValidatorMap(g.validators)));
    assert forall i :: 0 <= i < |us| ==> cs[i].0 == us[i].addr;
    assert forall i :: 0 <= i < |ds| ==> ss[i].0 == ds[i].delegator;
  }

  // ---------------------------------------------------------------- conservation over a run

  ghost function TotalsIn(accs: Snapshot, d: Denom): map<Addr, int> {
    map a | a in accs :: Amt(accs[a].total, d)
  }

  ghost function StakedIn(accs: Snapshot): map<Addr, int> { map a | a in accs :: accs[a].staked }
  ghost function UnbondingIn(accs: Snapshot): map<Addr, int> { map a | a in accs :: accs[a].unbonding }
  ghost function LiquidIn(accs: Snapshot, d: Denom): map<Addr, int> {
    map a | a in accs :: Amt(accs[a].liquid, d)
  }

  function AllEntries(us: seq<Unbonding>): int {
    if us == [] then 0 else AllEntries(us[..|us| - 1]) + EntrySum(us[|us| - 1].entries)
  }

  lemma {:induction false} CreditTotalIsEntries(us: seq<Unbonding>)
    ensures CreditTotal(UnbondingCredits(us)) == AllEntries(us)
  {
    if us != [] {
      var front := us[..|us| - 1];
      CreditTotalIsEntries(front);
      assert UnbondingCredits(us)[..|us| - 1] == UnbondingCredits(front);
    }
  }

  lemma {:induction false} DerivedMaps(g: Genesis, accs: Snapshot, d: Denom)
    requires Derived(g, accs)
    ensures UnbondingIn(accs) == CreditsOver(UnbondingCredits(g.unbondings), Holders(g))
    ensures StakedIn(accs) == CreditsOver(StakeCredits(g.delegations, ValidatorMap(g.validators)), Holders(g))
    ensures LiquidIn(accs, d) == LiquidOver(g.balances, Holders(g), d)
  {
    hide StakedTokens, Credit, LiquidOf, TotalOf, Holders, UnbondingCredits, StakeCredits;
  }

  lemma {:induction false} HoldersCover(g: Genesis)
    requires AllPayable(g)
    ensures forall i :: 0 <= i < |g.balances| ==> g.balances[i].addr in Holders(g)
    ensures var us := UnbondingCredits(g.unbondings); forall i :: 0 <= i < |us| ==> us[i].0 in Holders(g)
    ensures var ss := StakeCredits(g.delegations, ValidatorMap(g.validators));
            forall i :: 0 <= i < |ss| ==> ss[i].0 in Holders(g)
  {
    hide StakedTokens, EntrySum, ValidatorMap;
  }

  /** In every derived snapshot the unbonding stakes add up to all unbonding entries, the staked
      amounts to all rounded delegations, and the liquid balances to all bank entries that were not
      overwritten. */
  lemma {:induction false} DerivedConserves(g: Genesis, accs: Snapshot, d: Denom)
    requires Derived(g, accs)
    ensures Sum(UnbondingIn(accs)) == AllEntries(g.unbondings)
    ensures Sum(StakedIn(accs)) == CreditTotal(StakeCredits(g.delegations, ValidatorMap(g.validators)))
    ensures Sum(LiquidIn(accs, d)) + Overwritten(g.balances, d) == BankTotal(g.balances, d)
  {
    hide StakedTokens, Credit, LiquidOf, CreditTotal, Overwritten, BankTotal, TotalOf, Sum, UnbondingCredits;
    hide StakeCredits, Holders, UnbondingIn, StakedIn, LiquidIn, CreditsOver, LiquidOver, AllEntries;
    DerivedMaps(g, accs, d);
    HoldersCover(g);
    CreditTotalIsEntries(g.unbondings);
    var keys := Holders(g);
    CreditsConserved(UnbondingCredits(g.unbondings), keys);
    CreditsConserved(StakeCredits(g.delegations, ValidatorMap(g.validators)), keys);
    LiquidConserved(g.balances, keys, d);
  }

  lemma {:induction false} SumOfSums(x: map<Addr, int>, y: map<Addr, int>, z: map<Addr, int>)
    requires x.Keys == y.Keys == z.Keys && forall a :: a in x ==> z[a] == x[a] + y[a]
    ensures Sum(z) == Sum(x) + Sum(y)
    decreases |x|
  {
    if x == map[] {
      assert y == map[] && z == map[];
    } else {
      var a :| a in x;
      SumRemove(x, a);
      SumRemove(y, a);
      SumRemove(z, a);
      SumOfSums(x - {a}, y - {a}, z - {a});
    }
  }

  lemma {:induction false} TotalAmount(acc: Account, d: Denom)
    requires acc.staked >= 0 && acc.unbonding >= 0 && acc.total == TotalOf(acc.liquid, acc.staked, acc.unbonding)
    ensures Amt(acc.total, d) == Amt(acc.liquid, d) + (if d == BASE_DENOM then acc.staked + acc.unbonding else 0)
  {
  }

  /** The total balances add up to liquid, plus staked and unbonding in the base denomination. */
  lemma {:induction false} TotalsConserve(g: Genesis, accs: Snapshot, d: Denom)
    requires Derived(g, accs)
    ensures Sum(TotalsIn(accs, d))
         == Sum(LiquidIn(accs, d)) + (if d == BASE_DENOM then Sum(StakedIn(accs)) + Sum(UnbondingIn(accs)) else 0)
  {
    hide StakedTokens, Credit, LiquidOf, TotalOf, Sum, Amt, Due, Holders;
    forall a | a in accs
      ensures Amt(accs[a].total, d) == Amt(accs[a].liquid, d)
                                       + (if d == BASE_DENOM then accs[a].staked + accs[a].unbonding else 0)
    {
      TotalAmount(accs[a], d);
    }
    if d == BASE_DENOM {
      var bonded := map a | a in accs :: accs[a].staked + accs[a].unbonding;
      SumOfSums(StakedIn(accs), UnbondingIn(accs), bonded);
      SumOfSums(LiquidIn(accs, d), bonded, TotalsIn(accs, d));
    } else {
      assert TotalsIn(accs, d) == LiquidIn(accs, d);
    }
  }

  /** With unique bank addresses, the total of every denomination is exactly the bank's total, plus
      stake and unbonding in the base denomination. */
  lemma {:induction false} UniqueTotals(g: Genesis, accs: Snapshot, d: Denom)
    requires Derived(g, accs)
    requires forall i, j :: 0 <= i < j < |g.balances| ==> g.balances[i].addr != g.balances[j].addr
    ensures Sum(TotalsIn(accs, d))
         == BankTotal(g.balances, d)
            + (if d == BASE_DENOM
               then CreditTotal(StakeCredits(g.delegations, ValidatorMap(g.validators))) + AllEntries(g.unbondings)
               else 0)
  {
    hide Derived, Sum, Overwritten, BankTotal, CreditTotal, AllEntries;
    DerivedConserves(g, accs, d);
    TotalsConserve(g, accs, d);
    UniqueNotOverwritten(g.balances, d);
  }
}
