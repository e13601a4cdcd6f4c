/** What rounding does to the stakes of a derived snapshot (cmd/terpd/cmd/export.go): validator by
    validator, and over the whole genesis. */
module BalanceRounding {
  import opened Dec
  import opened MapSums
  import opened Balances

  // ---------------------------------------------------------------- the delegations of one validator

  /** The shares delegated to an operator, in genesis order. */
  function SharesTo(ds: seq<Delegation>, a: Addr): seq<Dec> {
    if ds == [] then []
    else SharesTo(ds[..|ds| - 1], a) + (if ds[|ds| - 1].validator == a then [ds[|ds| - 1].shares] else [])
  }

  ghost predicate PayableAll(ds: seq<Delegation>, vals: map<Addr, Validator>) {
    forall i :: 0 <= i < |ds| ==> Payable(vals, ds[i])
  }

  /** The same amounts that are credited to delegators, under the operators they come from. */
  function ByValidator(ds: seq<Delegation>, vals: map<Addr, Validator>): seq<(Addr, int)>
    requires PayableAll(ds, vals)
  {
    seq(|ds|, i requires 0 <= i < |ds| && Payable(vals, ds[i]) =>
      (ds[i].validator, StakedTokens(ds[i].shares, vals[ds[i].validator])))
  }

  lemma {:induction false} SameTotal(ds: seq<Delegation>, vals: map<Addr, Validator>)
    requires PayableAll(ds, vals)
    ensures CreditTotal(ByValidator(ds, vals)) == CreditTotal(StakeCredits(ds, vals))
    decreases |ds|
  {
    hide StakedTokens;
    if ds != [] {
      var front := ds[..|ds| - 1];
      SameTotal(front, vals);
      assert ByValidator(ds, vals)[..|ds| - 1] == ByValidator(front, vals);
      assert StakeCredits(ds, vals)[..|ds| - 1] == StakeCredits(front, vals);
    }
  }

  /** What a validator contributes is the sum of the rounded stakes of its delegations. */
  lemma {:induction false} ContributionIs(ds: seq<Delegation>, vals: map<Addr, Validator>, a: Addr)
    requires PayableAll(ds, vals) && a in vals
    ensures vals[a].shares != 0 ==> Credit(ByValidator(ds, vals), a) == StakedSum(SharesTo(ds, a), vals[a])
    ensures vals[a].shares == 0 ==> Credit(ByValidator(ds, vals), a) == 0 && SharesTo(ds, a) == []
    decreases |ds|
  {
    hide StakedTokens;
    if ds != [] {
      var (front, last) := (ds[..|ds| - 1], ds[|ds| - 1]);
      ContributionIs(front, vals, a);
      assert ByValidator(ds, vals)[..|ds| - 1] == ByValidator(front, vals);
      if last.validator == a {
        var ss := SharesTo(ds, a);
        assert ss[..|ss| - 1] == SharesTo(front, a) && ss[|ss| - 1] == last.shares;
      } else {
        assert SharesTo(ds, a) == SharesTo(front, a);
      }
    }
  }

  /** One count per delegation. */
  function Counts(ds: seq<Delegation>): seq<(Addr, int)> {
    seq(|ds|, i requires 0 <= i < |ds| => (ds[i].validator, 1))
  }

  lemma {:induction false} CountIs(ds: seq<Delegation>, a: Addr)
    ensures Credit(Counts(ds), a) == |SharesTo(ds, a)| && CreditTotal(Counts(ds)) == |ds|
    decreases |ds|
  {
    if ds != [] {
      CountIs(ds[..|ds| - 1], a);
      assert Counts(ds)[..|ds| - 1] == Counts(ds[..|ds| - 1]);
    }
  }

  // ---------------------------------------------------------------- one validator of a genesis

  /** A validator whose delegations, none of them negative, add up to its shares; one without shares
      holds no tokens. */
  ghost predicate FullyDelegated(g: Genesis, a: Addr)
    requires a in ValidatorMap(g.validators)
  {
    var (v, ss) := (ValidatorMap(g.validators)[a], SharesTo(g.delegations, a));
    && v.tokens >= 0 && v.shares >= 0 && (v.shares == 0 ==> v.tokens == 0)
    && (forall i :: 0 <= i < |ss| ==> ss[i] >= 0) && ShareSum(ss) == v.shares
  }

  /** x and y differ by at most n * (1/2 + 10^-18). */
  predicate Within(x: int, y: int, n: int) {
    -(n * (ONE + 2)) <= 2 * ONE * (x - y) <= n * (ONE + 2)
  }

  /** The rounded stakes of a fully delegated validator add up to its tokens within
      n * (1/2 + 10^-18), where n is the number of its delegations. */
  lemma {:induction false} ValidatorOfGenesis(g: Genesis, a: Addr)
    requires AllPayable(g) && a in ValidatorMap(g.validators) && FullyDelegated(g, a)
    ensures Within(Credit(ByValidator(g.delegations, ValidatorMap(g.validators)), a),
                   ValidatorMap(g.validators)[a].tokens, |SharesTo(g.delegations, a)|)
  {
    hide StakedSum, ShareSum, SharesTo, Credit, ByValidator, ValidatorMap;
    var vals := ValidatorMap(g.validators);
    ContributionIs(g.delegations, vals, a);
    if vals[a].shares > 0 {
      ValidatorRounding(SharesTo(g.delegations, a), vals[a]);
    }
  }

  // ---------------------------------------------------------------- the whole genesis

  lemma {:induction false} WithinAdds(x: int, y: int, n: int, x': int, y': int, n': int)
    requires Within(x, y, n) && Within(x', y', n')
    ensures Within(x + x', y + y', n + n')
  {
  }

  lemma {:induction false} NothingWithin(x: map<Addr, int>, y: map<Addr, int>, n: map<Addr, int>)
    requires x.Keys == y.Keys == n.Keys == {}
    ensures Within(Sum(x), Sum(y), Sum(n))
  {
    assert x == map[] && y == map[] && n == map[];
  }

  lemma {:induction false} SumsWithin(x: map<Addr, int>, y: map<Addr, int>, n: map<Addr, int>)
    requires x.Keys == y.Keys == n.Keys && forall a :: a in x ==> Within(x[a], y[a], n[a])
    ensures Within(Sum(x), Sum(y), Sum(n))
    decreases |x|
  {
    hide *;
    if x == map[] {
      NothingWithin(x, y, n);
    } else {
      var a :| a in x;
      SumRemove(x, a);
      SumRemove(y, a);
      SumRemove(n, a);
      SumsWithin(x - {a}, y - {a}, n - {a});
      WithinAdds(x[a], y[a], n[a], Sum(x - {a}), Sum(y - {a}), Sum(n - {a}));
    }
  }

  lemma {:induction false} OperatorsKnown(ds: seq<Delegation>, vals: map<Addr, Validator>)
    requires PayableAll(ds, vals)
    ensures forall i :: 0 <= i < |ByValidator(ds, vals)| ==> ByValidator(ds, vals)[i].0 in vals.Keys
    ensures forall i :: 0 <= i < |Counts(ds)| ==> Counts(ds)[i].0 in vals.Keys
  {
    hide StakedTokens;
  }

  ghost function TokensOf(vals: map<Addr, Validator>): map<Addr, int> { map a | a in vals :: vals[a].tokens }

  /** In every derived snapshot of a genesis whose validators are fully delegated, all staked amounts
      together differ from all validators' tokens by at most n * (1/2 + 10^-18), where n is the number
      of delegations. */
  lemma {:induction false} SnapshotRounding(g: Genesis, accs: Snapshot)
    requires Derived(g, accs)
    requires forall a :: a in ValidatorMap(g.validators) ==> FullyDelegated(g, a)
    ensures Within(Sum(StakedIn(accs)), Sum(TokensOf(ValidatorMap(g.validators))), |g.delegations|)
  {
    DerivedConserves(g, accs, BASE_DENOM);
    var (ds, vals) := (g.delegations, ValidatorMap(g.validators));
    assert AllPayable(g);
    SameTotal(ds, vals);
    OperatorsKnown(ds, vals);
    hide Derived, StakedIn, Sum, Credit, CreditTotal, ByValidator, StakeCredits, Counts, FullyDelegated, Within;
    hide SharesTo, ValidatorMap;
    var x := CreditsOver(ByValidator(ds, vals), vals.Keys);
    var n := CreditsOver(Counts(ds), vals.Keys);
    CreditsConserved(ByValidator(ds, vals), vals.Keys);
    CreditsConserved(Counts(ds), vals.Keys);
    CountIs(ds, "");
    forall a | a in vals
      ensures Within(x[a], TokensOf(vals)[a], n[a])
    {
      ValidatorOfGenesis(g, a);
      CountIs(ds, a);
    }
    SumsWithin(x, TokensOf(vals), n);
  }
}
