/** Where the money goes in a run of the patch (app/upgrades/v520/patch.go): the distribution module's
    surplus and the total supply are conserved, and a solvent module never fails to pay. */
module PatchConservation {
  import opened Dec
  import opened CoinSets
  import opened Distribution
  import opened RefCounts
  import opened PatchRuns
  import opened MapSums

  function OutstandingIn(ledgers: map<Addr, Ledger>, d: Denom): map<Addr, int> {
    map v | v in ledgers :: Amt(ledgers[v].outstanding, d)
  }

  function BalancesIn(balances: map<Addr, Coins>, d: Denom): map<Addr, int> {
    map a | a in balances :: Amt(balances[a], d)
  }

  /** Module balance minus all outstanding rewards minus the community pool, in 10^-18 units. */
  ghost function Surplus(s: State, d: Denom): int {
    Amt(s.moduleBalance, d) * ONE - Sum(OutstandingIn(s.ledgers, d)) - Amt(s.pool, d)
  }

  /** Everything held by the module account and by user accounts. */
  ghost function Supply(s: State, d: Denom): int {
    Amt(s.moduleBalance, d) + Sum(BalancesIn(s.balances, d))
  }

  ghost predicate Conserves(s: State, t: State) {
    forall d :: Surplus(t, d) == Surplus(s, d) && Supply(t, d) == Supply(s, d)
  }

  lemma {:induction false} ConservesTransitive(s: State, t: State, u: State)
    requires Conserves(s, t) && Conserves(t, u)
    ensures Conserves(s, u)
  {
    hide Surplus, Supply;
    forall d ensures Surplus(u, d) == Surplus(s, d) && Supply(u, d) == Supply(s, d) {
      assert Surplus(t, d) == Surplus(s, d) && Supply(t, d) == Supply(s, d);
    }
  }

  lemma {:induction false} OutstandingUpdate(ledgers: map<Addr, Ledger>, v: Addr, l: Ledger, d: Denom)
    requires v in ledgers
    ensures Sum(OutstandingIn(ledgers[v := l], d))
         == Sum(OutstandingIn(ledgers, d)) + Amt(l.outstanding, d) - Amt(ledgers[v].outstanding, d)
  {
    hide Amt, Sum;
    var m := OutstandingIn(ledgers, d);
    SumUpdate(m, v, Amt(l.outstanding, d));
    assert OutstandingIn(ledgers[v := l], d) == m[v := Amt(l.outstanding, d)];
  }

  lemma {:induction false} BalanceUpdate(balances: map<Addr, Coins>, a: Addr, c: Coins, d: Denom)
    ensures Sum(BalancesIn(balances[a := c], d))
         == Sum(BalancesIn(balances, d)) + Amt(c, d) - (if a in balances then Amt(balances[a], d) else 0)
  {
    var m := BalancesIn(balances, d);
    SumUpdate(m, a, Amt(c, d));
    assert BalancesIn(balances[a := c], d) == m[a := Amt(c, d)];
  }

  // ---------------------------------------------------------------- one iteration

  lemma {:induction false} LedgerKeeps(s: State, v: Addr, l: Ledger)
    requires v in s.ledgers && l.outstanding == s.ledgers[v].outstanding
    ensures Conserves(s, s.(ledgers := s.ledgers[v := l]))
  {
    forall d { OutstandingUpdate(s.ledgers, v, l, d); }
  }

  /** Ending a period either leaves the outstanding rewards alone or moves them to the pool. */
  lemma {:induction false} IncrementConserves(s: State, v: Addr, tokens: nat)
    requires v in s.ledgers && IncrementPeriod(s.ledgers[v], s.pool, tokens).Ok?
    ensures var (m, pool') := IncrementPeriod(s.ledgers[v], s.pool, tokens).value;
            Conserves(s, s.(ledgers := s.ledgers[v := m], pool := pool'))
  {
    var l := s.ledgers[v];
    var (m, pool') := IncrementPeriod(l, s.pool, tokens).value;
    forall d
      ensures Amt(m.outstanding, d) + Amt(pool', d) == Amt(l.outstanding, d) + Amt(s.pool, d)
    {
      assert DecrementRef(l, Prev(l.current.period)).Ok?;
    }
    forall d
      ensures Surplus(s.(ledgers := s.ledgers[v := m], pool := pool'), d) == Surplus(s, d)
    {
      OutstandingUpdate(s.ledgers, v, m, d);
    }
  }

  /** Whole coins leave the module for the payee, and nothing else moves. */
  lemma {:induction false} SendMoves(ctx: Context, s: State, addr: Addr, coins: Coins, d: Denom)
    requires Send(ctx, s, addr, coins).Ok?
    ensures var t := Send(ctx, s, addr, coins).value;
            && Amt(t.moduleBalance, d) == Amt(s.moduleBalance, d) - Amt(coins, d)
            && Supply(t, d) == Supply(s, d)
  {
    if coins != map[] {
      var to := Payee(ctx, addr);
      BalanceUpdate(s.balances, to, Plus(BalanceOf(s, to), coins), d);
    }
  }

  lemma {:induction false} WholeAndFraction(c: Coins, d: Denom)
    ensures Amt(c, d) == Amt(Whole(c), d) * ONE + Amt(Fraction(c), d)
  {
  }

  /** A settlement takes exactly what it pays out and what it gives to the pool. */
  lemma {:induction false} SettleConservesIn(ctx: Context, s: State, v: Addr, addr: Addr, rewards: Coins, d: Denom)
    requires v in s.ledgers && addr in s.ledgers[v].infos && Covers(s.ledgers[v].outstanding, rewards)
    ensures var r := Settle(ctx, s, v, addr, rewards);
            Surplus(r.st, d) == Surplus(s, d) && Supply(r.st, d) == Supply(s, d)
  {
    hide Sum, Whole, Fraction, Covers, Plus, Minus, Send, Amt, OutstandingIn, BalancesIn;
    var r := Settle(ctx, s, v, addr, rewards);
    if r.out.Ok? {
      var t := Send(ctx, s, addr, Whole(rewards)).value;
      SendMoves(ctx, s, addr, Whole(rewards), d);
      WholeAndFraction(rewards, d);
      OutstandingUpdate(t.ledgers, v, r.st.ledgers[v], d);
    }
  }

  lemma {:induction false} RestartConserves(ctx: Context, s: State, v: Addr, del: Delegation, ending: nat)
    requires v in s.ledgers && v in s.validators
    ensures Conserves(s, Restart(ctx, s, v, del, ending).st)
  {
    hide Surplus, Supply, Settle, CalculateRewards, Initialize, Intersect, Covers;
    var w := Withdraw(ctx, s, v, del, ending);
    assert Conserves(s, w.st) by {
      if w.st != s {
        var res := CalculateRewards(s.ledgers[v], s.validators[v], del, ctx.height, ending);
        forall d { SettleConservesIn(ctx, s, v, del.addr, Intersect(res.value.0, s.ledgers[v].outstanding), d); }
      }
    }
    InitializeConserves(ctx, w.st, v, del.addr);
    ConservesTransitive(s, w.st, Initialize(ctx, w.st, v, del.addr).st);
  }

  lemma {:induction false} InitializeConserves(ctx: Context, s: State, v: Addr, addr: Addr)
    requires v in s.ledgers && v in s.validators
    ensures Conserves(s, Initialize(ctx, s, v, addr).st)
  {
    hide Conserves, Initialize;
    InitializeWrites(ctx, s, v, addr);
    LedgerKeeps(s, v, Initialize(ctx, s, v, addr).st.ledgers[v]);
  }

  /** Restarting writes one ledger, and not its outstanding rewards. */
  lemma {:induction false} InitializeWrites(ctx: Context, s: State, v: Addr, addr: Addr)
    requires v in s.ledgers && v in s.validators
    ensures var t := Initialize(ctx, s, v, addr).st;
            && t == s.(ledgers := s.ledgers[v := t.ledgers[v]])
            && t.ledgers[v].outstanding == s.ledgers[v].outstanding
  {
    hide TokensFromSharesTruncated, FindShares, IncrementRef, OnlyTouches;
    if IncrementRef(s.ledgers[v], Prev(s.ledgers[v].current.period)).Ok? {
      IncrementRefWrites(s.ledgers[v], Prev(s.ledgers[v].current.period));
    }
    assert s.ledgers[v := s.ledgers[v]] == s.ledgers;
  }

  lemma {:induction false} IncrementRefWrites(l: Ledger, p: nat)
    requires IncrementRef(l, p).Ok?
    ensures IncrementRef(l, p).value.outstanding == l.outstanding
  {
  }

  lemma {:induction false} PatchOneConserves(ctx: Context, s: State, v: Addr, del: Delegation)
    requires v in s.ledgers && v in s.validators
    ensures Conserves(s, PatchOne(ctx, s, v, del).st)
  {
    hide Sum, CalculateRewards, IncrementPeriod, Restart, RemoveDelegation;
    if del.shares > 0 && IncrementPeriod(s.ledgers[v], s.pool, s.validators[v].tokens).Ok? {
      hide Surplus, Supply;
      var (m, pool') := IncrementPeriod(s.ledgers[v], s.pool, s.validators[v].tokens).value;
      var s1 := s.(ledgers := s.ledgers[v := m], pool := pool');
      IncrementConserves(s, v, s.validators[v].tokens);
      RestartConserves(ctx, s1, v, del, s.ledgers[v].current.period);
      ConservesTransitive(s, s1, Restart(ctx, s1, v, del, s.ledgers[v].current.period).st);
    }
  }

  // ---------------------------------------------------------------- whole runs

  lemma {:induction false} PatchDelegationsConserves(ctx: Context, s: State, v: Addr, ds: seq<Delegation>, n: nat)
    requires v in s.ledgers && v in s.validators
    ensures Conserves(s, PatchDelegations(ctx, s, v, ds, n).st)
    decreases |ds|
  {
    hide Surplus, Supply, PatchOne;
    if ds != [] {
      var one := PatchOne(ctx, s, v, ds[0]);
      PatchOneConserves(ctx, s, v, ds[0]);
      if one.out.Ok? {
        var n' := if one.out.value then n + 1 else n;
        PatchDelegationsConserves(ctx, one.st, v, ds[1..], n');
        ConservesTransitive(s, one.st, PatchDelegations(ctx, one.st, v, ds[1..], n').st);
      }
    }
  }

  /** Over every run, whether it returns success or an error, the module's surplus over outstanding
      rewards and pool, and the total supply, are unchanged in every denomination. */
  lemma {:induction false} RunConserves(ctx: Context, s: State, vs: seq<Addr>, n: nat)
    requires forall v :: v in vs ==> v in s.ledgers && v in s.validators
    ensures Conserves(s, PatchValidators(ctx, s, vs, n).st)
    decreases |vs|
  {
    hide Surplus, Supply, PatchDelegations;
    if vs != [] {
      var ds := DelegationsOf(s, vs[0]);
      PatchDelegationsConserves(ctx, s, vs[0], ds, n);
      var r := PatchDelegations(ctx, s, vs[0], ds, n);
      if r.out.Ok? {
        RunConserves(ctx, r.st, vs[1..], r.out.value);
        ConservesTransitive(s, r.st, PatchValidators(ctx, r.st, vs[1..], r.out.value).st);
      }
    }
  }

  // ---------------------------------------------------------------- solvency

  ghost predicate Solvent(s: State) {
    forall d :: 0 <= Surplus(s, d)
  }

  /** A solvent module can pay any reward that is outstanding, so a payment is refused exactly when there
      is something to pay and the payee is blocked. */
  lemma {:induction false} SolventPays(ctx: Context, s: State, v: Addr, addr: Addr, rewards: Coins)
    requires Solvent(s) && v in s.ledgers && Covers(s.ledgers[v].outstanding, rewards)
    ensures var to := if addr in ctx.withdrawTo then ctx.withdrawTo[addr] else addr;
            Send(ctx, s, addr, Whole(rewards)).Err? <==> to in ctx.blocked && Whole(rewards) != map[]
  {
    var w := Whole(rewards);
    forall d | d in w ensures d in s.moduleBalance && w[d] <= s.moduleBalance[d] {
      assert 0 <= Surplus(s, d);
      var m := OutstandingIn(s.ledgers, d);
      assert Amt(rewards, d) <= Amt(s.ledgers[v].outstanding, d) == m[v];
      SumNonneg(m, v);
      assert Amt(w, d) * ONE <= Amt(s.moduleBalance, d) * ONE;
    }
  }

  /** Nobody with a delegation is paid through a blocked account. */
  ghost predicate NoneBlocked(ctx: Context, ds: seq<Delegation>) {
    forall i :: 0 <= i < |ds| ==> Payee(ctx, ds[i].addr) !in ctx.blocked
  }

  lemma {:induction false} RestartPays(ctx: Context, s: State, v: Addr, i: nat, ending: nat)
    requires GoodValidator(s, v) && i < |DelegationsOf(s, v)| && DelegationsOf(s, v)[i].shares > 0
    requires JustEnded(s.ledgers[v]) && s.ledgers[v].current.rewards == map[]
    requires ending == s.ledgers[v].current.period - 1
    requires var res := CalculateRewards(s.ledgers[v], s.validators[v], DelegationsOf(s, v)[i], ctx.height, ending);
             res.Ok? && res.value.1
    requires Solvent(s) && Payee(ctx, DelegationsOf(s, v)[i].addr) !in ctx.blocked
    ensures Restart(ctx, s, v, DelegationsOf(s, v)[i], ending).out.Ok?
  {
    hide GoodLedger, CalculateRewards, Restart, Intersect, Covers, Solvent, Whole, Send;
    var del := DelegationsOf(s, v)[i];
    RestartGood(ctx, s, v, i, ending);
    var rewards := CalculateRewards(s.ledgers[v], s.validators[v], del, ctx.height, ending).value.0;
    SolventPays(ctx, s, v, del.addr, Intersect(rewards, s.ledgers[v].outstanding));
  }

  lemma {:induction false} SolventAfter(s: State, t: State)
    requires Solvent(s) && Conserves(s, t)
    ensures Solvent(t)
  {
    hide Surplus, Supply;
    forall d ensures 0 <= Surplus(t, d) {
      assert Surplus(t, d) == Surplus(s, d);
    }
  }

  lemma {:induction false} PatchOnePays(ctx: Context, s: State, v: Addr, i: nat)
    requires GoodValidator(s, v) && i < |DelegationsOf(s, v)| && Solvent(s)
    requires Payee(ctx, DelegationsOf(s, v)[i].addr) !in ctx.blocked
    ensures !PatchOne(ctx, s, v, DelegationsOf(s, v)[i]).out.Err?
  {
    hide GoodLedger, CalculateRewards, IncrementPeriod, Restart, RemoveDelegation, Ended, Solvent, Conserves, Payee;
    var del := DelegationsOf(s, v)[i];
    var val := s.validators[v];
    if del.shares > 0 {
      IncrementPeriodGood(s.ledgers[v], s.pool, val.tokens);
      var (m, pool') := IncrementPeriod(s.ledgers[v], s.pool, val.tokens).value;
      EndedFacts(s.ledgers[v], m);
      IncrementConserves(s, v, val.tokens);
      var s1 := s.(ledgers := s.ledgers[v := m], pool := pool');
      SolventAfter(s, s1);
      CalculateReturns(m, val, del, ctx.height);
      if CalculateRewards(m, val, del, ctx.height, m.current.period - 1).Ok?
         && CalculateRewards(m, val, del, ctx.height, m.current.period - 1).value.1 {
        RestartPays(ctx, s1, v, i, m.current.period - 1);
      }
    }
  }

  lemma {:induction false} PatchDelegationsPay(ctx: Context, s: State, v: Addr, ds: seq<Delegation>, n: nat)
    requires GoodValidator(s, v) && Pending(s, v, ds) && Solvent(s) && NoneBlocked(ctx, ds)
    ensures !PatchDelegations(ctx, s, v, ds, n).out.Err?
    decreases |ds|
  {
    hide GoodLedger, DistinctAddrs, Linked, PatchOne, Solvent, Conserves, Payee;
    if ds != [] {
      assert ds[0] in ds;
      var all := DelegationsOf(s, v);
      var i :| 0 <= i < |all| && all[i] == ds[0];
      PatchOnePays(ctx, s, v, i);
      PendingAfterOne(ctx, s, v, ds);
      PatchOneConserves(ctx, s, v, ds[0]);
      var r := PatchOne(ctx, s, v, ds[0]);
      if r.out.Ok? {
        SolventAfter(s, r.st);
        assert forall j :: 0 <= j < |ds[1..]| ==> ds[1..][j] == ds[j + 1];
        PatchDelegationsPay(ctx, r.st, v, ds[1..], if r.out.value then n + 1 else n);
      }
    }
  }

  ghost predicate Unblocked(ctx: Context, s: State, vs: seq<Addr>) {
    forall v :: v in vs ==> NoneBlocked(ctx, DelegationsOf(s, v))
  }

  lemma {:induction false} UnblockedTail(ctx: Context, s: State, t: State, vs: seq<Addr>)
    requires vs != [] && DistinctVals(vs) && Unblocked(ctx, s, vs) && OnlyTouches(s, t, vs[0])
    ensures NoneBlocked(ctx, DelegationsOf(s, vs[0])) && Unblocked(ctx, t, vs[1..])
  {
    hide NoneBlocked;
    TailOf(vs);
  }

  /** From a good and solvent state without blocked payees, a run never returns an error: it
      succeeds, or panics on the margin. */
  lemma {:induction false} RunPays(ctx: Context, s: State, vs: seq<Addr>, n: nat)
    requires GoodState(s) && Solvent(s) && Known(s, vs) && DistinctVals(vs) && Unblocked(ctx, s, vs)
    ensures var r := PatchValidators(ctx, s, vs, n);
            r.out.Ok? || r.out == Panic(MarginExceeded)
    decreases |vs|
  {
    hide *;
    RunGood(ctx, s, vs, n);
    if vs == [] {
      RunNone(ctx, s, n);
    } else {
      TailOf(vs);
      var v := vs[0];
      RunStep(ctx, s, vs, n);
      var ds := DelegationsOf(s, v);
      var r := PatchDelegations(ctx, s, v, ds, n);
      FirstValidator(s, vs);
      UnblockedTail(ctx, s, r.st, vs);
      PatchDelegationsPay(ctx, s, v, ds, n);
      PatchDelegationsGood(ctx, s, v, ds, n);
      if r.out.Ok? {
        GoodElsewhere(s, r.st, v);
        PatchDelegationsConserves(ctx, s, v, ds, n);
        SolventAfter(s, r.st);
        RunPays(ctx, r.st, vs[1..], r.out.value);
      }
    }
  }
}
