/** Safety of every run of the patch (app/upgrades/v520/patch.go): the ledger invariant survives each
    iteration of the delegation loop, and only one panic and one error are reachable. */
module PatchRuns {
  import opened Dec
  import opened CoinSets
  import opened Distribution
  import opened RefCounts
  import opened Rewards

  ghost predicate DistinctAddrs(ds: seq<Delegation>) {
    forall i, j :: 0 <= i < j < |ds| ==> ds[i].addr != ds[j].addr
  }

  /** Every delegation that still has shares has a starting info and a validator with shares. */
  ghost predicate Linked(l: Ledger, val: Validator, ds: seq<Delegation>) {
    forall i :: 0 <= i < |ds| && ds[i].shares > 0 ==> ds[i].addr in l.infos && val.shares > 0
  }

  ghost predicate GoodValidator(s: State, v: Addr) {
    && v in s.validators && v in s.ledgers
    && GoodLedger(s.ledgers[v])
    && DistinctAddrs(DelegationsOf(s, v))
    && Linked(s.ledgers[v], s.validators[v], DelegationsOf(s, v))
  }

  ghost predicate GoodState(s: State) {
    forall v :: v in s.validators ==> GoodValidator(s, v)
  }

  // ---------------------------------------------------------------- the delegation store

  lemma {:induction false} FindSharesOf(ds: seq<Delegation>, i: nat)
    requires i < |ds| && DistinctAddrs(ds)
    ensures FindShares(ds, ds[i].addr) == Ok(ds[i].shares)
  {
    if i > 0 {
      assert ds[0].addr != ds[i].addr;
      assert ds[1..][i - 1] == ds[i];
      FindSharesOf(ds[1..], i - 1);
    }
  }

  /** Removing a delegation keeps exactly the others, in order. */
  lemma {:induction false} RemoveDelegationKeeps(ds: seq<Delegation>, addr: Addr)
    requires DistinctAddrs(ds)
    ensures DistinctAddrs(RemoveDelegation(ds, addr))
    ensures forall x :: x in RemoveDelegation(ds, addr) <==> x in ds && x.addr != addr
  {
    if ds != [] {
      var (x, rest) := (ds[0], ds[1..]);
      assert ds == [x] + rest;
      DistinctTail(ds);
      if x.addr != addr {
        RemoveDelegationKeeps(rest, addr);
        DistinctCons(x, RemoveDelegation(rest, addr));
      }
    }
  }

  lemma {:induction false} DistinctTail(ds: seq<Delegation>)
    requires ds != [] && DistinctAddrs(ds)
    ensures DistinctAddrs(ds[1..]) && forall y :: y in ds[1..] ==> y.addr != ds[0].addr
  {
  }

  lemma {:induction false} DistinctCons(x: Delegation, ds: seq<Delegation>)
    requires DistinctAddrs(ds) && forall y :: y in ds ==> y.addr != x.addr
    ensures DistinctAddrs([x] + ds)
  {
  }

  // ---------------------------------------------------------------- one iteration

  /** Outstanding rewards may change freely once the current rewards are distributed. */
  lemma {:induction false} OutstandingChange(l: Ledger, out: Coins)
    requires GoodLedger(l) && l.current.rewards == map[]
    ensures GoodLedger(l.(outstanding := out))
  {
    var m := l.(outstanding := out);
    assert forall p: nat :: GetHist(m, p) == GetHist(l, p) && References(m, p) == References(l, p);
  }

  /** The ledger a settlement leaves behind. */
  ghost predicate Left(l: Ledger, m: Ledger, addr: Addr) {
    && GoodLedger(m)
    && m.infos == l.infos - {addr} && m.current == l.current && m.slashes == l.slashes
  }

  /** A settlement from a good ledger can only fail in the bank, and keeps the ledger good. */
  lemma {:induction false} SettleGood(ctx: Context, s: State, v: Addr, addr: Addr, rewards: Coins)
    requires v in s.ledgers && GoodLedger(s.ledgers[v]) && addr in s.ledgers[v].infos
    requires Covers(s.ledgers[v].outstanding, rewards) && s.ledgers[v].current.rewards == map[]
    ensures var r := Settle(ctx, s, v, addr, rewards);
            && (r.out.Ok? || r == Step(s, Err(SendFailed)))
            && (r.out.Err? <==> Send(ctx, s, addr, Whole(rewards)).Err?)
            && (r.out.Ok? ==> Left(s.ledgers[v], r.st.ledgers[v], addr))
  {
    hide GoodLedger, Whole, Plus, Fraction, Covers, Minus;
    var l := s.ledgers[v];
    var l0 := l.(outstanding := Minus(l.outstanding, rewards));
    OutstandingChange(l, Minus(l.outstanding, rewards));
    LeaveGood(l0, addr);
  }

  /** Restarting a delegation from a ledger whose period was just ended cannot fail. */
  lemma {:induction false} InitializeGood(ctx: Context, s: State, v: Addr, addr: Addr, shares: Dec)
    requires v in s.ledgers && v in s.validators && 0 < s.validators[v].shares && 0 <= shares
    requires GoodLedger(s.ledgers[v]) && JustEnded(s.ledgers[v]) && addr !in s.ledgers[v].infos
    requires FindShares(DelegationsOf(s, v), addr) == Ok(shares)
    ensures var r := Initialize(ctx, s, v, addr);
            var l := s.ledgers[v];
            var info := StartingInfo(l.current.period - 1,
                                     TokensFromSharesTruncated(s.validators[v], shares), ctx.height);
            && r.out.Ok? && GoodLedger(r.st.ledgers[v])
            && r.st.ledgers[v].infos == l.infos[addr := info]
            && r.st.ledgers[v].slashes == l.slashes
  {
    hide GoodLedger, TokensFromSharesTruncated, References;
    TokensNonneg(s.validators[v], shares);
    JoinGood(s.ledgers[v], addr, TokensFromSharesTruncated(s.validators[v], shares), ctx.height);
  }

  /** The second half of an iteration, for a delegation that is to be patched. */
  lemma {:induction false} RestartGood(ctx: Context, s: State, v: Addr, i: nat, ending: nat)
    requires GoodValidator(s, v) && i < |DelegationsOf(s, v)| && DelegationsOf(s, v)[i].shares > 0
    requires JustEnded(s.ledgers[v]) && s.ledgers[v].current.rewards == map[]
    requires ending == s.ledgers[v].current.period - 1
    requires var res := CalculateRewards(s.ledgers[v], s.validators[v], DelegationsOf(s, v)[i], ctx.height, ending);
             res.Ok? && res.value.1
    ensures var del := DelegationsOf(s, v)[i];
            var r := Restart(ctx, s, v, del, ending);
            var rewards := CalculateRewards(s.ledgers[v], s.validators[v], del, ctx.height, ending).value.0;
            && (r.out == Ok(true) || r == Step(s, Err(SendFailed)))
            && (r.out.Err? ==>
                  Send(ctx, s, del.addr, Whole(Intersect(rewards, s.ledgers[v].outstanding))).Err?)
            && (r.out.Ok? ==>
                  && GoodValidator(r.st, v)
                  && r.st.ledgers[v].slashes == s.ledgers[v].slashes
                  && r.st.ledgers[v].infos == s.ledgers[v].infos[del.addr :=
                       StartingInfo(ending, TokensFromSharesTruncated(s.validators[v], del.shares), ctx.height)])
  {
    hide GoodLedger, CalculateRewards, Settle, Initialize, TokensFromSharesTruncated, Intersect, Covers, FindShares;
    var del := DelegationsOf(s, v)[i];
    var rewards := CalculateRewards(s.ledgers[v], s.validators[v], del, ctx.height, ending).value.0;
    var paid := Intersect(rewards, s.ledgers[v].outstanding);
    SettleGood(ctx, s, v, del.addr, paid);
    var w := Settle(ctx, s, v, del.addr, paid);
    if w.out.Ok? {
      FindSharesOf(DelegationsOf(s, v), i);
      InitializeGood(ctx, w.st, v, del.addr, del.shares);
    }
  }

  /** An iteration can only succeed, fail in the bank, or panic on the margin; unless it panics, the
      invariant of the validator survives. */
  lemma {:induction false} PatchOneGood(ctx: Context, s: State, v: Addr, i: nat)
    requires GoodValidator(s, v) && i < |DelegationsOf(s, v)|
    ensures var del := DelegationsOf(s, v)[i];
            var r := PatchOne(ctx, s, v, del);
            && (r.out.Ok? || r.out == Err(SendFailed) || r.out == Panic(MarginExceeded))
            && (!r.out.Panic? ==> GoodValidator(r.st, v))
            && DelegationsOf(r.st, v)
               == if del.shares <= 0 then RemoveDelegation(DelegationsOf(s, v), del.addr) else DelegationsOf(s, v)
  {
    hide GoodLedger, CalculateRewards, IncrementPeriod, Restart, RemoveDelegation, Ended;
    var del := DelegationsOf(s, v)[i];
    var val := s.validators[v];
    if del.shares <= 0 {
      RemoveDelegationKeeps(DelegationsOf(s, v), del.addr);
      var kept := RemoveDelegation(DelegationsOf(s, v), del.addr);
      assert forall j :: 0 <= j < |kept| ==> kept[j] in kept && kept[j] in DelegationsOf(s, v);
    } else {
      IncrementPeriodGood(s.ledgers[v], s.pool, val.tokens);
      var (m, pool') := IncrementPeriod(s.ledgers[v], s.pool, val.tokens).value;
      EndedFacts(s.ledgers[v], m);
      var s1 := s.(ledgers := s.ledgers[v := m], pool := pool');
      CalculateReturns(m, val, del, ctx.height);
      if CalculateRewards(m, val, del, ctx.height, m.current.period - 1).Ok?
         && CalculateRewards(m, val, del, ctx.height, m.current.period - 1).value.1 {
        RestartGood(ctx, s1, v, i, m.current.period - 1);
      }
    }
  }

  lemma {:induction false} CalculateReturns(l: Ledger, val: Validator, del: Delegation, height: nat)
    requires GoodLedger(l) && del.addr in l.infos && 0 < val.shares && 0 <= del.shares
    ensures var res := CalculateRewards(l, val, del, height, l.current.period - 1);
            res.Ok? || res == Panic(MarginExceeded)
  {
    hide GoodLedger, SlashedStake;
    if l.infos[del.addr].height != height {
      CalculateOutcome(l, val, del, height);
    }
  }

  // ---------------------------------------------------------------- whole runs

  /** The delegations still to be visited are in the store, under distinct addresses. */
  ghost predicate Pending(s: State, v: Addr, ds: seq<Delegation>) {
    DistinctAddrs(ds) && forall x :: x in ds ==> x in DelegationsOf(s, v)
  }

  lemma {:induction false} PendingAfterOne(ctx: Context, s: State, v: Addr, ds: seq<Delegation>)
    requires GoodValidator(s, v) && ds != [] && Pending(s, v, ds)
    ensures var r := PatchOne(ctx, s, v, ds[0]);
            && (r.out.Ok? || r.out == Err(SendFailed) || r.out == Panic(MarginExceeded))
            && (!r.out.Panic? ==> GoodValidator(r.st, v))
            && Pending(r.st, v, ds[1..])
  {
    hide GoodLedger, PatchOne, RemoveDelegation;
    var all := DelegationsOf(s, v);
    assert ds[0] in ds;
    var i :| 0 <= i < |all| && all[i] == ds[0];
    PatchOneGood(ctx, s, v, i);
    RemoveDelegationKeeps(all, ds[0].addr);
    DistinctTail(ds);
    assert forall x :: x in ds[1..] ==> x in ds;
  }

  /** The invariant over the delegation loop of one validator, for every run. */
  lemma {:induction false} PatchDelegationsGood(ctx: Context, s: State, v: Addr, ds: seq<Delegation>, n: nat)
    requires GoodValidator(s, v) && Pending(s, v, ds)
    ensures var r := PatchDelegations(ctx, s, v, ds, n);
            && (r.out.Ok? || r.out == Err(SendFailed) || r.out == Panic(MarginExceeded))
            && (!r.out.Panic? ==> GoodValidator(r.st, v))
    decreases |ds|
  {
    hide GoodLedger, DistinctAddrs, Linked, Pending, PatchOne;
    if ds != [] {
      PendingAfterOne(ctx, s, v, ds);
      var r := PatchOne(ctx, s, v, ds[0]);
      if r.out.Ok? {
        PatchDelegationsGood(ctx, r.st, v, ds[1..], if r.out.value then n + 1 else n);
      }
    }
  }

  ghost predicate DistinctVals(vs: seq<Addr>) {
    forall i, j :: 0 <= i < j < |vs| ==> vs[i] != vs[j]
  }

  lemma {:induction false} TailOf(vs: seq<Addr>)
    requires vs != [] && DistinctVals(vs)
    ensures DistinctVals(vs[1..]) && vs[0] !in vs[1..]
    ensures forall u :: u in vs <==> u == vs[0] || u in vs[1..]
  {
    assert vs == [vs[0]] + vs[1..];
  }

  lemma {:induction false} FirstValidator(s: State, vs: seq<Addr>)
    requires GoodState(s) && Known(s, vs) && vs != []
    ensures GoodValidator(s, vs[0]) && Pending(s, vs[0], DelegationsOf(s, vs[0]))
  {
    hide GoodLedger, Linked;
    assert vs[0] in vs;
  }

  lemma {:induction false} GoodElsewhere(s: State, t: State, v: Addr)
    requires GoodState(s) && OnlyTouches(s, t, v) && GoodValidator(t, v)
    ensures GoodState(t)
  {
    hide GoodLedger, DistinctAddrs, Linked;
    forall u | u in t.validators ensures GoodValidator(t, u) {
      assert GoodValidator(s, u);
    }
  }

  /** Safety of every run: it returns success or a bank error in a good state, or panics because a
      computed stake exceeds the margin.  No other panic is reachable. */
  lemma {:induction false} RunGood(ctx: Context, s: State, vs: seq<Addr>, n: nat)
    requires GoodState(s) && Known(s, vs)
    ensures var r := PatchValidators(ctx, s, vs, n);
            && (r.out.Ok? || r.out == Err(SendFailed) || r.out == Panic(MarginExceeded))
            && (!r.out.Panic? ==> GoodState(r.st))
    decreases |vs|
  {
    if vs != [] {
      hide GoodState, GoodValidator, Pending, PatchDelegations, PatchValidators, Known;
      var v := vs[0];
      RunStep(ctx, s, vs, n);
      FirstValidator(s, vs);
      PatchDelegationsGood(ctx, s, v, DelegationsOf(s, v), n);
      var r := PatchDelegations(ctx, s, v, DelegationsOf(s, v), n);
      if !r.out.Panic? {
        GoodElsewhere(s, r.st, v);
      }
      if r.out.Ok? {
        RunGood(ctx, r.st, vs[1..], r.out.value);
      }
    }
  }
}
