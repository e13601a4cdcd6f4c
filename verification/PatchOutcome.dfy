/** The result of a run of the patch (app/upgrades/v520/patch.go), read off the state it starts from:
    when it panics, and how many delegations it patches. */
module PatchOutcome {
  import opened Dec
  import opened CoinSets
  import opened Distribution
  import opened RefCounts
  import opened PatchRuns
  import opened PatchConservation
  import opened PatchIdempotence
  import opened MapSums
  import opened RewardAmounts
  import opened PatchPayments

  /** A delegation with shares whose slashed stake, started at another height, is above a bound. */
  predicate StakeAbove(s: State, v: Addr, del: Delegation, height: nat, margin: bool)
    requires v in s.ledgers && v in s.validators
  {
    && del.shares > 0 && s.validators[v].shares > 0 && del.addr in s.ledgers[v].infos
    && var info := s.ledgers[v].infos[del.addr];
       var now := TokensFromShares(s.validators[v], del.shares);
       && info.height != height
       && StakeNow(s.ledgers[v].slashes, info, height) > if margin then now + Mul(now, MARGIN) else now
  }

  /** Its stake exceeds the current one: it is to be patched. */
  predicate Exceeds(s: State, v: Addr, del: Delegation, height: nat)
    requires v in s.ledgers && v in s.validators
  {
    StakeAbove(s, v, del, height, false)
  }

  /** It exceeds it by more than the margin: the patch panics. */
  predicate ExceedsMargin(s: State, v: Addr, del: Delegation, height: nat)
    requires v in s.ledgers && v in s.validators
  {
    StakeAbove(s, v, del, height, true)
  }

  function Excesses(s: State, v: Addr, ds: seq<Delegation>, height: nat): nat
    requires v in s.ledgers && v in s.validators
  {
    if ds == [] then 0 else (if Exceeds(s, v, ds[0], height) then 1 else 0) + Excesses(s, v, ds[1..], height)
  }

  predicate AnyBeyond(s: State, v: Addr, ds: seq<Delegation>, height: nat)
    requires v in s.ledgers && v in s.validators
  {
    exists i :: 0 <= i < |ds| && ExceedsMargin(s, v, ds[i], height)
  }

  // ---------------------------------------------------------------- one delegation

  lemma {:induction false} PatchOneExact(ctx: Context, s: State, v: Addr, i: nat)
    requires GoodValidator(s, v) && i < |DelegationsOf(s, v)| && Solvent(s)
    requires Payee(ctx, DelegationsOf(s, v)[i].addr) !in ctx.blocked
    ensures var del := DelegationsOf(s, v)[i];
            PatchOne(ctx, s, v, del).out
            == if ExceedsMargin(s, v, del, ctx.height) then Panic(MarginExceeded)
               else Ok(Exceeds(s, v, del, ctx.height))
  {
    hide GoodLedger, CalculateRewards, IncrementPeriod, Restart, RemoveDelegation, Ended, Solvent, Payee;
    hide StakeNow, TokensFromShares, Mul;
    var del := DelegationsOf(s, v)[i];
    var val := s.validators[v];
    PatchOnePays(ctx, s, v, i);
    if del.shares > 0 {
      IncrementPeriodGood(s.ledgers[v], s.pool, val.tokens);
      var (m, pool') := IncrementPeriod(s.ledgers[v], s.pool, val.tokens).value;
      EndedFacts(s.ledgers[v], m);
      CalculateExact(m, val, del, ctx.height);
      var res := CalculateRewards(m, val, del, ctx.height, m.current.period - 1);
      if res.Ok? && res.value.1 {
        RestartGood(ctx, s.(ledgers := s.ledgers[v := m], pool := pool'), v, i, m.current.period - 1);
      }
    }
  }

  /** Patching one delegation does not change what is due to another. */
  lemma {:induction false} OthersKept(s: State, t: State, v: Addr, x: Delegation, addr: Addr, height: nat)
    requires v in s.ledgers && v in s.validators && OnlyTouches(s, t, v)
    requires InfosKept(s.ledgers[v], t.ledgers[v], addr) && x.addr != addr
    ensures Exceeds(t, v, x, height) == Exceeds(s, v, x, height)
    ensures ExceedsMargin(t, v, x, height) == ExceedsMargin(s, v, x, height)
  {
    hide StakeNow, TokensFromShares, Mul;
  }

  // ---------------------------------------------------------------- the delegations of a validator

  lemma {:induction false} SameExcesses(s: State, t: State, v: Addr, ds: seq<Delegation>, height: nat)
    requires v in s.ledgers && v in s.validators && v in t.ledgers && v in t.validators
    requires forall x :: x in ds ==> Exceeds(t, v, x, height) == Exceeds(s, v, x, height)
    ensures Excesses(t, v, ds, height) == Excesses(s, v, ds, height)
  {
    hide Exceeds;
    if ds != [] {
      assert ds[0] in ds;
      assert forall x :: x in ds[1..] ==> x in ds;
      SameExcesses(s, t, v, ds[1..], height);
    }
  }

  lemma {:induction false} AfterOne(ctx: Context, s: State, v: Addr, ds: seq<Delegation>)
    requires GoodValidator(s, v) && ds != [] && Pending(s, v, ds) && PatchOne(ctx, s, v, ds[0]).out.Ok?
    ensures var t := PatchOne(ctx, s, v, ds[0]).st;
            && Excesses(t, v, ds[1..], ctx.height) == Excesses(s, v, ds[1..], ctx.height)
            && AnyBeyond(t, v, ds[1..], ctx.height) == AnyBeyond(s, v, ds[1..], ctx.height)
  {
    var all := DelegationsOf(s, v);
    assert ds[0] in ds;
    var i :| 0 <= i < |all| && all[i] == ds[0];
    DistinctTail(ds);
    hide GoodLedger, PatchOne, Exceeds, ExceedsMargin, InfosKept, DistinctAddrs, Linked;
    PatchOneCalms(ctx, s, v, i);
    var t := PatchOne(ctx, s, v, ds[0]).st;
    forall x | x in ds[1..]
      ensures Exceeds(t, v, x, ctx.height) == Exceeds(s, v, x, ctx.height)
      ensures ExceedsMargin(t, v, x, ctx.height) == ExceedsMargin(s, v, x, ctx.height)
    {
      OthersKept(s, t, v, x, ds[0].addr, ctx.height);
    }
    SameExcesses(s, t, v, ds[1..], ctx.height);
    assert forall j :: 0 <= j < |ds[1..]| ==> ds[1..][j] in ds[1..];
  }

  lemma {:induction false} TailDecides(s: State, v: Addr, ds: seq<Delegation>, height: nat)
    requires v in s.ledgers && v in s.validators && ds != []
    ensures AnyBeyond(s, v, ds, height) <==> ExceedsMargin(s, v, ds[0], height) || AnyBeyond(s, v, ds[1..], height)
    ensures Excesses(s, v, ds, height)
         == (if Exceeds(s, v, ds[0], height) then 1 else 0) + Excesses(s, v, ds[1..], height)
  {
    hide Exceeds, ExceedsMargin;
    if i :| 0 <= i < |ds| && ExceedsMargin(s, v, ds[i], height) {
      if i > 0 { assert ds[1..][i - 1] == ds[i]; }
    }
    if i :| 0 <= i < |ds[1..]| && ExceedsMargin(s, v, ds[1..][i], height) {
      assert ds[i + 1] == ds[1..][i];
    }
  }

  lemma {:induction false} DelegationsExact(ctx: Context, s: State, v: Addr, ds: seq<Delegation>, n: nat)
    requires GoodValidator(s, v) && Pending(s, v, ds) && Solvent(s) && NoneBlocked(ctx, ds)
    ensures PatchDelegations(ctx, s, v, ds, n).out
         == if AnyBeyond(s, v, ds, ctx.height) then Panic(MarginExceeded)
            else Ok(n + Excesses(s, v, ds, ctx.height))
    decreases |ds|
  {
    hide GoodValidator, Pending, PatchOne, PatchDelegations, Solvent, NoneBlocked, Exceeds, ExceedsMargin;
    hide AnyBeyond, Excesses, Conserves, OnlyTouches;
    KnownValidator(s, v);
    if ds == [] {
      LoopNone(ctx, s, v, n);
      NoDelegations(s, v, ctx.height);
    } else {
      OneDelegation(ctx, s, v, ds);
      PendingAfterOne(ctx, s, v, ds);
      TailDecides(s, v, ds, ctx.height);
      LoopStep(ctx, s, v, ds, n);
      PatchOneConserves(ctx, s, v, ds[0]);
      var r := PatchOne(ctx, s, v, ds[0]);
      if r.out.Ok? {
        AfterOne(ctx, s, v, ds);
        SolventAfter(s, r.st);
        NoneBlockedTail(ctx, ds);
        DelegationsExact(ctx, r.st, v, ds[1..], if r.out.value then n + 1 else n);
      }
    }
  }

  lemma {:induction false} KnownValidator(s: State, v: Addr)
    requires GoodValidator(s, v)
    ensures v in s.ledgers && v in s.validators
  {
  }

  lemma {:induction false} NoDelegations(s: State, v: Addr, height: nat)
    requires v in s.ledgers && v in s.validators
    ensures Excesses(s, v, [], height) == 0 && !AnyBeyond(s, v, [], height)
  {
  }

  lemma {:induction false} NoneBlockedTail(ctx: Context, ds: seq<Delegation>)
    requires ds != [] && NoneBlocked(ctx, ds)
    ensures NoneBlocked(ctx, ds[1..])
  {
    hide Payee;
    assert forall j :: 0 <= j < |ds[1..]| ==> ds[1..][j] == ds[j + 1];
  }

  lemma {:induction false} OneDelegation(ctx: Context, s: State, v: Addr, ds: seq<Delegation>)
    requires GoodValidator(s, v) && Pending(s, v, ds) && Solvent(s) && NoneBlocked(ctx, ds) && ds != []
    ensures PatchOne(ctx, s, v, ds[0]).out
         == if ExceedsMargin(s, v, ds[0], ctx.height) then Panic(MarginExceeded)
            else Ok(Exceeds(s, v, ds[0], ctx.height))
  {
    hide GoodLedger, DistinctAddrs, Linked, PatchOne, Solvent, Payee, Exceeds, ExceedsMargin;
    assert ds[0] in ds;
    var all := DelegationsOf(s, v);
    var i :| 0 <= i < |all| && all[i] == ds[0];
    PatchOneExact(ctx, s, v, i);
  }

  // ---------------------------------------------------------------- the whole run

  /** Delegations to be patched, over all the validators visited. */
  ghost function AllExcesses(s: State, vs: seq<Addr>, height: nat): nat
    requires Known(s, vs)
  {
    if vs == [] then 0
    else
      assert vs[0] in vs && forall u :: u in vs[1..] ==> u in vs;
      Excesses(s, vs[0], DelegationsOf(s, vs[0]), height) + AllExcesses(s, vs[1..], height)
  }

  /** Some delegation of some visited validator is beyond the margin. */
  ghost predicate SomeBeyond(s: State, vs: seq<Addr>, height: nat)
    requires Known(s, vs)
  {
    exists v :: v in vs && AnyBeyond(s, v, DelegationsOf(s, v), height)
  }

  lemma {:induction false} UntouchedSame(s: State, t: State, v: Addr, u: Addr, height: nat)
    requires u in s.ledgers && u in s.validators && OnlyTouches(s, t, v) && u != v
    ensures Excesses(t, u, DelegationsOf(t, u), height) == Excesses(s, u, DelegationsOf(s, u), height)
    ensures AnyBeyond(t, u, DelegationsOf(t, u), height) == AnyBeyond(s, u, DelegationsOf(s, u), height)
  {
    hide StakeNow, TokensFromShares, Mul;
    SameExcesses(s, t, u, DelegationsOf(s, u), height);
  }

  lemma {:induction false} UntouchedRest(s: State, t: State, v: Addr, vs: seq<Addr>, height: nat)
    requires Known(s, vs) && Known(t, vs) && OnlyTouches(s, t, v) && v !in vs
    ensures AllExcesses(t, vs, height) == AllExcesses(s, vs, height)
    ensures SomeBeyond(t, vs, height) == SomeBeyond(s, vs, height)
    decreases |vs|
  {
    hide Excesses, AnyBeyond, OnlyTouches;
    forall u | u in vs
      ensures AnyBeyond(t, u, DelegationsOf(t, u), height) == AnyBeyond(s, u, DelegationsOf(s, u), height)
    {
      UntouchedSame(s, t, v, u, height);
    }
    if vs != [] {
      assert vs[0] in vs && forall u :: u in vs[1..] ==> u in vs;
      UntouchedSame(s, t, v, vs[0], height);
      UntouchedRest(s, t, v, vs[1..], height);
    }
  }

  lemma {:induction false} Unfolded(s: State, vs: seq<Addr>, height: nat)
    requires Known(s, vs) && vs != []
    ensures vs[0] in s.ledgers && vs[0] in s.validators && Known(s, vs[1..])
    ensures AllExcesses(s, vs, height)
         == Excesses(s, vs[0], DelegationsOf(s, vs[0]), height) + AllExcesses(s, vs[1..], height)
    ensures SomeBeyond(s, vs, height)
       <==> AnyBeyond(s, vs[0], DelegationsOf(s, vs[0]), height) || SomeBeyond(s, vs[1..], height)
  {
    hide Excesses, AnyBeyond;
    assert vs[0] in vs && forall u :: u in vs <==> u == vs[0] || u in vs[1..];
  }

  /** From a good and solvent state without blocked payees the result of the run is determined by the
      state: it panics exactly when a visited delegation is beyond the margin, and otherwise succeeds
      with the number of delegations whose stake exceeds the current one. */
  lemma {:induction false} RunExactly(ctx: Context, s: State, vs: seq<Addr>, n: nat)
    requires GoodState(s) && Solvent(s) && Known(s, vs) && DistinctVals(vs) && Unblocked(ctx, s, vs)
    ensures PatchValidators(ctx, s, vs, n).out
         == if SomeBeyond(s, vs, ctx.height) then Panic(MarginExceeded) else Ok(n + AllExcesses(s, vs, ctx.height))
    decreases |vs|
  {
    hide *;
    if vs == [] {
      RunNone(ctx, s, n);
      NothingToDo(s, ctx.height);
    } else {
      TailOf(vs);
      Unfolded(s, vs, ctx.height);
      var v := vs[0];
      RunStep(ctx, s, vs, n);
      var ds := DelegationsOf(s, v);
      var r := PatchDelegations(ctx, s, v, ds, n);
      FirstValidator(s, vs);
      UnblockedTail(ctx, s, r.st, vs);
      DelegationsExact(ctx, s, v, ds, n);
      PatchDelegationsGood(ctx, s, v, ds, n);
      if r.out.Ok? {
        GoodElsewhere(s, r.st, v);
        PatchDelegationsConserves(ctx, s, v, ds, n);
        SolventAfter(s, r.st);
        UntouchedRest(s, r.st, v, vs[1..], ctx.height);
        RunExactly(ctx, r.st, vs[1..], r.out.value);
      }
    }
  }

  lemma {:induction false} NothingToDo(s: State, height: nat)
    ensures AllExcesses(s, [], height) == 0 && !SomeBeyond(s, [], height)
  {
  }

  /** Without a starting info, a delegation with shares makes the patch panic after the first block. */
  lemma {:induction false} UnknownDelegationPanics(ctx: Context, s: State, v: Addr, del: Delegation)
    requires v in s.ledgers && v in s.validators && GoodLedger(s.ledgers[v])
    requires del.shares > 0 && del.addr !in s.ledgers[v].infos && ctx.height > 0
    ensures PatchOne(ctx, s, v, del).out == Panic(NilStake)
  {
    hide GoodLedger, IncrementPeriod, Restart, Ended, PatchOne;
    IncrementPeriodGood(s.ledgers[v], s.pool, s.validators[v].tokens);
    EndedFacts(s.ledgers[v], IncrementPeriod(s.ledgers[v], s.pool, s.validators[v].tokens).value.0);
    PatchOneUnfold(ctx, s, v, del);
  }

  // ---------------------------------------------------------------- an example of every outcome

  /** One delegation that started in period 0 with a stake of k tokens and is worth 100 now; period 1
      has ended with a reward of one coin per token. */
  function ExampleLedger(k: nat): Ledger {
    Ledger(Current(map[], 2), map[0 := Hist(map[], 1), 1 := Hist(map["uterp" := ONE], 1)],
           map["delegator" := StartingInfo(0, k * ONE, 1)], [], map["uterp" := 100 * ONE])
  }

  function Example(k: nat): State {
    State(map["validator" := Validator(100, 100 * ONE)],
          map["validator" := [Delegation("delegator", 100 * ONE)]],
          map["validator" := ExampleLedger(k)], map[], map["uterp" := 100], map[])
  }

  lemma {:induction false} ExampleCounts(k: nat)
    ensures CountsExact(ExampleLedger(k))
  {
    var l := ExampleLedger(k);
    assert InfosAt(l.infos, 0) == {"delegator"};
    forall p: nat | p != 0
      ensures InfosAt(l.infos, p) == {}
    {
    }
  }

  lemma {:induction false} ExampleSolvent(k: nat)
    ensures Solvent(Example(k))
  {
    var s := Example(k);
    forall d
      ensures 0 <= Surplus(s, d)
    {
      var m := OutstandingIn(s.ledgers, d);
      SumRemove(m, "validator");
      assert m - {"validator"} == map[];
    }
  }

  lemma {:induction false} ExampleLedgerGood(k: nat)
    ensures GoodLedger(ExampleLedger(k)) && "delegator" in ExampleLedger(k).infos
  {
    hide CountsExact;
    ExampleCounts(k);
  }

  lemma {:induction false} ExampleGood(k: nat)
    ensures GoodState(Example(k)) && Known(Example(k), ["validator"])
  {
    hide GoodLedger, ExampleLedger;
    ExampleLedgerGood(k);
  }

  /** Full shares are worth all the tokens. */
  lemma {:induction false} ExampleStake()
    ensures TokensFromShares(Validator(100, 100 * ONE), 100 * ONE) == 100 * ONE
    ensures Mul(100 * ONE, MARGIN) == 9_500_000_000_000_000_000
  {
  }

  lemma {:induction false} ExampleExceeds(k: nat)
    ensures var (s, del) := (Example(k), Delegation("delegator", 100 * ONE));
            && Exceeds(s, "validator", del, 5) == (k > 100)
            && ExceedsMargin(s, "validator", del, 5) == (k > 109)
  {
    hide TokensFromShares, Mul;
    ExampleStake();
  }

  lemma {:induction false} ExampleShape(k: nat, ctx: Context)
    requires ctx == Context(5, map[], {})
    ensures Known(Example(k), ["validator"]) && DistinctVals(["validator"])
    ensures Unblocked(ctx, Example(k), ["validator"])
    ensures DelegationsOf(Example(k), "validator") == [Delegation("delegator", 100 * ONE)]
  {
    hide ExampleLedger;
  }

  lemma {:induction false} ExampleTotals(k: nat)
    requires Known(Example(k), ["validator"])
    ensures AllExcesses(Example(k), ["validator"], 5) == if k > 100 then 1 else 0
    ensures SomeBeyond(Example(k), ["validator"], 5) <==> k > 109
  {
    hide *;
    var (s, vs) := (Example(k), ["validator"]);
    ExampleShape(k, Context(5, map[], {}));
    ExampleExceeds(k);
    Unfolded(s, vs, 5);
    assert vs[1..] == [];
    NothingToDo(s, 5);
    var ds := DelegationsOf(s, "validator");
    TailDecides(s, "validator", ds, 5);
    assert ds[1..] == [];
    NoDelegations(s, "validator", 5);
  }

  lemma {:induction false} ExampleTrail(k: nat)
    ensures TrailOf(ExampleLedger(k), "delegator", 5, Trail([], [0], [k * ONE]))
  {
  }

  lemma {:induction false} ExampleDue(k: nat)
    requires k > 100
    ensures var (l, t) := (ExampleLedger(k), Trail([], [0], [k * ONE]));
            && Recorded(l, t.periods)
            && Due(l, Validator(100, 100 * ONE), Delegation("delegator", 100 * ONE), t, "uterp") == 100 * ONE
  {
    hide TokensFromShares;
    ExampleStake();
    var (l, t) := (ExampleLedger(k), Trail([], [0], [k * ONE]));
    assert Clamped(t.stakes, 100 * ONE) == [100 * ONE];
    assert RatiosOf(l, t.periods, "uterp") + [ONE] == [0, ONE];
    EarnedSnoc([], [0], 100 * ONE, ONE);
    assert [] + [100 * ONE] == [100 * ONE] && [0] + [ONE] == [0, ONE];
  }

  /** The run is its one iteration. */
  lemma {:induction false} ExampleIteration(k: nat, ctx: Context)
    requires ctx == Context(5, map[], {}) && Known(Example(k), ["validator"])
    requires PatchValidators(ctx, Example(k), ["validator"], 0).out.Ok?
    ensures "validator" in Example(k).ledgers && "validator" in Example(k).validators
    ensures var r := PatchOne(ctx, Example(k), "validator", Delegation("delegator", 100 * ONE));
            && PatchValidators(ctx, Example(k), ["validator"], 0).st == r.st
            && PatchValidators(ctx, Example(k), ["validator"], 0).out == Ok(if r.out == Ok(true) then 1 else 0)
  {
    hide *;
    var (s, vs, del) := (Example(k), ["validator"], Delegation("delegator", 100 * ONE));
    ExampleShape(k, ctx);
    RunStep(ctx, s, vs, 0);
    LoopStep(ctx, s, "validator", [del], 0);
    var r := PatchOne(ctx, s, "validator", del);
    assert [del][1..] == [] && vs[1..] == [];
    if r.out.Ok? {
      LoopNone(ctx, r.st, "validator", if r.out.value then 1 else 0);
      RunNone(ctx, r.st, if r.out.value then 1 else 0);
    }
  }

  lemma {:induction false} ExamplePaid(k: nat, ctx: Context)
    requires 100 < k <= 109 && ctx == Context(5, map[], {}) && Known(Example(k), ["validator"])
    requires GoodState(Example(k)) && PatchValidators(ctx, Example(k), ["validator"], 0).out == Ok(1)
    ensures Amt(BalanceOf(PatchValidators(ctx, Example(k), ["validator"], 0).st, "delegator"), "uterp") == 100
  {
    hide PatchValidators, PatchOne, GoodLedger, ExampleLedger, TrailOf, Due, Earned, RatiosOf, Clamped, Records;
    var s := Example(k);
    var t := Trail([], [0], [k * ONE]);
    ExampleIteration(k, ctx);
    ExampleTrail(k);
    ExampleDue(k);
    ExampleLedgerGood(k);
    PatchOnePaysExactly(ctx, s, "validator", 0, t, "uterp");
  }

  /** Up to 100 tokens nothing is patched, up to 109 the delegation is and receives its 100 coins, and
      from 110 on the patch panics. */
  lemma {:induction false} ExampleOutcomes(k: nat)
    ensures var s := Example(k);
            && GoodState(s) && Solvent(s) && Known(s, ["validator"])
            && var r := PatchValidators(Context(5, map[], {}), s, ["validator"], 0);
               && r.out == (if k <= 100 then Ok(0) else if k <= 109 then Ok(1) else Panic(MarginExceeded))
               && (100 < k <= 109 ==> Amt(BalanceOf(r.st, "delegator"), "uterp") == 100)
               && (k <= 100 ==> NothingMoves(s, r.st))
  {
    hide *;
    ExampleGood(k);
    ExampleSolvent(k);
    ExampleShape(k, Context(5, map[], {}));
    ExampleTotals(k);
    RunExactly(Context(5, map[], {}), Example(k), ["validator"], 0);
    if 100 < k <= 109 {
      ExamplePaid(k, Context(5, map[], {}));
    }
    if k <= 100 {
      ExampleCalm(k);
      CalmRun(Context(5, map[], {}), Example(k), ["validator"], 0);
    }
  }

  lemma {:induction false} ExampleCalm(k: nat)
    requires k <= 100
    ensures AllCalm(Example(k), ["validator"], 5)
  {
    hide TokensFromShares, Mul;
    ExampleStake();
  }
}
