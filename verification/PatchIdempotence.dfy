/** The patch is idempotent (app/upgrades/v520/patch.go): after a run that succeeds, a second run at
    the same height patches nothing, pays nothing and cannot fail. */
module PatchIdempotence {
  import opened Dec
  import opened CoinSets
  import opened Distribution
  import opened RefCounts
  import opened Rewards
  import opened PatchRuns

  // ---------------------------------------------------------------- the stake alone

  /** The stake part of the slash iteration; it does not depend on the reward records. */
  function StakeAfter(events: seq<SlashEvent>, stake: Dec, period: nat): Dec {
    if events == [] then stake
    else if events[0].period > period then
      StakeAfter(events[1..], MulTruncate(stake, ONE - events[0].fraction), events[0].period)
    else StakeAfter(events[1..], stake, period)
  }

  lemma {:induction false} StakeOfSegment(l: Ledger, events: seq<SlashEvent>, seg: Segment)
    requires AfterSlashes(l, events, seg).Ok?
    ensures AfterSlashes(l, events, seg).value.stake == StakeAfter(events, seg.stake, seg.period)
    decreases |events|
  {
    hide MulTruncate, RewardsBetween, Plus;
    if events != [] {
      var (e, rest) := (events[0], events[1..]);
      if e.period > seg.period {
        var r := RewardsBetween(l, seg.period, e.period, seg.stake).value;
        StakeOfSegment(l, rest, Segment(MulTruncate(seg.stake, ONE - e.fraction), e.period, Plus(seg.rewards, r)));
      } else {
        StakeOfSegment(l, rest, seg);
      }
    }
  }

  function StakeNow(slashes: seq<SlashEvent>, info: StartingInfo, height: nat): Dec {
    var events := if height > info.height then EventsBetween(slashes, info.height, height) else [];
    StakeAfter(events, info.stake, info.period)
  }

  /** At this height the delegation would not be patched. */
  ghost predicate Calm(s: State, v: Addr, del: Delegation, height: nat)
    requires v in s.ledgers && v in s.validators
  {
    && del.shares > 0 && s.validators[v].shares > 0
    && del.addr in s.ledgers[v].infos
    && var info := s.ledgers[v].infos[del.addr];
       info.height == height
       || StakeNow(s.ledgers[v].slashes, info, height) <= TokensFromShares(s.validators[v], del.shares)
  }

  /** The calculation in terms of the stake alone: it panics exactly beyond the margin, patches exactly
      up to it, and passes the delegation over otherwise. */
  lemma {:induction false} CalculateExact(l: Ledger, val: Validator, del: Delegation, height: nat)
    requires GoodLedger(l) && del.addr in l.infos && 0 < val.shares && 0 < del.shares
    ensures var info := l.infos[del.addr];
            var res := CalculateRewards(l, val, del, height, l.current.period - 1);
            var (stake, now) := (StakeNow(l.slashes, info, height), TokensFromShares(val, del.shares));
            && 0 <= Mul(now, MARGIN)
            && (res.Ok? || res == Panic(MarginExceeded))
            && (res.Panic? <==> info.height != height && stake > now + Mul(now, MARGIN))
            && (res.Ok? ==> (res.value.1 <==> info.height != height && stake > now))
  {
    var info := l.infos[del.addr];
    TokensNonneg(val, del.shares);
    MarginNonneg(TokensFromShares(val, del.shares));
    if info.height != height {
      CalculateOutcome(l, val, del, height);
      hide GoodLedger, CalculateRewards, StakeAfter, AfterSlashes, EventsBetween, TokensFromShares, Mul;
      var events := if height > info.height then EventsBetween(l.slashes, info.height, height) else [];
      StakeOfSegment(l, events, StartSegment(info));
    }
  }

  // ---------------------------------------------------------------- one iteration

  /** Only the visited delegation's starting info may differ, and no slash event does. */
  ghost predicate InfosKept(l: Ledger, m: Ledger, addr: Addr) {
    && m.slashes == l.slashes
    && forall a :: a != addr ==> (a in m.infos <==> a in l.infos) && (a in l.infos ==> m.infos[a] == l.infos[a])
  }

  /** A successful iteration leaves its delegation calm, and touches no other starting info. */
  lemma {:induction false} PatchOneCalms(ctx: Context, s: State, v: Addr, i: nat)
    requires GoodValidator(s, v) && i < |DelegationsOf(s, v)|
    requires PatchOne(ctx, s, v, DelegationsOf(s, v)[i]).out.Ok?
    ensures var del := DelegationsOf(s, v)[i];
            var r := PatchOne(ctx, s, v, del);
            && InfosKept(s.ledgers[v], r.st.ledgers[v], del.addr)
            && (del.shares > 0 ==> Calm(r.st, v, del, ctx.height))
            && (Calm(s, v, del, ctx.height) ==> r.out == Ok(false))
  {
    hide GoodLedger, CalculateRewards, IncrementPeriod, Restart, Ended, StakeNow, TokensFromShares, PatchOne;
    var del := DelegationsOf(s, v)[i];
    var val := s.validators[v];
    if del.shares <= 0 {
      PatchOneSpent(ctx, s, v, del);
    } else {
      IncrementPeriodGood(s.ledgers[v], s.pool, val.tokens);
      PatchOneUnfold(ctx, s, v, del);
      var (m, pool') := IncrementPeriod(s.ledgers[v], s.pool, val.tokens).value;
      EndedFacts(s.ledgers[v], m);
      var s1 := s.(ledgers := s.ledgers[v := m], pool := pool');
      CalculateExact(m, val, del, ctx.height);
      if CalculateRewards(m, val, del, ctx.height, m.current.period - 1).value.1 {
        RestartGood(ctx, s1, v, i, m.current.period - 1);
      }
    }
  }

  /** No account balance and no delegation differs. */
  ghost predicate NothingMoves(s: State, t: State) {
    t.moduleBalance == s.moduleBalance && t.balances == s.balances && t.dels == s.dels
  }

  /** A calm delegation is passed over. */
  lemma {:induction false} CalmIsPassedOver(ctx: Context, s: State, v: Addr, i: nat)
    requires GoodValidator(s, v) && i < |DelegationsOf(s, v)|
    requires Calm(s, v, DelegationsOf(s, v)[i], ctx.height)
    ensures PatchOne(ctx, s, v, DelegationsOf(s, v)[i]).out == Ok(false)
    ensures NothingMoves(s, PatchOne(ctx, s, v, DelegationsOf(s, v)[i]).st)
  {
    hide GoodLedger, CalculateRewards, IncrementPeriod, Restart, RemoveDelegation, Ended, StakeNow, TokensFromShares;
    var del := DelegationsOf(s, v)[i];
    var val := s.validators[v];
    IncrementPeriodGood(s.ledgers[v], s.pool, val.tokens);
    var (m, pool') := IncrementPeriod(s.ledgers[v], s.pool, val.tokens).value;
    EndedFacts(s.ledgers[v], m);
    CalculateExact(m, val, del, ctx.height);
  }

  lemma {:induction false} CalmElsewhere(s: State, t: State, v: Addr, del: Delegation, addr: Addr, height: nat)
    requires v in s.ledgers && v in s.validators && OnlyTouches(s, t, v)
    requires Calm(s, v, del, height) && InfosKept(s.ledgers[v], t.ledgers[v], addr) && del.addr != addr
    ensures Calm(t, v, del, height)
  {
  }

  // ---------------------------------------------------------------- runs

  /** Every delegation of the validator, except those still to be visited, is calm. */
  ghost predicate CalmBut(s: State, v: Addr, ds: seq<Delegation>, height: nat)
    requires v in s.ledgers && v in s.validators
  {
    forall x :: x in DelegationsOf(s, v) && x !in ds ==> Calm(s, v, x, height)
  }

  lemma {:induction false} SameAddrSame(ds: seq<Delegation>, x: Delegation, y: Delegation)
    requires DistinctAddrs(ds) && x in ds && y in ds && x.addr == y.addr
    ensures x == y
  {
  }

  lemma {:induction false} CalmButStep(ctx: Context, s: State, v: Addr, ds: seq<Delegation>)
    requires GoodValidator(s, v) && ds != [] && Pending(s, v, ds) && CalmBut(s, v, ds, ctx.height)
    requires PatchOne(ctx, s, v, ds[0]).out.Ok?
    ensures var r := PatchOne(ctx, s, v, ds[0]);
            CalmBut(r.st, v, ds[1..], ctx.height)
  {
    var all := DelegationsOf(s, v);
    assert ds[0] in ds;
    var i :| 0 <= i < |all| && all[i] == ds[0];
    hide GoodLedger, PatchOne, RemoveDelegation, Calm, InfosKept;
    PatchOneCalms(ctx, s, v, i);
    PatchOneGood(ctx, s, v, i);
    RemoveDelegationKeeps(all, ds[0].addr);
    var t := PatchOne(ctx, s, v, ds[0]).st;
    forall x | x in DelegationsOf(t, v) && x !in ds[1..] ensures Calm(t, v, x, ctx.height) {
      if x != ds[0] {
        assert x !in ds;
        if x.addr == ds[0].addr { SameAddrSame(all, x, ds[0]); }
        CalmElsewhere(s, t, v, x, ds[0].addr, ctx.height);
      }
    }
  }

  lemma {:induction false} PatchDelegationsCalms(ctx: Context, s: State, v: Addr, ds: seq<Delegation>, n: nat)
    requires GoodValidator(s, v) && Pending(s, v, ds) && CalmBut(s, v, ds, ctx.height)
    requires PatchDelegations(ctx, s, v, ds, n).out.Ok?
    ensures CalmBut(PatchDelegations(ctx, s, v, ds, n).st, v, [], ctx.height)
    decreases |ds|
  {
    hide GoodLedger, DistinctAddrs, Linked, Pending, PatchOne, CalmBut;
    if ds != [] {
      PendingAfterOne(ctx, s, v, ds);
      CalmButStep(ctx, s, v, ds);
      var r := PatchOne(ctx, s, v, ds[0]);
      PatchDelegationsCalms(ctx, r.st, v, ds[1..], if r.out.value then n + 1 else n);
    }
  }

  /** If every delegation is calm, the loop patches none and all stay calm. */
  lemma {:induction false} CalmLoop(ctx: Context, s: State, v: Addr, ds: seq<Delegation>, n: nat)
    requires GoodValidator(s, v) && Pending(s, v, ds) && CalmBut(s, v, [], ctx.height)
    ensures PatchDelegations(ctx, s, v, ds, n).out == Ok(n)
    ensures NothingMoves(s, PatchDelegations(ctx, s, v, ds, n).st)
    decreases |ds|
  {
    if ds != [] {
      var all := DelegationsOf(s, v);
      assert ds[0] in ds;
      var i :| 0 <= i < |all| && all[i] == ds[0];
      assert Calm(s, v, ds[0], ctx.height);
      assert CalmBut(s, v, ds, ctx.height);
      hide GoodLedger, DistinctAddrs, Linked, Pending, PatchOne, Calm;
      CalmIsPassedOver(ctx, s, v, i);
      PendingAfterOne(ctx, s, v, ds);
      var t := PatchOne(ctx, s, v, ds[0]).st;
      StillCalm(ctx, s, v, i);
      CalmLoop(ctx, t, v, ds[1..], n);
    }
  }

  lemma {:induction false} StillCalm(ctx: Context, s: State, v: Addr, i: nat)
    requires GoodValidator(s, v) && i < |DelegationsOf(s, v)| && CalmBut(s, v, [], ctx.height)
    requires PatchOne(ctx, s, v, DelegationsOf(s, v)[i]).out.Ok?
    ensures CalmBut(PatchOne(ctx, s, v, DelegationsOf(s, v)[i]).st, v, [], ctx.height)
  {
    var all := DelegationsOf(s, v);
    var del := all[i];
    assert del in all && Calm(s, v, del, ctx.height) && del.shares > 0;
    hide GoodLedger, PatchOne, RemoveDelegation, Calm, InfosKept;
    PatchOneCalms(ctx, s, v, i);
    PatchOneGood(ctx, s, v, i);
    var t := PatchOne(ctx, s, v, del).st;
    forall x | x in DelegationsOf(t, v) ensures Calm(t, v, x, ctx.height) {
      if x != del {
        if x.addr == del.addr { SameAddrSame(all, x, del); }
        CalmElsewhere(s, t, v, x, del.addr, ctx.height);
      }
    }
  }

  // ---------------------------------------------------------------- two runs

  ghost predicate AllCalm(s: State, vs: seq<Addr>, height: nat)
    requires Known(s, vs)
  {
    forall v :: v in vs ==> CalmBut(s, v, [], height)
  }

  lemma {:induction false} CalmFrame(s: State, t: State, v: Addr, u: Addr, height: nat)
    requires u in s.ledgers && u in s.validators && OnlyTouches(s, t, v) && u != v
    requires CalmBut(s, u, [], height)
    ensures CalmBut(t, u, [], height)
  {
    forall x | x in DelegationsOf(t, u) ensures Calm(t, u, x, height) {
      assert Calm(s, u, x, height);
    }
  }

  /** A validator outside the list is not touched by the validator loop. */
  lemma {:induction false} RunKeepsCalm(ctx: Context, s: State, vs: seq<Addr>, n: nat, u: Addr, height: nat)
    requires Known(s, vs) && u in s.ledgers && u in s.validators && u !in vs && CalmBut(s, u, [], height)
    ensures var t := PatchValidators(ctx, s, vs, n).st;
            u in t.ledgers && u in t.validators && CalmBut(t, u, [], height)
    decreases |vs|
  {
    hide PatchDelegations, CalmBut;
    if vs != [] {
      var r := PatchDelegations(ctx, s, vs[0], DelegationsOf(s, vs[0]), n);
      assert vs[0] in vs;
      CalmFrame(s, r.st, vs[0], u, height);
      if r.out.Ok? {
        assert forall w :: w in vs[1..] ==> w in vs;
        RunKeepsCalm(ctx, r.st, vs[1..], r.out.value, u, height);
      }
    }
  }

  lemma {:induction false} RunKeepsKnown(ctx: Context, s: State, vs: seq<Addr>, n: nat, us: seq<Addr>)
    requires Known(s, vs) && Known(s, us)
    ensures Known(PatchValidators(ctx, s, vs, n).st, us)
    decreases |vs|
  {
    hide PatchDelegations;
    if vs != [] {
      var r := PatchDelegations(ctx, s, vs[0], DelegationsOf(s, vs[0]), n);
      if r.out.Ok? {
        assert forall w :: w in vs[1..] ==> w in vs;
        RunKeepsKnown(ctx, r.st, vs[1..], r.out.value, us);
      }
    }
  }

  /** After a successful run every delegation of every visited validator is calm. */
  lemma {:induction false} RunCalms(ctx: Context, s: State, vs: seq<Addr>, n: nat)
    requires GoodState(s) && Known(s, vs) && DistinctVals(vs)
    requires PatchValidators(ctx, s, vs, n).out.Ok?
    ensures Known(PatchValidators(ctx, s, vs, n).st, vs)
    ensures AllCalm(PatchValidators(ctx, s, vs, n).st, vs, ctx.height)
    decreases |vs|
  {
    RunKeepsKnown(ctx, s, vs, n, vs);
    if vs != [] {
      TailOf(vs);
      var v := vs[0];
      var ds := DelegationsOf(s, v);
      RunStep(ctx, s, vs, n);
      FirstValidator(s, vs);
      assert CalmBut(s, v, ds, ctx.height);
      hide GoodState, GoodValidator, Pending, PatchDelegations, CalmBut, DistinctVals, PatchValidators, Known;
      PatchDelegationsGood(ctx, s, v, ds, n);
      PatchDelegationsCalms(ctx, s, v, ds, n);
      var r := PatchDelegations(ctx, s, v, ds, n);
      GoodElsewhere(s, r.st, v);
      RunCalms(ctx, r.st, vs[1..], r.out.value);
      RunKeepsCalm(ctx, r.st, vs[1..], r.out.value, v, ctx.height);
    }
  }

  /** A run over calm validators patches nothing and moves nothing. */
  lemma {:induction false} CalmRun(ctx: Context, s: State, vs: seq<Addr>, n: nat)
    requires GoodState(s) && Known(s, vs) && DistinctVals(vs) && AllCalm(s, vs, ctx.height)
    ensures PatchValidators(ctx, s, vs, n).out == Ok(n)
    ensures NothingMoves(s, PatchValidators(ctx, s, vs, n).st)
    decreases |vs|
  {
    if vs != [] {
      TailOf(vs);
      var v := vs[0];
      var ds := DelegationsOf(s, v);
      assert v in vs && CalmBut(s, v, [], ctx.height);
      hide GoodState, GoodValidator, Pending, PatchDelegations, CalmBut, DistinctVals, PatchValidators, Known;
      RunStep(ctx, s, vs, n);
      FirstValidator(s, vs);
      CalmLoop(ctx, s, v, ds, n);
      PatchDelegationsGood(ctx, s, v, ds, n);
      var t := PatchDelegations(ctx, s, v, ds, n).st;
      GoodElsewhere(s, t, v);
      CalmRest(s, t, vs, ctx.height);
      CalmRun(ctx, t, vs[1..], n);
    }
  }

  lemma {:induction false} CalmRest(s: State, t: State, vs: seq<Addr>, height: nat)
    requires vs != [] && DistinctVals(vs) && Known(s, vs) && Known(t, vs[1..])
    requires OnlyTouches(s, t, vs[0]) && AllCalm(s, vs, height)
    ensures AllCalm(t, vs[1..], height)
  {
    TailOf(vs);
    hide CalmBut, OnlyTouches, DistinctVals;
    forall u | u in vs[1..] ensures CalmBut(t, u, [], height) {
      CalmFrame(s, t, vs[0], u, height);
    }
  }

  /** Idempotence: once a run has succeeded, a second run at the same height patches no delegation,
      succeeds, and moves no money. */
  lemma {:induction false} SecondRunPatchesNothing(ctx: Context, s: State, vs: seq<Addr>, n: nat)
    requires GoodState(s) && Known(s, vs) && DistinctVals(vs)
    requires PatchValidators(ctx, s, vs, n).out.Ok?
    ensures var t := PatchValidators(ctx, s, vs, n).st;
            && Known(t, vs)
            && PatchValidators(ctx, t, vs, 0).out == Ok(0)
            && NothingMoves(t, PatchValidators(ctx, t, vs, 0).st)
  {
    RunGood(ctx, s, vs, n);
    RunCalms(ctx, s, vs, n);
    hide GoodState, PatchValidators, AllCalm;
    CalmRun(ctx, PatchValidators(ctx, s, vs, n).st, vs, 0);
  }
}
