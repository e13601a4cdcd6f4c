/** Who is paid how much by one iteration of the patch (app/upgrades/v520/patch.go), and what the
    restarted delegation records: every amount in terms of the state before the iteration. */
module PatchPayments {
  import NumberTheory
  import opened Dec
  import opened CoinSets
  import opened Distribution
  import opened RefCounts
  import opened Rewards
  import opened PatchRuns
  import opened PatchIdempotence
  import opened RewardAmounts

  // ---------------------------------------------------------------- the bank

  /** Coins go to the withdraw address of the delegator if one is set, and to the delegator otherwise;
      every other balance stays as it is. */
  ghost predicate Moves(ctx: Context, s: State, t: State, addr: Addr, d: Denom, amount: int) {
    var to := if addr in ctx.withdrawTo then ctx.withdrawTo[addr] else addr;
    && Amt(BalanceOf(t, to), d) == Amt(BalanceOf(s, to), d) + amount
    && Amt(t.moduleBalance, d) == Amt(s.moduleBalance, d) - amount
    && forall a :: a != to ==> BalanceOf(t, a) == BalanceOf(s, a)
  }

  lemma {:induction false} SendExactly(ctx: Context, s: State, addr: Addr, coins: Coins, d: Denom)
    requires Send(ctx, s, addr, coins).Ok?
    ensures Moves(ctx, s, Send(ctx, s, addr, coins).value, addr, d, Amt(coins, d))
  {
    hide Plus, Minus, Covers;
  }

  /** A settlement pays the whole coins of the reward, gives the fraction to the community pool, and
      takes both from what is outstanding. */
  lemma {:induction false} SettleExactly(ctx: Context, s: State, v: Addr, addr: Addr, rewards: Coins, d: Denom)
    requires v in s.ledgers && addr in s.ledgers[v].infos && Covers(s.ledgers[v].outstanding, rewards)
    requires Settle(ctx, s, v, addr, rewards).out.Ok?
    ensures var t := Settle(ctx, s, v, addr, rewards).st;
            && Moves(ctx, s, t, addr, d, Amt(rewards, d) / ONE)
            && Amt(t.pool, d) == Amt(s.pool, d) + Amt(rewards, d) % ONE
            && Amt(t.ledgers[v].outstanding, d) == Amt(s.ledgers[v].outstanding, d) - Amt(rewards, d)
  {
    hide Settle, Send, Whole, Fraction, Plus, Minus, Covers, DecrementRef;
    SettleSteps(ctx, s, v, addr, rewards);
    SendExactly(ctx, s, addr, Whole(rewards), d);
    var l := s.ledgers[v];
    DecrementKeeps(l.(outstanding := Minus(l.outstanding, rewards)), l.infos[addr].period);
  }

  lemma {:induction false} DecrementKeeps(l: Ledger, p: nat)
    requires DecrementRef(l, p).Ok?
    ensures DecrementRef(l, p).value.outstanding == l.outstanding
  {
  }

  // ---------------------------------------------------------------- the restarted delegation

  /** k is the largest decimal with k * validator shares <= shares * tokens, within one unit of the
      rounded stake. */
  predicate StakeIs(k: Dec, val: Validator, shares: Dec)
    requires val.shares > 0
  {
    && k * val.shares <= shares * val.tokens * ONE < (k + 1) * val.shares
    && k <= TokensFromShares(val, shares) <= k + 1
  }

  lemma {:induction false} TruncatedStake(val: Validator, shares: Dec)
    requires val.shares > 0 && shares >= 0
    ensures StakeIs(TokensFromSharesTruncated(val, shares), val, shares)
  {
    hide Quo, QuoTruncate;
    NumberTheory.MulMonotone(0, shares, val.tokens);
    TruncatedQuotient(shares * val.tokens, val.shares);
    TruncatedBelowRounded(shares * val.tokens, val.shares);
  }

  /** The rounded stake is within half a unit, and 10^-18 of one, of the exact one. */
  lemma {:induction false} RoundedStake(val: Validator, shares: Dec)
    requires val.shares > 0 && shares >= 0
    ensures var x := shares * val.tokens * ONE;
            -(val.shares * ONE) <= 2 * ONE * (x - TokensFromShares(val, shares) * val.shares) < val.shares * (ONE + 2)
  {
    hide Quo;
    NumberTheory.MulMonotone(0, shares, val.tokens);
    RoundedQuotient(shares * val.tokens, val.shares);
  }

  /** The delegation starts from the given period and height, with the truncated stake. */
  ghost predicate Records(l: Ledger, val: Validator, del: Delegation, period: int, height: nat)
    requires val.shares > 0
  {
    && del.addr in l.infos && l.infos[del.addr].period == period && l.infos[del.addr].height == height
    && StakeIs(l.infos[del.addr].stake, val, del.shares)
  }

  lemma {:induction false} InitializeExactly(ctx: Context, s: State, v: Addr, i: nat)
    requires v in s.ledgers && v in s.validators && s.validators[v].shares > 0
    requires i < |DelegationsOf(s, v)| && DistinctAddrs(DelegationsOf(s, v)) && DelegationsOf(s, v)[i].shares >= 0
    requires Initialize(ctx, s, v, DelegationsOf(s, v)[i].addr).out.Ok? && s.ledgers[v].current.period > 0
    ensures var del := DelegationsOf(s, v)[i];
            var t := Initialize(ctx, s, v, del.addr).st;
            && Records(t.ledgers[v], s.validators[v], del, s.ledgers[v].current.period - 1, ctx.height)
            && t.balances == s.balances && t.moduleBalance == s.moduleBalance && t.pool == s.pool
            && t.ledgers[v].outstanding == s.ledgers[v].outstanding
  {
    hide TokensFromSharesTruncated, FindShares, StakeIs;
    var del := DelegationsOf(s, v)[i];
    FindSharesOf(DelegationsOf(s, v), i);
    TruncatedStake(s.validators[v], del.shares);
  }

  /** The two panics of the reference counts, which no good ledger reaches. */
  lemma {:induction false} CountPanics(ctx: Context, s: State, v: Addr, addr: Addr)
    requires v in s.ledgers && v in s.validators && s.ledgers[v].current.period > 0
    ensures var (l, p) := (s.ledgers[v], s.ledgers[v].current.period - 1);
            Initialize(ctx, s, v, addr).out == Panic(RefCountExceedsTwo) <==> p in l.hist && l.hist[p].refs >= 3
    ensures addr in s.ledgers[v].infos ==>
              var (l, p) := (s.ledgers[v], s.ledgers[v].infos[addr].period);
              Settle(ctx, s, v, addr, map[]).out == Panic(NegativeRefCount) <==> p !in l.hist || l.hist[p].refs == 0
  {
    hide FindShares, TokensFromSharesTruncated;
    FindSharesReturns(DelegationsOf(s, v), addr);
  }

  lemma {:induction false} FindSharesReturns(ds: seq<Delegation>, addr: Addr)
    ensures !FindShares(ds, addr).Panic?
  {
    if ds != [] { FindSharesReturns(ds[1..], addr); }
  }

  // ---------------------------------------------------------------- one iteration

  /** From s to t: owed leaves the outstanding rewards of v, its whole coins reach the payee, the rest
      the community pool. */
  ghost predicate Pays(ctx: Context, s: State, t: State, v: Addr, addr: Addr, d: Denom, owed: int)
    requires v in s.ledgers && v in t.ledgers
  {
    && Moves(ctx, s, t, addr, d, owed / ONE)
    && Amt(t.pool, d) == Amt(s.pool, d) + owed % ONE
    && Amt(t.ledgers[v].outstanding, d) == Amt(s.ledgers[v].outstanding, d) - owed
  }

  lemma {:induction false} MovesOn(ctx: Context, s: State, t: State, u: State, addr: Addr, d: Denom, amount: int)
    requires Moves(ctx, s, t, addr, d, amount) && u.balances == t.balances && u.moduleBalance == t.moduleBalance
    ensures Moves(ctx, s, u, addr, d, amount)
  {
  }

  lemma {:induction false} SettleKeeps(ctx: Context, s: State, v: Addr, addr: Addr, rewards: Coins)
    requires v in s.ledgers && addr in s.ledgers[v].infos && Covers(s.ledgers[v].outstanding, rewards)
    ensures var t := Settle(ctx, s, v, addr, rewards).st;
            t.validators == s.validators && DelegationsOf(t, v) == DelegationsOf(s, v)
  {
    hide Settle, Covers;
  }

  lemma {:induction false} RestartPaid(ctx: Context, s: State, v: Addr, i: nat, ending: nat, d: Denom)
    requires GoodValidator(s, v) && i < |DelegationsOf(s, v)| && DelegationsOf(s, v)[i].shares > 0
    requires JustEnded(s.ledgers[v]) && s.ledgers[v].current.rewards == map[]
    requires ending == s.ledgers[v].current.period - 1
    requires var res := CalculateRewards(s.ledgers[v], s.validators[v], DelegationsOf(s, v)[i], ctx.height, ending);
             res.Ok? && res.value.1
    requires Restart(ctx, s, v, DelegationsOf(s, v)[i], ending).out.Ok?
    ensures var del := DelegationsOf(s, v)[i];
            var t := Restart(ctx, s, v, del, ending).st;
            var rewards := CalculateRewards(s.ledgers[v], s.validators[v], del, ctx.height, ending).value.0;
            && Pays(ctx, s, t, v, del.addr, d, Min(Amt(rewards, d), Amt(s.ledgers[v].outstanding, d)))
            && s.validators[v].shares > 0
            && Records(t.ledgers[v], s.validators[v], del, ending, ctx.height)
  {
    hide GoodLedger, CalculateRewards, Settle, Initialize, Intersect, Covers, StakeIs, Restart, OnlyTouches, Moves;
    var del := DelegationsOf(s, v)[i];
    var rewards := CalculateRewards(s.ledgers[v], s.validators[v], del, ctx.height, ending).value.0;
    var paid := Intersect(rewards, s.ledgers[v].outstanding);
    SettleGood(ctx, s, v, del.addr, paid);
    RestartSteps(ctx, s, v, del, ending);
    SettleExactly(ctx, s, v, del.addr, paid, d);
    var w := Settle(ctx, s, v, del.addr, paid);
    SettleKeeps(ctx, s, v, del.addr, paid);
    InitializeExactly(ctx, w.st, v, i);
    MovesOn(ctx, s, w.st, Initialize(ctx, w.st, v, del.addr).st, del.addr, d, Amt(paid, d) / ONE);
  }

  /** The ratio recorded when the period ends: the rewards per token are added to the last one. */
  function NextRatio(l: Ledger, tokens: nat, d: Denom): int
    requires l.current.period > 0 && l.current.period - 1 in l.hist && tokens > 0
  {
    Amt(l.hist[l.current.period - 1].ratio, d) + Amt(l.current.rewards, d) / tokens
  }

  /** What is due to a delegation when the period ends, from the ledger before: the earnings along its
      trail with the last stake cut to the current one, up to the ratio that the rewards of the current
      period add, and no more than is outstanding. */
  function Due(l: Ledger, val: Validator, del: Delegation, t: Trail, d: Denom): int
    requires t.stakes != [] && |t.periods| == |t.stakes| && Recorded(l, t.periods)
    requires l.current.period > 0 && l.current.period - 1 in l.hist && val.tokens > 0 && val.shares > 0
  {
    Min(EarnedUpTo(t.stakes, TokensFromShares(val, del.shares), RatiosOf(l, t.periods, d), NextRatio(l, val.tokens, d)),
        Amt(l.outstanding, d))
  }

  lemma {:induction false} TrailRecorded(l: Ledger, a: Addr, height: nat, t: Trail)
    requires GoodLedger(l) && a in l.infos && l.infos[a].height != height && TrailOf(l, a, height, t)
    ensures t.stakes != [] && |t.periods| == |t.stakes| && Recorded(l, t.periods)
    ensures l.current.period > 0 && l.current.period - 1 in l.hist
    ensures forall j :: 0 <= j < |t.periods| ==> t.periods[j] < l.current.period
  {
    hide CountsExact, IsTrail, SlashedStake, StakeNow, Earned;
    var info := l.infos[a];
    var u := TrailExists(l, a, height, "");
    TrailUnique(l.slashes, 0, info.height, height, info.period, info.stake, t, u);
    InfoPeriodKnown(l, a);
    forall j | 0 <= j < |t.periods|
      ensures t.periods[j] < l.current.period
    {
      HistBounded(l, t.periods[j]);
    }
  }

  /** Ending a period keeps the ratios of the earlier ones, and adds the rewards per token. */
  lemma {:induction false} RatiosKept(l: Ledger, m: Ledger, pool: Coins, pool': Coins, tokens: nat, periods: seq<nat>,
                                      d: Denom)
    requires GoodLedger(l) && tokens > 0 && Recorded(l, periods) && Recorded(m, periods)
    requires l.current.period > 0 && l.current.period - 1 in l.hist
    requires forall j :: 0 <= j < |periods| ==> periods[j] < l.current.period
    requires IncrementPeriod(l, pool, tokens) == Ok((m, pool'))
    ensures RatiosOf(m, periods, d) == RatiosOf(l, periods, d)
    ensures l.current.period in m.hist && Amt(m.hist[l.current.period].ratio, d) == NextRatio(l, tokens, d)
    ensures m.outstanding == l.outstanding && pool' == pool
  {
    LastRecord(l);
    hide IncrementPeriod, Plus, Covers, CountsExact, QuoDecTruncate;
    IncrementPeriodValue(l, pool, tokens);
    PerToken(l.current.rewards, tokens, d);
  }

  lemma {:induction false} PerToken(rewards: Coins, tokens: nat, d: Denom)
    requires tokens > 0
    ensures Amt(QuoDecTruncate(rewards, tokens * ONE), d) == Amt(rewards, d) / tokens
  {
    var (x, s) := (Amt(rewards, d), tokens * ONE);
    DivNonneg(x * ONE, s);
    DivNonneg(x, tokens);
    NumberTheory.MulMonotone(x / tokens * tokens, x, ONE);
    NumberTheory.MulMonotone(x + 1, (x / tokens + 1) * tokens, ONE);
    PerTokenTerms(x / tokens, tokens, ONE);
    DivCharacter(x * ONE, s, x / tokens);
  }

  lemma {:induction false} PerTokenTerms(q: int, tokens: int, one: int)
    ensures q * tokens * one == q * (tokens * one) && (q + 1) * tokens * one == (q + 1) * (tokens * one)
  {
  }

  lemma {:induction false} NoTokens(val: Validator, shares: Dec)
    requires val.tokens == 0 && val.shares > 0
    ensures TokensFromShares(val, shares) == 0 && Mul(0, MARGIN) == 0
  {
    QuoTNat(0, val.shares);
  }

  /** A validator without tokens has no delegation to patch. */
  lemma {:induction false} PatchedHasTokens(l: Ledger, val: Validator, del: Delegation, height: nat)
    requires GoodLedger(l) && del.addr in l.infos && 0 < val.shares && 0 < del.shares
    requires var res := CalculateRewards(l, val, del, height, l.current.period - 1); res.Ok? && res.value.1
    ensures val.tokens > 0 && l.infos[del.addr].height != height
  {
    hide GoodLedger, CalculateRewards, StakeNow, TokensFromShares, Mul;
    CalculateExact(l, val, del, height);
    if val.tokens == 0 { NoTokens(val, del.shares); }
  }

  lemma {:induction false} SameTrail(l: Ledger, m: Ledger, a: Addr, height: nat, t: Trail)
    requires a in l.infos && m.infos == l.infos && m.slashes == l.slashes && TrailOf(l, a, height, t)
    ensures TrailOf(m, a, height, t)
  {
    hide IsTrail;
  }

  /** The trail of a delegation runs through recorded periods before the current one. */
  ghost predicate Sound(l: Ledger, t: Trail) {
    && t.stakes != [] && |t.periods| == |t.stakes| && Recorded(l, t.periods)
    && l.current.period > 0 && l.current.period - 1 in l.hist
    && forall j :: 0 <= j < |t.periods| ==> t.periods[j] < l.current.period
  }

  /** The calculation after the period has ended, in terms of the ledger before. */
  lemma {:induction false} DueIs(l: Ledger, m: Ledger, pool: Coins, pool': Coins, val: Validator, del: Delegation,
                                 height: nat, t: Trail, d: Denom)
    requires GoodLedger(l) && GoodLedger(m) && Ended(l, m) && IncrementPeriod(l, pool, val.tokens) == Ok((m, pool'))
    requires del.addr in l.infos && del.addr in m.infos && 0 < val.shares && 0 < del.shares && val.tokens > 0
    requires l.infos[del.addr].height != height && TrailOf(l, del.addr, height, t) && Sound(l, t)
    requires m.current.period == l.current.period + 1
    requires CalculateRewards(m, val, del, height, l.current.period).Ok?
    ensures Min(Amt(CalculateRewards(m, val, del, height, l.current.period).value.0, d), Amt(m.outstanding, d))
         == Due(l, val, del, t, d)
    ensures m.outstanding == l.outstanding && pool' == pool
  {
    hide GoodLedger, CalculateRewards, IncrementPeriod, Ended, EarnedUpTo, RatiosOf, TrailOf, TokensFromShares;
    hide NextRatio, Amt;
    EndedFacts(l, m);
    SameTrail(l, m, del.addr, height, t);
    AmountExactly(m, val, del, height, t, d);
    RatiosKept(l, m, pool, pool', val.tokens, t.periods, d);
  }

  lemma {:induction false} PaysFrom(ctx: Context, s: State, s1: State, t: State, v: Addr, addr: Addr, d: Denom,
                                    owed: int)
    requires v in s.ledgers && v in s1.ledgers && v in t.ledgers && Pays(ctx, s1, t, v, addr, d, owed)
    requires s1.balances == s.balances && s1.moduleBalance == s.moduleBalance && s1.pool == s.pool
    requires s1.ledgers[v].outstanding == s.ledgers[v].outstanding
    ensures Pays(ctx, s, t, v, addr, d, owed)
  {
  }

  /** A patched delegation is paid exactly what is due along its trail, to its withdraw address, and
      starts again from the period just ended with the truncated stake. */
  lemma {:induction false} PatchOnePaysExactly(ctx: Context, s: State, v: Addr, i: nat, t: Trail, d: Denom)
    requires GoodValidator(s, v) && i < |DelegationsOf(s, v)|
    requires var del := DelegationsOf(s, v)[i];
             && PatchOne(ctx, s, v, del).out == Ok(true)
             && del.addr in s.ledgers[v].infos && TrailOf(s.ledgers[v], del.addr, ctx.height, t)
    ensures var (l, val, del) := (s.ledgers[v], s.validators[v], DelegationsOf(s, v)[i]);
            && t.stakes != [] && |t.periods| == |t.stakes| && Recorded(l, t.periods)
            && l.current.period > 0 && l.current.period - 1 in l.hist && val.tokens > 0 && val.shares > 0
            && Pays(ctx, s, PatchOne(ctx, s, v, del).st, v, del.addr, d, Due(l, val, del, t, d))
            && Records(PatchOne(ctx, s, v, del).st.ledgers[v], val, del, l.current.period, ctx.height)
  {
    hide GoodLedger, CalculateRewards, IncrementPeriod, Restart, Ended, StakeIs, Earned, RatiosOf, IsTrail, PatchOne;
    hide Pays, Records, Due, TrailOf, Recorded;
    var (l, val, del) := (s.ledgers[v], s.validators[v], DelegationsOf(s, v)[i]);
    PatchedHasShares(ctx, s, v, del);
    IncrementPeriodGood(l, s.pool, val.tokens);
    PatchOneUnfold(ctx, s, v, del);
    var (m, pool') := IncrementPeriod(l, s.pool, val.tokens).value;
    EndedFacts(l, m);
    var s1 := s.(ledgers := s.ledgers[v := m], pool := pool');
    CalculateReturns(m, val, del, ctx.height);
    PatchedHasTokens(m, val, del, ctx.height);
    TrailRecorded(l, del.addr, ctx.height, t);
    DueIs(l, m, s.pool, pool', val, del, ctx.height, t, d);
    RestartPaid(ctx, s1, v, i, m.current.period - 1, d);
    PaysFrom(ctx, s, s1, PatchOne(ctx, s, v, del).st, v, del.addr, d, Due(l, val, del, t, d));
  }

  lemma {:induction false} PatchedHasShares(ctx: Context, s: State, v: Addr, del: Delegation)
    requires v in s.ledgers && v in s.validators && PatchOne(ctx, s, v, del).out == Ok(true)
    ensures del.shares > 0
  {
    hide PatchOne;
    if del.shares <= 0 { PatchOneSpent(ctx, s, v, del); }
  }
}
