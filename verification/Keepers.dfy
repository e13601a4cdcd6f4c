/** The patch as the source runs it (app/upgrades/v520/patch.go): methods that update the keeper
    stores in place, each proved to do what the functions of `Distribution` say. */
module Keepers {
  import opened Dec
  import opened CoinSets
  import opened Distribution

  lemma {:induction false} Replaced(m: map<Addr, Ledger>, v: Addr, l: Ledger, k: Ledger)
    ensures m[v := l][v := k] == m[v := k]
  {
  }

  class AppKeepers {
    const ctx: Context
    const validators: map<Addr, Validator>
    var dels: map<Addr, seq<Delegation>>
    var ledgers: map<Addr, Ledger>
    var pool: Coins
    var moduleBalance: Coins
    var balances: map<Addr, Coins>

    ghost function View(): State
      reads this
    {
      State(validators, dels, ledgers, pool, moduleBalance, balances)
    }

    constructor (ctx: Context, s: State)
      ensures View() == s && this.ctx == ctx
    {
      this.ctx := ctx;
      validators, dels, ledgers := s.validators, s.dels, s.ledgers;
      pool, moduleBalance, balances := s.pool, s.moduleBalance, s.balances;
    }

    method IncrementReferenceCount(v: Addr, period: nat) returns (o: Outcome<()>)
      requires v in ledgers
      modifies this`ledgers
      ensures var r := IncrementRef(old(ledgers[v]), period);
              if r.Ok? then o == Ok(()) && ledgers == old(ledgers)[v := r.value]
              else o == r.PropagateFailure() && ledgers == old(ledgers)
    {
      var historical := GetHist(ledgers[v], period);
      if historical.refs > 2 {
        return Panic(RefCountExceedsTwo);
      }
      historical := historical.(refs := historical.refs + 1);
      ledgers := ledgers[v := ledgers[v].(hist := ledgers[v].hist[period := historical])];
      return Ok(());
    }

    method DecrementReferenceCount(v: Addr, period: nat) returns (o: Outcome<()>)
      requires v in ledgers
      modifies this`ledgers
      ensures var r := DecrementRef(old(ledgers[v]), period);
              if r.Ok? then o == Ok(()) && ledgers == old(ledgers)[v := r.value]
              else o == r.PropagateFailure() && o.Panic? && ledgers == old(ledgers)
    {
      var historical := GetHist(ledgers[v], period);
      if historical.refs == 0 {
        return Panic(NegativeRefCount);
      }
      historical := historical.(refs := historical.refs - 1);
      if historical.refs == 0 {
        ledgers := ledgers[v := ledgers[v].(hist := ledgers[v].hist - {period})];
      } else {
        ledgers := ledgers[v := ledgers[v].(hist := ledgers[v].hist[period := historical])];
      }
      return Ok(());
    }

    /** The calculation changes nothing; its loop is the slash-event iterator. */
    method CalculateDelegationRewards(v: Addr, del: Delegation, ending: nat) returns (o: Outcome<(Coins, bool)>)
      requires v in ledgers && v in validators
      ensures o == CalculateRewards(ledgers[v], validators[v], del, ctx.height, ending)
    {
      hide RewardsBetween, MulTruncate, TokensFromShares, Mul, Plus;
      var l := ledgers[v];
      if del.addr !in l.infos {
        return if ctx.height == 0 then Ok((map[], false)) else Panic(NilStake);
      }
      var info := l.infos[del.addr];
      if info.height == ctx.height {
        return Ok((map[], false));
      }
      var seg := Segment(info.stake, info.period, map[]);
      var patched := false;
      if ctx.height > info.height {
        var events := EventsBetween(l.slashes, info.height, ctx.height);
        var i := 0;
        while i < |events|
          invariant 0 <= i <= |events|
          invariant AfterSlashes(l, events[i..], seg) == SlashedStake(l, info, ctx.height)
        {
          var event := events[i];
          assert events[i..][0] == event && events[i..][1..] == events[i + 1..];
          if event.period > seg.period {
            var r := RewardsBetween(l, seg.period, event.period, seg.stake);
            if r.IsFailure() {
              return r.PropagateFailure();
            }
            seg := Segment(MulTruncate(seg.stake, ONE - event.fraction), event.period, Plus(seg.rewards, r.value));
          }
          i := i + 1;
        }
        assert events[i..] == [];
      }
      if validators[v].shares == 0 {
        return Panic(DivisionByZero);
      }
      var currentStake := TokensFromShares(validators[v], del.shares);
      var stake := seg.stake;
      if stake > currentStake {
        if stake <= currentStake + Mul(currentStake, MARGIN) {
          stake := currentStake;
          patched := true;
        } else {
          return Panic(MarginExceeded);
        }
      }
      var last := RewardsBetween(l, seg.period, ending, stake);
      if last.IsFailure() {
        return last.PropagateFailure();
      }
      return Ok((Plus(seg.rewards, last.value), patched));
    }

    method IncrementValidatorPeriod(v: Addr) returns (o: Outcome<nat>)
      requires v in ledgers && v in validators
      modifies this`ledgers, this`pool
      ensures var r := IncrementPeriod(old(ledgers[v]), old(pool), validators[v].tokens);
              if r.Ok?
              then
                && o == Ok(old(ledgers[v].current.period))
                && ledgers == old(ledgers)[v := r.value.0] && pool == r.value.1
              else o == r.PropagateFailure() && o.Panic?
    {
      hide QuoDecTruncate, Plus, Minus, Covers;
      var rewards := ledgers[v].current;
      var ratio: Coins := map[];
      var outstanding := ledgers[v].outstanding;
      if validators[v].tokens == 0 {
        if !Covers(outstanding, rewards.rewards) {
          return Panic(NegativeCoins);
        }
        pool := Plus(pool, rewards.rewards);
        outstanding := Minus(outstanding, rewards.rewards);
      } else {
        ratio := QuoDecTruncate(rewards.rewards, validators[v].tokens * ONE);
      }
      var historical := GetHist(ledgers[v], Prev(rewards.period));
      var dec := DecrementReferenceCount(v, Prev(rewards.period));
      if dec.IsFailure() {
        return dec.PropagateFailure();
      }
      var l := ledgers[v];
      ledgers := ledgers[v := l.(hist := l.hist[rewards.period := Hist(Plus(historical.ratio, ratio), 1)],
                                 current := Current(map[], rewards.period + 1),
                                 outstanding := outstanding)];
      return Ok(rewards.period);
    }

    method SendCoinsFromModule(addr: Addr, coins: Coins) returns (o: Outcome<()>)
      modifies this`moduleBalance, this`balances
      ensures var r := Send(ctx, old(View()), addr, coins);
              if r.Ok? then o == Ok(()) && View() == r.value
              else o == r.PropagateFailure() && View() == old(View())
    {
      hide Plus, Minus, Covers;
      if coins == map[] {
        return Ok(());
      }
      var to := Payee(ctx, addr);
      if to in ctx.blocked || !Covers(moduleBalance, coins) {
        return Err(SendFailed);
      }
      var balance := if to in balances then balances[to] else map[];
      moduleBalance := Minus(moduleBalance, coins);
      balances := balances[to := Plus(balance, coins)];
      return Ok(());
    }

    /** The writes of a withdrawal: pay, lower the outstanding rewards, feed the pool, and drop the
        starting info with its reference. */
    method SettleRewards(v: Addr, addr: Addr, rewards: Coins) returns (o: Outcome<()>)
      requires v in ledgers && addr in ledgers[v].infos && Covers(ledgers[v].outstanding, rewards)
      modifies this
      ensures o == Settle(ctx, old(View()), v, addr, rewards).out
      ensures !o.Panic? ==> View() == Settle(ctx, old(View()), v, addr, rewards).st
    {
      hide Plus, Minus, Covers, Whole, Fraction, Send, DecrementRef, OnlyTouches, Settle;
      SettleSteps(ctx, View(), v, addr, rewards);
      var sent := SendCoinsFromModule(addr, Whole(rewards));
      if sent.IsFailure() {
        return sent;
      }
      ghost var was := ledgers;
      ledgers := ledgers[v := ledgers[v].(outstanding := Minus(ledgers[v].outstanding, rewards))];
      ghost var less := ledgers[v];
      pool := Plus(pool, Fraction(rewards));
      var startingPeriod := ledgers[v].infos[addr].period;
      var dec := DecrementReferenceCount(v, startingPeriod);
      if dec.IsFailure() {
        return dec;
      }
      ghost var dropped := ledgers[v];
      Replaced(was, v, less, dropped);
      ledgers := ledgers[v := ledgers[v].(infos := ledgers[v].infos - {addr})];
      Replaced(was, v, dropped, ledgers[v]);
      return Ok(());
    }

    method WithdrawDelegationRewards(v: Addr, del: Delegation, ending: nat) returns (o: Outcome<()>)
      requires v in ledgers && v in validators
      modifies this
      ensures o == Withdraw(ctx, old(View()), v, del, ending).out
      ensures !o.Panic? ==> View() == Withdraw(ctx, old(View()), v, del, ending).st
    {
      hide CalculateRewards, Settle, Covers, Intersect;
      if del.addr !in ledgers[v].infos {
        return Err(EmptyDelegationDistInfo);
      }
      var calculated := CalculateDelegationRewards(v, del, ending);
      if calculated.IsFailure() {
        return calculated.PropagateFailure();
      }
      if !calculated.value.1 {
        return Panic(NotPatched);
      }
      o := SettleRewards(v, del.addr, Intersect(calculated.value.0, ledgers[v].outstanding));
    }

    method InitializeDelegation(v: Addr, addr: Addr) returns (o: Outcome<()>)
      requires v in ledgers && v in validators
      modifies this`ledgers
      ensures o == Initialize(ctx, old(View()), v, addr).out
      ensures !o.Panic? ==> View() == Initialize(ctx, old(View()), v, addr).st
    {
      hide TokensFromSharesTruncated, IncrementRef, OnlyTouches;
      var previousPeriod := Prev(ledgers[v].current.period);
      var inc := IncrementReferenceCount(v, previousPeriod);
      if inc.IsFailure() {
        return inc;
      }
      var shares := FindShares(if v in dels then dels[v] else [], addr);
      if shares.IsFailure() {
        return shares.PropagateFailure();
      }
      if validators[v].shares == 0 {
        return Panic(DivisionByZero);
      }
      var stake := TokensFromSharesTruncated(validators[v], shares.value);
      var info := StartingInfo(previousPeriod, stake, ctx.height);
      ledgers := ledgers[v := ledgers[v].(infos := ledgers[v].infos[addr := info])];
      return Ok(());
    }

    /** The body of the delegation loop. */
    method PatchDelegation(v: Addr, del: Delegation) returns (o: Outcome<bool>)
      requires v in ledgers && v in validators
      modifies this
      ensures o == PatchOne(ctx, old(View()), v, del).out
      ensures !o.Panic? ==> View() == PatchOne(ctx, old(View()), v, del).st
    {
      hide CalculateRewards, IncrementPeriod, Withdraw, Initialize, RemoveDelegation;
      if del.shares <= 0 {
        dels := dels[v := RemoveDelegation(if v in dels then dels[v] else [], del.addr)];
        return Ok(false);
      }
      var ending := IncrementValidatorPeriod(v);
      if ending.IsFailure() {
        return ending.PropagateFailure();
      }
      var res := CalculateDelegationRewards(v, del, ending.value);
      if res.IsFailure() {
        return res.PropagateFailure();
      }
      if !res.value.1 {
        return Ok(false);
      }
      var withdrawn := WithdrawDelegationRewards(v, del, ending.value);
      if withdrawn.IsFailure() {
        return withdrawn.PropagateFailure();
      }
      var initialized := InitializeDelegation(v, del.addr);
      if initialized.IsFailure() {
        return initialized.PropagateFailure();
      }
      return Ok(true);
    }

    /** The nested loops over validators and their delegations; the result counts patches. */
    method PatchAll(vs: seq<Addr>) returns (o: Outcome<nat>)
      requires forall v :: v in vs ==> v in ledgers && v in validators
      modifies this
      ensures o == PatchValidators(ctx, old(View()), vs, 0).out
      ensures !o.Panic? ==> View() == PatchValidators(ctx, old(View()), vs, 0).st
    {
      hide PatchOne, PatchDelegations, PatchValidators;
      var count, i := 0, 0;
      ghost var start := View();
      while i < |vs|
        invariant 0 <= i <= |vs| && Known(View(), vs[i..])
        invariant PatchValidators(ctx, View(), vs[i..], count) == PatchValidators(ctx, start, vs, 0)
      {
        var v := vs[i];
        assert vs[i..][0] == v && vs[i..][1..] == vs[i + 1..];
        RunStep(ctx, View(), vs[i..], count);
        var ds := if v in dels then dels[v] else [];
        var j := 0;
        ghost var before, n0 := View(), count;
        assert ds[0..] == ds;
        while j < |ds|
          invariant 0 <= j <= |ds| && v in ledgers && v in validators
          invariant PatchDelegations(ctx, View(), v, ds[j..], count) == PatchDelegations(ctx, before, v, ds, n0)
        {
          assert ds[j..][0] == ds[j] && ds[j..][1..] == ds[j + 1..];
          LoopStep(ctx, View(), v, ds[j..], count);
          var one := PatchDelegation(v, ds[j]);
          if one.IsFailure() {
            return one.PropagateFailure();
          }
          if one.value {
            count := count + 1;
          }
          j := j + 1;
        }
        assert ds[j..] == [];
        LoopNone(ctx, View(), v, count);
        i := i + 1;
      }
      assert vs[i..] == [];
      RunNone(ctx, View(), count);
      return Ok(count);
    }
  }
}
