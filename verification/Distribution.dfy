/** The delegation-reward patch of the v520 upgrade (app/upgrades/v520/patch.go) as functions on the
    keeper stores.  Stores keyed by validator are one `Ledger` per validator.  An error return keeps
    the state reached so far, because the upgrade handler goes on after an error; a panic halts the
    upgrade, so no state is kept. */
module Distribution {
  import opened Dec
  import opened CoinSets

  type Addr = string

  /** Historical rewards of one period: cumulative reward ratio and reference count. */
  datatype Hist = Hist(ratio: Coins, refs: nat)
  datatype Current = Current(rewards: Coins, period: nat)
  datatype StartingInfo = StartingInfo(period: nat, stake: Dec, height: nat)
  datatype SlashEvent = SlashEvent(height: nat, period: nat, fraction: Dec)

  /** The distribution stores of one validator; slash events are in store order. */
  datatype Ledger = Ledger(
    current: Current,
    hist: map<nat, Hist>,
    infos: map<Addr, StartingInfo>,
    slashes: seq<SlashEvent>,
    outstanding: Coins)

  datatype Validator = Validator(tokens: nat, shares: Dec)
  datatype Delegation = Delegation(addr: Addr, shares: Dec)

  datatype State = State(
    validators: map<Addr, Validator>,
    dels: map<Addr, seq<Delegation>>,
    ledgers: map<Addr, Ledger>,
    pool: Coins,
    moduleBalance: Coins,
    balances: map<Addr, Coins>)

  /** Block height, configured withdraw addresses, and the accounts the bank refuses to pay. */
  datatype Context = Context(height: nat, withdrawTo: map<Addr, Addr>, blocked: set<Addr>)

  datatype Error = EmptyDelegationDistInfo | SendFailed | NoDelegation

  datatype Reason =
    | NilStake
    | MarginExceeded
    | PeriodOrder
    | NegativeStake
    | NegativeRewards
    | NotPatched
    | NegativeRefCount
    | RefCountExceedsTwo
    | DivisionByZero
    | NegativeCoins

  datatype Outcome<+T> = Ok(value: T) | Err(error: Error) | Panic(reason: Reason) {
    predicate IsFailure() { !Ok? }

    function PropagateFailure<U>(): Outcome<U>
      requires IsFailure()
    {
      if Err? then Err(error) else Panic(reason)
    }

    function Extract(): T
      requires Ok?
    {
      value
    }
  }

  /** The state a call leaves behind, and how it returned. */
  datatype Step<+T> = Step(st: State, out: Outcome<T>)

  /** Only the records of validator v differ between two states. */
  ghost predicate OnlyTouches(s: State, t: State, v: Addr) {
    && t.validators == s.validators
    && t.ledgers.Keys == s.ledgers.Keys
    && (forall u :: u in s.ledgers && u != v ==> t.ledgers[u] == s.ledgers[u])
    && (forall u :: u != v ==> DelegationsOf(t, u) == DelegationsOf(s, u))
  }

  lemma {:induction false} TouchesNone(s: State, v: Addr)
    ensures OnlyTouches(s, s, v)
  {
  }

  lemma {:induction false} TouchesOne(s: State, t: State, v: Addr)
    requires v in s.ledgers && v in t.ledgers && t.ledgers == s.ledgers[v := t.ledgers[v]]
    requires t.validators == s.validators && t.dels == s.dels
    ensures OnlyTouches(s, t, v)
  {
  }

  /** 0.095, the tolerated excess of the computed stake. */
  const MARGIN: Dec := 95_000_000_000_000_000

  // ---------------------------------------------------------------- reference counts

  /** A missing record reads as the zero record. */
  function GetHist(l: Ledger, p: nat): Hist {
    if p in l.hist then l.hist[p] else Hist(map[], 0)
  }

  function IncrementRef(l: Ledger, p: nat): Outcome<Ledger> {
    var h := GetHist(l, p);
    if h.refs > 2 then Panic(RefCountExceedsTwo)
    else Ok(l.(hist := l.hist[p := h.(refs := h.refs + 1)]))
  }

  function DecrementRef(l: Ledger, p: nat): Outcome<Ledger> {
    var h := GetHist(l, p);
    if h.refs == 0 then Panic(NegativeRefCount)
    else if h.refs == 1 then Ok(l.(hist := l.hist - {p}))
    else Ok(l.(hist := l.hist[p := h.(refs := h.refs - 1)]))
  }

  /** Unsigned 64-bit predecessor. */
  function Prev(p: nat): nat { if p == 0 then 0xFFFF_FFFF_FFFF_FFFF else p - 1 }

  /** Ends the current period (the Cosmos SDK's IncrementValidatorPeriod). */
  function IncrementPeriod(l: Ledger, pool: Coins, tokens: nat): Outcome<(Ledger, Coins)> {
    var (c, prev) := (l.current, Prev(l.current.period));
    if tokens == 0 && !Covers(l.outstanding, c.rewards) then Panic(NegativeCoins)
    else
      var ratio := if tokens == 0 then map[] else QuoDecTruncate(c.rewards, tokens * ONE);
      var out := if tokens == 0 then Minus(l.outstanding, c.rewards) else l.outstanding;
      var pool' := if tokens == 0 then Plus(pool, c.rewards) else pool;
      var cumulative := Plus(GetHist(l, prev).ratio, ratio);
      var l1 :- DecrementRef(l, prev);
      Ok((l1.(hist := l1.hist[c.period := Hist(cumulative, 1)],
              current := Current(map[], c.period + 1),
              outstanding := out),
          pool'))
  }

  // ---------------------------------------------------------------- reward calculation

  /** stake * (ratio at end - ratio at start), truncated. */
  function RewardsBetween(l: Ledger, start: nat, end: nat, stake: Dec): Outcome<Coins> {
    var (a, b) := (GetHist(l, start).ratio, GetHist(l, end).ratio);
    if start > end then Panic(PeriodOrder)
    else if stake < 0 then Panic(NegativeStake)
    else if !Covers(b, a) then Panic(NegativeRewards)
    else Ok(MulDecTruncate(Minus(b, a), stake))
  }

  /** What the slash iteration carries along. */
  datatype Segment = Segment(stake: Dec, period: nat, rewards: Coins)

  function AfterSlashes(l: Ledger, events: seq<SlashEvent>, seg: Segment): Outcome<Segment> {
    if events == [] then Ok(seg)
    else
      var e := events[0];
      if e.period > seg.period then
        var r :- RewardsBetween(l, seg.period, e.period, seg.stake);
        AfterSlashes(l, events[1..],
                     Segment(MulTruncate(seg.stake, ONE - e.fraction), e.period, Plus(seg.rewards, r)))
      else AfterSlashes(l, events[1..], seg)
  }

  function EventsBetween(events: seq<SlashEvent>, lo: nat, hi: nat): seq<SlashEvent> {
    if events == [] then []
    else
      var rest := EventsBetween(events[1..], lo, hi);
      if lo <= events[0].height <= hi then [events[0]] + rest else rest
  }

  function TokensFromShares(v: Validator, shares: Dec): Dec
    requires v.shares != 0
  {
    Quo(shares * v.tokens, v.shares)
  }

  function TokensFromSharesTruncated(v: Validator, shares: Dec): Dec
    requires v.shares != 0
  {
    QuoTruncate(shares * v.tokens, v.shares)
  }

  /** The stake and rewards of a delegation once every slash up to the given height is applied. */
  function SlashedStake(l: Ledger, info: StartingInfo, height: nat): Outcome<Segment> {
    var events := if height > info.height then EventsBetween(l.slashes, info.height, height) else [];
    AfterSlashes(l, events, Segment(info.stake, info.period, map[]))
  }

  /** Rewards of a delegation up to the ending period, and whether its stake was clamped. */
  function CalculateRewards(l: Ledger, v: Validator, del: Delegation, height: nat, ending: nat)
    : Outcome<(Coins, bool)>
  {
    if del.addr !in l.infos then
      if height == 0 then Ok((map[], false)) else Panic(NilStake)
    else if l.infos[del.addr].height == height then Ok((map[], false))
    else
      var seg :- SlashedStake(l, l.infos[del.addr], height);
      if v.shares == 0 then Panic(DivisionByZero)
      else
        var now := TokensFromShares(v, del.shares);
        if seg.stake > now + Mul(now, MARGIN) && seg.stake > now then Panic(MarginExceeded)
        else
          var stake := if seg.stake > now then now else seg.stake;
          var r :- RewardsBetween(l, seg.period, ending, stake);
          Ok((Plus(seg.rewards, r), seg.stake > now))
  }

  // ---------------------------------------------------------------- withdrawing and restarting

  function Payee(ctx: Context, addr: Addr): Addr {
    if addr in ctx.withdrawTo then ctx.withdrawTo[addr] else addr
  }

  function BalanceOf(s: State, a: Addr): Coins {
    if a in s.balances then s.balances[a] else map[]
  }

  /** Pay whole coins from the distribution module account. */
  function Send(ctx: Context, s: State, addr: Addr, coins: Coins): (r: Outcome<State>)
    ensures r.Ok? ==> r.value == s.(moduleBalance := r.value.moduleBalance, balances := r.value.balances)
  {
    var to := Payee(ctx, addr);
    if coins == map[] then Ok(s)
    else if to in ctx.blocked || !Covers(s.moduleBalance, coins) then Err(SendFailed)
    else Ok(s.(moduleBalance := Minus(s.moduleBalance, coins),
               balances := s.balances[to := Plus(BalanceOf(s, to), coins)]))
  }

  /** Pay the whole part of the rewards, give the rest to the community pool, and drop the
      delegation's starting info with its reference. */
  function Settle(ctx: Context, s: State, v: Addr, addr: Addr, rewards: Coins): (r: Step<()>)
    requires v in s.ledgers && addr in s.ledgers[v].infos && Covers(s.ledgers[v].outstanding, rewards)
    ensures OnlyTouches(s, r.st, v) && r.st.dels == s.dels
  {
    hide Plus, Minus, Covers, Whole, Fraction, Send, DecrementRef, OnlyTouches;
    TouchesNone(s, v);
    var l := s.ledgers[v];
    var sent := Send(ctx, s, addr, Whole(rewards));
    if sent.IsFailure() then Step(s, sent.PropagateFailure())
    else
      var s1 := sent.value;
      var l1 := DecrementRef(l.(outstanding := Minus(l.outstanding, rewards)), l.infos[addr].period);
      if l1.IsFailure() then Step(s, l1.PropagateFailure())
      else
        var t := s1.(ledgers := s1.ledgers[v := l1.value.(infos := l1.value.infos - {addr})],
                     pool := Plus(s1.pool, Fraction(rewards)));
        TouchesOne(s, t, v);
        Step(t, Ok(()))
  }

  /** A settlement step by step. */
  lemma {:induction false} SettleSteps(ctx: Context, s: State, v: Addr, addr: Addr, rewards: Coins)
    requires v in s.ledgers && addr in s.ledgers[v].infos && Covers(s.ledgers[v].outstanding, rewards)
    ensures var l := s.ledgers[v];
            var sent := Send(ctx, s, addr, Whole(rewards));
            var l1 := DecrementRef(l.(outstanding := Minus(l.outstanding, rewards)), l.infos[addr].period);
            Settle(ctx, s, v, addr, rewards)
            == if !sent.Ok? then Step(s, sent.PropagateFailure())
               else if !l1.Ok? then Step(s, l1.PropagateFailure())
               else Step(sent.value.(ledgers := s.ledgers[v := l1.value.(infos := l1.value.infos - {addr})],
                                     pool := Plus(s.pool, Fraction(rewards))),
                         Ok(()))
  {
    hide Plus, Minus, Covers, Whole, Fraction, Send, DecrementRef, OnlyTouches;
  }

  function Withdraw(ctx: Context, s: State, v: Addr, del: Delegation, ending: nat): (r: Step<()>)
    requires v in s.ledgers && v in s.validators
    ensures OnlyTouches(s, r.st, v) && r.st.dels == s.dels
  {
    var l := s.ledgers[v];
    if del.addr !in l.infos then Step(s, Err(EmptyDelegationDistInfo))
    else
      var res := CalculateRewards(l, s.validators[v], del, ctx.height, ending);
      if res.IsFailure() then Step(s, res.PropagateFailure())
      else if !res.value.1 then Step(s, Panic(NotPatched))
      else Settle(ctx, s, v, del.addr, Intersect(res.value.0, l.outstanding))
  }

  function FindShares(ds: seq<Delegation>, addr: Addr): Outcome<Dec> {
    if ds == [] then Err(NoDelegation)
    else if ds[0].addr == addr then Ok(ds[0].shares)
    else FindShares(ds[1..], addr)
  }

  function DelegationsOf(s: State, v: Addr): seq<Delegation> {
    if v in s.dels then s.dels[v] else []
  }

  function Initialize(ctx: Context, s: State, v: Addr, addr: Addr): (r: Step<()>)
    requires v in s.ledgers && v in s.validators
    ensures OnlyTouches(s, r.st, v) && r.st.dels == s.dels
  {
    var (l, val) := (s.ledgers[v], s.validators[v]);
    var prev := Prev(l.current.period);
    var l1 := IncrementRef(l, prev);
    if l1.IsFailure() then Step(s, l1.PropagateFailure())
    else
      var s1 := s.(ledgers := s.ledgers[v := l1.value]);
      var shares := FindShares(DelegationsOf(s, v), addr);
      if shares.IsFailure() then Step(s1, shares.PropagateFailure())
      else if val.shares == 0 then Step(s1, Panic(DivisionByZero))
      else
        var info := StartingInfo(prev, TokensFromSharesTruncated(val, shares.value), ctx.height);
        Step(s.(ledgers := s.ledgers[v := l1.value.(infos := l1.value.infos[addr := info])]), Ok(()))
  }

  function RemoveDelegation(ds: seq<Delegation>, addr: Addr): seq<Delegation> {
    if ds == [] then []
    else if ds[0].addr == addr then ds[1..]
    else [ds[0]] + RemoveDelegation(ds[1..], addr)
  }

  // ---------------------------------------------------------------- the patch loop

  /** What a patched delegation goes through: withdraw, then start afresh. */
  function Restart(ctx: Context, s: State, v: Addr, del: Delegation, ending: nat): (r: Step<bool>)
    requires v in s.ledgers && v in s.validators
    ensures OnlyTouches(s, r.st, v) && r.st.dels == s.dels
  {
    var w := Withdraw(ctx, s, v, del, ending);
    if w.out.IsFailure() then Step(w.st, w.out.PropagateFailure())
    else
      var i := Initialize(ctx, w.st, v, del.addr);
      Step(i.st, if i.out.IsFailure() then i.out.PropagateFailure() else Ok(true))
  }

  /** A restart that withdraws: settle, then initialise. */
  lemma {:induction false} RestartSteps(ctx: Context, s: State, v: Addr, del: Delegation, ending: nat)
    requires v in s.ledgers && v in s.validators && del.addr in s.ledgers[v].infos
    requires var res := CalculateRewards(s.ledgers[v], s.validators[v], del, ctx.height, ending);
             res.Ok? && res.value.1
    ensures var rewards := CalculateRewards(s.ledgers[v], s.validators[v], del, ctx.height, ending).value.0;
            var w := Settle(ctx, s, v, del.addr, Intersect(rewards, s.ledgers[v].outstanding));
            var r := Restart(ctx, s, v, del, ending);
            && (!w.out.Ok? ==> !r.out.Ok?)
            && (w.out.Ok? ==>
                  && v in w.st.ledgers && v in w.st.validators
                  && var i := Initialize(ctx, w.st, v, del.addr);
                     r.st == i.st && (r.out.Ok? <==> i.out.Ok?))
  {
    hide CalculateRewards, Settle, Initialize, Intersect, Covers;
  }

  /** One iteration of the delegation loop; the value says whether the delegation was patched. */
  function PatchOne(ctx: Context, s: State, v: Addr, del: Delegation): (r: Step<bool>)
    requires v in s.ledgers && v in s.validators
    ensures OnlyTouches(s, r.st, v)
  {
    if del.shares <= 0 then
      Step(s.(dels := s.dels[v := RemoveDelegation(DelegationsOf(s, v), del.addr)]), Ok(false))
    else
      var ending := s.ledgers[v].current.period;
      var inc := IncrementPeriod(s.ledgers[v], s.pool, s.validators[v].tokens);
      if inc.IsFailure() then Step(s, inc.PropagateFailure())
      else
        var s1 := s.(ledgers := s.ledgers[v := inc.value.0], pool := inc.value.1);
        var res := CalculateRewards(inc.value.0, s.validators[v], del, ctx.height, ending);
        if res.IsFailure() then Step(s1, res.PropagateFailure())
        else if !res.value.1 then Step(s1, Ok(false))
        else Restart(ctx, s1, v, del, ending)
  }

  lemma {:induction false} PatchOneSpent(ctx: Context, s: State, v: Addr, del: Delegation)
    requires v in s.ledgers && v in s.validators && del.shares <= 0
    ensures var r := PatchOne(ctx, s, v, del); r.out == Ok(false) && r.st.ledgers == s.ledgers
  {
  }

  /** One iteration for a delegation with shares, once the period has ended. */
  lemma {:induction false} PatchOneUnfold(ctx: Context, s: State, v: Addr, del: Delegation)
    requires v in s.ledgers && v in s.validators && del.shares > 0
    requires IncrementPeriod(s.ledgers[v], s.pool, s.validators[v].tokens).Ok?
    ensures var ending := s.ledgers[v].current.period;
            var (m, pool') := IncrementPeriod(s.ledgers[v], s.pool, s.validators[v].tokens).value;
            var s1 := s.(ledgers := s.ledgers[v := m], pool := pool');
            var res := CalculateRewards(m, s.validators[v], del, ctx.height, ending);
            && (!res.Ok? ==> PatchOne(ctx, s, v, del) == Step(s1, res.PropagateFailure()))
            && (res.Ok? && !res.value.1 ==> PatchOne(ctx, s, v, del) == Step(s1, Ok(false)))
            && (res.Ok? && res.value.1 ==> PatchOne(ctx, s, v, del) == Restart(ctx, s1, v, del, ending))
  {
    hide IncrementPeriod, CalculateRewards, Restart, OnlyTouches;
  }

  /** The delegation loop of one validator; the value counts patched delegations. */
  function PatchDelegations(ctx: Context, s: State, v: Addr, ds: seq<Delegation>, n: nat): (r: Step<nat>)
    requires v in s.ledgers && v in s.validators
    ensures OnlyTouches(s, r.st, v)
    decreases |ds|
  {
    if ds == [] then Step(s, Ok(n))
    else
      var one := PatchOne(ctx, s, v, ds[0]);
      if one.out.IsFailure() then Step(one.st, one.out.PropagateFailure())
      else PatchDelegations(ctx, one.st, v, ds[1..], if one.out.value then n + 1 else n)
  }

  /** The validator loop. */
  function PatchValidators(ctx: Context, s: State, vs: seq<Addr>, n: nat): Step<nat>
    requires forall v :: v in vs ==> v in s.ledgers && v in s.validators
    decreases |vs|
  {
    if vs == [] then Step(s, Ok(n))
    else
      var r := PatchDelegations(ctx, s, vs[0], DelegationsOf(s, vs[0]), n);
      if r.out.IsFailure() then r
      else
        PatchValidators(ctx, r.st, vs[1..], r.out.value)
  }

  ghost predicate Known(s: State, vs: seq<Addr>) {
    forall v :: v in vs ==> v in s.validators && v in s.ledgers
  }

  lemma {:induction false} LoopNone(ctx: Context, s: State, v: Addr, n: nat)
    requires v in s.ledgers && v in s.validators
    ensures PatchDelegations(ctx, s, v, [], n) == Step(s, Ok(n))
  {
  }

  /** The delegation loop unrolled once. */
  lemma {:induction false} LoopStep(ctx: Context, s: State, v: Addr, ds: seq<Delegation>, n: nat)
    requires v in s.ledgers && v in s.validators && ds != []
    ensures var r := PatchOne(ctx, s, v, ds[0]);
            && v in r.st.ledgers && v in r.st.validators
            && (r.out.Panic? ==> PatchDelegations(ctx, s, v, ds, n) == Step(r.st, Panic(r.out.reason)))
            && (r.out.Err? ==> PatchDelegations(ctx, s, v, ds, n) == Step(r.st, Err(r.out.error)))
            && (r.out.Ok? ==>
                  PatchDelegations(ctx, s, v, ds, n)
                  == PatchDelegations(ctx, r.st, v, ds[1..], if r.out.value then n + 1 else n))
  {
    hide PatchOne;
  }

  lemma {:induction false} RunNone(ctx: Context, s: State, n: nat)
    ensures PatchValidators(ctx, s, [], n) == Step(s, Ok(n))
  {
  }

  /** The validator loop unrolled once. */
  lemma {:induction false} RunStep(ctx: Context, s: State, vs: seq<Addr>, n: nat)
    requires Known(s, vs) && vs != []
    ensures vs[0] in s.ledgers && vs[0] in s.validators
    ensures var r := PatchDelegations(ctx, s, vs[0], DelegationsOf(s, vs[0]), n);
            && Known(r.st, vs[1..])
            && (!r.out.Ok? ==> PatchValidators(ctx, s, vs, n) == r)
            && (r.out.Ok? ==> PatchValidators(ctx, s, vs, n) == PatchValidators(ctx, r.st, vs[1..], r.out.value))
  {
    hide PatchDelegations;
    assert vs[0] in vs;
    assert forall u :: u in vs[1..] ==> u in vs;
  }
}
