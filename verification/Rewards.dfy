/** The reward calculation of the patch (app/upgrades/v520/patch.go): when it can fail, how much it
    can pay, what the clamp costs, and why a re-initialised delegation is not patched again. */
module Rewards {
  import opened NumberTheory
  import opened Dec
  import opened CoinSets
  import opened Distribution
  import opened RefCounts

  /** Cumulative reward ratio of one denomination at a period. */
  function RatioAt(l: Ledger, p: nat, d: Denom): nat {
    Amt(GetHist(l, p).ratio, d)
  }

  /** A truncated reward: stake times a ratio difference. */
  function Share(stake: nat, ratio: nat): nat {
    DivNonneg(stake * ratio, ONE);
    stake * ratio / ONE
  }

  lemma {:induction false} RatioGrows(l: Ledger, p: nat, q: nat, d: Denom)
    requires RatiosGrow(l) && p in l.hist && q in l.hist && p <= q
    ensures RatioAt(l, p, d) <= RatioAt(l, q, d)
  {
    assert Covers(l.hist[q].ratio, l.hist[p].ratio);
  }

  lemma {:induction false} RewardsBetweenOk(l: Ledger, start: nat, end: nat, stake: Dec)
    requires RatiosGrow(l) && start in l.hist && end in l.hist && start <= end && 0 <= stake
    ensures RewardsBetween(l, start, end, stake).Ok?
    ensures forall d :: RatioAt(l, start, d) <= RatioAt(l, end, d)
                     && Amt(RewardsBetween(l, start, end, stake).value, d)
                        == Share(stake, RatioAt(l, end, d) - RatioAt(l, start, d))
  {
    assert Covers(l.hist[end].ratio, l.hist[start].ratio);
    forall d ensures RatioAt(l, start, d) <= RatioAt(l, end, d) { RatioGrows(l, start, end, d); }
    var diff := Minus(l.hist[end].ratio, l.hist[start].ratio);
    forall d
      ensures Amt(RewardsBetween(l, start, end, stake).value, d)
           == Share(stake, RatioAt(l, end, d) - RatioAt(l, start, d))
    {
      assert Amt(diff, d) == RatioAt(l, end, d) - RatioAt(l, start, d);
      assert Amt(diff, d) * stake == stake * Amt(diff, d);
    }
  }

  // ---------------------------------------------------------------- the slash iteration

  /** Events that a good ledger can hold, up to an ending period. */
  ghost predicate GoodEvents(l: Ledger, events: seq<SlashEvent>, ending: nat) {
    forall i :: 0 <= i < |events| ==>
      events[i].period in l.hist && events[i].period <= ending && 0 <= events[i].fraction <= ONE
  }

  ghost predicate GoodSegment(l: Ledger, seg: Segment, ending: nat) {
    0 <= seg.stake && seg.period in l.hist && seg.period <= ending
  }

  /** From segment a to segment b, denomination d earned at most what a's stake would have earned. */
  ghost predicate PaysWithin(l: Ledger, a: Segment, b: Segment, d: Denom) {
    && 0 <= a.stake
    && RatioAt(l, a.period, d) <= RatioAt(l, b.period, d)
    && Amt(b.rewards, d) <= Amt(a.rewards, d) + Share(a.stake, RatioAt(l, b.period, d) - RatioAt(l, a.period, d))
  }

  ghost predicate Follows(l: Ledger, a: Segment, b: Segment) {
    && b.stake <= a.stake && a.period <= b.period
    && forall d :: PaysWithin(l, a, b, d)
  }

  lemma {:induction false} FollowsTransitive(l: Ledger, a: Segment, b: Segment, c: Segment)
    requires Follows(l, a, b) && Follows(l, b, c)
    ensures Follows(l, a, c)
  {
    forall d ensures PaysWithin(l, a, c, d) {
      assert PaysWithin(l, a, b, d) && PaysWithin(l, b, c, d);
      var (x, y, z) := (RatioAt(l, a.period, d), RatioAt(l, b.period, d), RatioAt(l, c.period, d));
      hide RatioAt, Amt;
      TruncMonotone(b.stake, a.stake, z - y);
      TruncSuperadditive(a.stake, y - x, z - y);
    }
  }

  lemma {:induction false} FollowsSelf(l: Ledger, a: Segment)
    requires 0 <= a.stake
    ensures Follows(l, a, a)
  {
  }

  /** The segment one counted slash event leads to. */
  lemma {:induction false} OneSlashGood(l: Ledger, e: SlashEvent, seg: Segment, ending: nat) returns (next: Segment)
    requires RatiosGrow(l) && GoodSegment(l, seg, ending) && e.period > seg.period
    requires e.period in l.hist && e.period <= ending && 0 <= e.fraction <= ONE
    ensures RewardsBetween(l, seg.period, e.period, seg.stake).Ok?
    ensures next == Segment(MulTruncate(seg.stake, ONE - e.fraction), e.period,
                            Plus(seg.rewards, RewardsBetween(l, seg.period, e.period, seg.stake).value))
    ensures GoodSegment(l, next, ending) && Follows(l, seg, next)
  {
    hide RewardsBetween, RatiosGrow, MulTruncate, RatioAt, Share, Amt;
    RewardsBetweenOk(l, seg.period, e.period, seg.stake);
    SlashShrinks(seg.stake, e.fraction);
    var r := RewardsBetween(l, seg.period, e.period, seg.stake).value;
    next := Segment(MulTruncate(seg.stake, ONE - e.fraction), e.period, Plus(seg.rewards, r));
    forall d ensures PaysWithin(l, seg, next, d) {
      assert Amt(next.rewards, d) == Amt(seg.rewards, d) + Amt(r, d);
    }
  }

  /** Iterating over slash events never panics, only lowers the stake, and pays no more than the
      starting stake would have earned over the periods covered. */
  lemma {:induction false} AfterSlashesGood(l: Ledger, events: seq<SlashEvent>, seg: Segment, ending: nat)
    requires RatiosGrow(l) && GoodEvents(l, events, ending) && GoodSegment(l, seg, ending)
    ensures AfterSlashes(l, events, seg).Ok?
    ensures GoodSegment(l, AfterSlashes(l, events, seg).value, ending)
    ensures Follows(l, seg, AfterSlashes(l, events, seg).value)
    decreases |events|
  {
    hide RatiosGrow, Follows, RewardsBetween, MulTruncate;
    if events == [] {
      FollowsSelf(l, seg);
    } else {
      var (e, rest) := (events[0], events[1..]);
      assert forall i :: 0 <= i < |rest| ==> rest[i] == events[i + 1];
      if e.period > seg.period {
        var next := OneSlashGood(l, e, seg, ending);
        AfterSlashesGood(l, rest, next, ending);
        FollowsTransitive(l, seg, next, AfterSlashes(l, rest, next).value);
      } else {
        AfterSlashesGood(l, rest, seg, ending);
      }
    }
  }

  // ---------------------------------------------------------------- the whole calculation

  lemma {:induction false} EventsBetweenGood(l: Ledger, events: seq<SlashEvent>, lo: nat, hi: nat, ending: nat)
    requires GoodEvents(l, events, ending)
    ensures GoodEvents(l, EventsBetween(events, lo, hi), ending)
  {
    if events != [] {
      var rest := events[1..];
      assert forall i :: 0 <= i < |rest| ==> rest[i] == events[i + 1];
      EventsBetweenGood(l, rest, lo, hi, ending);
    }
  }

  lemma {:induction false} LedgerEventsGood(l: Ledger)
    requires GoodLedger(l)
    ensures GoodEvents(l, l.slashes, l.current.period - 1)
  {
    forall i | 0 <= i < |l.slashes| ensures l.slashes[i].period in l.hist {
      var p := l.slashes[i].period;
      EventsAtPositive(l.slashes, p);
      assert References(l, p) > 0;
    }
  }

  lemma {:induction false} InfoPeriodKnown(l: Ledger, a: Addr)
    requires GoodLedger(l) && a in l.infos
    ensures l.infos[a].period in l.hist && l.infos[a].period <= l.current.period - 1
    ensures l.current.period - 1 in l.hist
  {
    var p := l.infos[a].period;
    assert a in InfosAt(l.infos, p);
    assert References(l, p) > 0;
    LastRecord(l);
  }

  function StartSegment(info: StartingInfo): Segment {
    Segment(info.stake, info.period, map[])
  }

  /** The slashed stake of a delegation of a good ledger is well defined and at most its start. */
  lemma {:induction false} SlashedStakeGood(l: Ledger, a: Addr, height: nat)
    requires GoodLedger(l) && a in l.infos
    ensures SlashedStake(l, l.infos[a], height).Ok?
    ensures GoodSegment(l, SlashedStake(l, l.infos[a], height).value, l.current.period - 1)
    ensures Follows(l, StartSegment(l.infos[a]), SlashedStake(l, l.infos[a], height).value)
  {
    var (info, ending) := (l.infos[a], l.current.period - 1);
    InfoPeriodKnown(l, a);
    LedgerEventsGood(l);
    EventsBetweenGood(l, l.slashes, info.height, height, ending);
    var events := if height > info.height then EventsBetween(l.slashes, info.height, height) else [];
    hide CountsExact, Follows, AfterSlashes, EventsBetween;
    AfterSlashesGood(l, events, StartSegment(info), ending);
  }

  lemma {:induction false} MarginNonneg(now: Dec)
    requires 0 <= now
    ensures 0 <= Mul(now, MARGIN)
  {
    assert 0 <= now * MARGIN;
  }

  /** The margin is 9.5 percent of the current stake, rounded to 18 digits. */
  lemma {:induction false} MarginIs(now: Dec)
    ensures NearestEven(now * 95_000_000_000_000_000, Mul(now, MARGIN))
  {
    hide NearestEven, Mul;
    ProductRounds(now, MARGIN);
  }

  lemma {:induction false} TokensNonneg(v: Validator, shares: Dec)
    requires 0 < v.shares && 0 <= shares
    ensures 0 <= TokensFromSharesTruncated(v, shares) <= TokensFromShares(v, shares)
  {
    MulMonotone(0, shares, v.tokens);
    TruncatedBelowRounded(shares * v.tokens, v.shares);
  }

  /** From a good ledger the calculation returns, unless the slashed stake exceeds the current stake
      by more than the margin, and then it panics for exactly that reason.  It reports a patch
      exactly when the slashed stake exceeds the current stake. */
  lemma {:induction false} CalculateOutcome(l: Ledger, v: Validator, del: Delegation, height: nat)
    requires GoodLedger(l) && del.addr in l.infos && 0 < v.shares && 0 <= del.shares
    requires l.infos[del.addr].height != height
    ensures SlashedStake(l, l.infos[del.addr], height).Ok?
    ensures var res := CalculateRewards(l, v, del, height, l.current.period - 1);
            var stake := SlashedStake(l, l.infos[del.addr], height).value.stake;
            var now := TokensFromShares(v, del.shares);
            && (res.Ok? || res == Panic(MarginExceeded))
            && (res.Panic? <==> stake > now + Mul(now, MARGIN))
            && (res.Ok? ==> (res.value.1 <==> stake > now))
  {
    hide CountsExact, Follows, SlashedStake, TokensFromShares, Mul, RewardsBetween;
    var now := TokensFromShares(v, del.shares);
    TokensNonneg(v, del.shares);
    MarginNonneg(now);
    SlashedStakeGood(l, del.addr, height);
    InfoPeriodKnown(l, del.addr);
    var seg := SlashedStake(l, l.infos[del.addr], height).value;
    var stake := if seg.stake > now then now else seg.stake;
    RewardsBetweenOk(l, seg.period, l.current.period - 1, stake);
  }

  /** What the starting stake earns from its starting period to the last one, in one truncation. */
  function EarnedAtMost(l: Ledger, info: StartingInfo, ending: nat, d: Denom): nat
    requires 0 <= info.stake && RatioAt(l, info.period, d) <= RatioAt(l, ending, d)
  {
    Share(info.stake, RatioAt(l, ending, d) - RatioAt(l, info.period, d))
  }

  /** The segmented, slashed and clamped rewards never exceed the starting stake times the whole
      ratio difference, in any denomination. */
  lemma {:induction false} RewardBound(l: Ledger, v: Validator, del: Delegation, height: nat, d: Denom)
    requires GoodLedger(l) && del.addr in l.infos && 0 < v.shares && 0 <= del.shares
    requires CalculateRewards(l, v, del, height, l.current.period - 1).Ok?
    ensures RatioAt(l, l.infos[del.addr].period, d) <= RatioAt(l, l.current.period - 1, d)
    ensures Amt(CalculateRewards(l, v, del, height, l.current.period - 1).value.0, d)
         <= EarnedAtMost(l, l.infos[del.addr], l.current.period - 1, d)
  {
    hide CountsExact, RatiosGrow, Follows, SlashedStake, TokensFromShares, Mul, RewardsBetween, RatioAt, Share;
    var (info, ending) := (l.infos[del.addr], l.current.period - 1);
    InfoPeriodKnown(l, del.addr);
    RatioGrows(l, info.period, ending, d);
    if info.height != height {
      SlashedStakeGood(l, del.addr, height);
      TokensNonneg(v, del.shares);
      var seg := SlashedStake(l, info, height).value;
      var now := TokensFromShares(v, del.shares);
      var stake := if seg.stake > now then now else seg.stake;
      RewardsBetweenOk(l, seg.period, ending, stake);
      var r := RewardsBetween(l, seg.period, ending, stake).value;
      LastSegment(l, StartSegment(info), seg, ending, stake, Plus(seg.rewards, r), d);
    }
  }

  lemma {:induction false} LastSegment(l: Ledger, a: Segment, seg: Segment, ending: nat,
                                       stake: Dec, total: Coins, d: Denom)
    requires Follows(l, a, seg) && 0 <= stake <= seg.stake && a.rewards == map[]
    requires RatioAt(l, seg.period, d) <= RatioAt(l, ending, d)
    requires Amt(total, d) == Amt(seg.rewards, d) + Share(stake, RatioAt(l, ending, d) - RatioAt(l, seg.period, d))
    ensures RatioAt(l, a.period, d) <= RatioAt(l, ending, d) && 0 <= a.stake
    ensures Amt(total, d) <= Share(a.stake, RatioAt(l, ending, d) - RatioAt(l, a.period, d))
  {
    assert PaysWithin(l, a, seg, d);
    var (x, y, z) := (RatioAt(l, a.period, d), RatioAt(l, seg.period, d), RatioAt(l, ending, d));
    hide RatioAt;
    TruncMonotone(stake, a.stake, z - y);
    TruncSuperadditive(a.stake, y - x, z - y);
  }

  lemma {:induction false} ShareClamped(now: nat, stake: nat, m: nat, x: nat)
    requires now <= stake <= now + m
    ensures Share(now, x) <= Share(stake, x) <= Share(now, x) + Share(m, x) + 1
  {
    TruncMonotone(now, stake, x);
    TruncMonotone(stake, now + m, x);
    TruncSuperadditive(x, now, m);
    Commuted(x, now, m);
  }

  lemma {:induction false} Commuted(x: int, a: int, b: int)
    ensures x * (a + b) == (a + b) * x && x * a == a * x && x * b == b * x
  {
  }

  /** The clamp never raises the last segment, and lowers it by at most the truncated reward on the
      margin plus one unit. */
  lemma {:induction false} ClampCost(l: Ledger, seg: Segment, ending: nat, now: Dec, d: Denom)
    requires RatiosGrow(l) && GoodSegment(l, seg, ending) && ending in l.hist
    requires 0 <= now < seg.stake <= now + Mul(now, MARGIN)
    ensures RewardsBetween(l, seg.period, ending, seg.stake).Ok?
    ensures RewardsBetween(l, seg.period, ending, now).Ok?
    ensures RatioAt(l, seg.period, d) <= RatioAt(l, ending, d)
    ensures var full := Amt(RewardsBetween(l, seg.period, ending, seg.stake).value, d);
            var clamped := Amt(RewardsBetween(l, seg.period, ending, now).value, d);
            clamped <= full
            <= clamped + Share(Mul(now, MARGIN), RatioAt(l, ending, d) - RatioAt(l, seg.period, d)) + 1
  {
    hide RatiosGrow, RewardsBetween, RatioAt, Mul, Share;
    RewardsBetweenOk(l, seg.period, ending, seg.stake);
    RewardsBetweenOk(l, seg.period, ending, now);
    ShareClamped(now, seg.stake, Mul(now, MARGIN), RatioAt(l, ending, d) - RatioAt(l, seg.period, d));
  }

  // ---------------------------------------------------------------- no second patch

  /** A delegation whose recorded stake is at most its current stake is never patched, whatever
      slash events the ledger holds and at whatever height. */
  lemma {:induction false} StaysUnpatched(l: Ledger, v: Validator, del: Delegation, height: nat)
    requires GoodLedger(l) && del.addr in l.infos && 0 < v.shares && 0 <= del.shares
    requires l.infos[del.addr].stake <= TokensFromShares(v, del.shares)
    ensures var res := CalculateRewards(l, v, del, height, l.current.period - 1);
            res.Ok? && !res.value.1
  {
    if l.infos[del.addr].height != height {
      hide CountsExact, SlashedStake, TokensFromShares, Mul, CalculateRewards;
      CalculateOutcome(l, v, del, height);
      SlashedStakeGood(l, del.addr, height);
      TokensNonneg(v, del.shares);
      MarginNonneg(TokensFromShares(v, del.shares));
    }
  }

  /** A delegation just re-initialised is never patched again while its shares and the validator's
      tokens and shares stay the same: in every later good ledger that still holds its starting
      info, at the same or any other height. */
  lemma {:induction false} ReinitialisedNotPatched(ctx: Context, s: State, v: Addr, del: Delegation,
                                                   l: Ledger, height: nat)
    requires v in s.ledgers && v in s.validators && 0 < s.validators[v].shares && 0 <= del.shares
    requires FindShares(DelegationsOf(s, v), del.addr) == Ok(del.shares)
    requires Initialize(ctx, s, v, del.addr).out.Ok?
    requires GoodLedger(l) && del.addr in l.infos
    requires l.infos[del.addr] == Initialize(ctx, s, v, del.addr).st.ledgers[v].infos[del.addr]
    ensures var res := CalculateRewards(l, s.validators[v], del, height, l.current.period - 1);
            res.Ok? && !res.value.1
  {
    hide GoodLedger, TokensFromShares, TokensFromSharesTruncated, CalculateRewards;
    TokensNonneg(s.validators[v], del.shares);
    StaysUnpatched(l, s.validators[v], del, height);
  }
}
