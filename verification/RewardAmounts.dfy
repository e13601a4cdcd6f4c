/** How much the reward calculation of the patch (app/upgrades/v520/patch.go) pays: which slash events
    count, and the exact amount of every denomination as a sum over explicit lists of periods, stakes
    and reward ratios. */
module RewardAmounts {
  import opened Dec
  import opened CoinSets
  import opened Distribution
  import opened RefCounts
  import opened Rewards
  import opened PatchIdempotence

  // ---------------------------------------------------------------- which events count

  predicate InWindow(e: SlashEvent, lo: nat, hi: nat) { lo <= e.height <= hi }

  /** From position i on, event k counts: it lies in the window, and its period is above the starting
      period and above the periods of all the events in the window before it. */
  ghost predicate Counts(all: seq<SlashEvent>, i: nat, lo: nat, hi: nat, period: nat, k: nat) {
    && i <= k < |all| && InWindow(all[k], lo, hi) && all[k].period > period
    && forall j :: i <= j < k && InWindow(all[j], lo, hi) ==> all[j].period < all[k].period
  }

  /** The counted events in order, the periods they lead through, and the stake on each stretch. */
  datatype Trail = Trail(picks: seq<nat>, periods: seq<nat>, stakes: seq<int>)

  ghost predicate Ascending(picks: seq<nat>) {
    forall a, b :: 0 <= a < b < |picks| ==> picks[a] < picks[b]
  }

  ghost predicate Stretches(all: seq<SlashEvent>, period: nat, stake: int, t: Trail) {
    && |t.periods| == |t.stakes| == |t.picks| + 1 && t.periods[0] == period && t.stakes[0] == stake
    && forall j :: 0 <= j < |t.picks| ==>
         && t.picks[j] < |all|
         && t.periods[j + 1] == all[t.picks[j]].period
         && t.stakes[j + 1] == t.stakes[j] * (ONE - all[t.picks[j]].fraction) / ONE
  }

  ghost predicate IsTrail(all: seq<SlashEvent>, i: nat, lo: nat, hi: nat, period: nat, stake: int, t: Trail) {
    && Ascending(t.picks)
    && (forall k :: k in t.picks <==> Counts(all, i, lo, hi, period, k))
    && Stretches(all, period, stake, t)
  }

  // ---------------------------------------------------------------- what it earns

  /** Stake times ratio difference, truncated to 18 digits, stretch by stretch. */
  function Earned(stakes: seq<int>, ratios: seq<int>): int
    requires |ratios| == |stakes| + 1
  {
    if stakes == [] then 0
    else stakes[0] * (ratios[1] - ratios[0]) / ONE + Earned(stakes[1..], ratios[1..])
  }

  lemma {:induction false} EarnedSnoc(stakes: seq<int>, ratios: seq<int>, stake: int, ratio: int)
    requires |ratios| == |stakes| + 1
    ensures Earned(stakes + [stake], ratios + [ratio])
         == Earned(stakes, ratios) + stake * (ratio - ratios[|stakes|]) / ONE
  {
    if stakes == [] {
      assert (stakes + [stake])[1..] == [];
    } else {
      EarnedSnoc(stakes[1..], ratios[1..], stake, ratio);
      assert (stakes + [stake])[1..] == stakes[1..] + [stake];
      assert (ratios + [ratio])[1..] == ratios[1..] + [ratio];
    }
  }

  ghost predicate Recorded(l: Ledger, periods: seq<nat>) {
    forall j :: 0 <= j < |periods| ==> periods[j] in l.hist
  }

  /** The cumulative reward ratios recorded for these periods. */
  function RatiosOf(l: Ledger, periods: seq<nat>, d: Denom): (r: seq<int>)
    requires Recorded(l, periods)
    ensures |r| == |periods|
  {
    seq(|periods|, j requires 0 <= j < |periods| && periods[j] in l.hist => Amt(l.hist[periods[j]].ratio, d))
  }

  // ---------------------------------------------------------------- one event at a time

  /** An event outside the window, or of a period already reached, changes nothing. */
  lemma {:induction false} Skip(all: seq<SlashEvent>, i: nat, lo: nat, hi: nat, period: nat)
    requires i < |all| && (!InWindow(all[i], lo, hi) || all[i].period <= period)
    ensures forall k :: Counts(all, i, lo, hi, period, k) <==> Counts(all, i + 1, lo, hi, period, k)
  {
    hide InWindow;
  }

  /** A counted event comes first, and the rest are counted from its period on. */
  lemma {:induction false} Count(all: seq<SlashEvent>, i: nat, lo: nat, hi: nat, period: nat)
    requires i < |all| && InWindow(all[i], lo, hi) && all[i].period > period
    ensures forall k :: Counts(all, i, lo, hi, period, k) <==> k == i || Counts(all, i + 1, lo, hi, all[i].period, k)
  {
    hide InWindow;
  }

  function Longer(i: nat, period: nat, stake: int, t: Trail): Trail {
    Trail([i] + t.picks, [period] + t.periods, [stake] + t.stakes)
  }

  lemma {:induction false} LongerTrail(all: seq<SlashEvent>, i: nat, lo: nat, hi: nat, period: nat, stake: int,
                                       t: Trail)
    requires i < |all| && InWindow(all[i], lo, hi) && all[i].period > period
    requires IsTrail(all, i + 1, lo, hi, all[i].period, stake * (ONE - all[i].fraction) / ONE, t)
    ensures IsTrail(all, i, lo, hi, period, stake, Longer(i, period, stake, t))
  {
    Count(all, i, lo, hi, period);
    LongerAscends(all, i, lo, hi, all[i].period, t.picks);
    LongerStretches(all, i, period, stake, t);
    var u := Longer(i, period, stake, t);
    hide InWindow, Counts, Ascending, Stretches;
    assert forall k :: k in u.picks <==> k == i || k in t.picks;
  }

  lemma {:induction false} LongerAscends(all: seq<SlashEvent>, i: nat, lo: nat, hi: nat, period: nat, picks: seq<nat>)
    requires Ascending(picks) && forall k :: k in picks <==> Counts(all, i + 1, lo, hi, period, k)
    ensures Ascending([i] + picks)
  {
    hide InWindow;
    forall b | 0 <= b < |picks|
      ensures i < picks[b]
    {
      assert picks[b] in picks;
    }
  }

  lemma {:induction false} LongerStretches(all: seq<SlashEvent>, i: nat, period: nat, stake: int, t: Trail)
    requires i < |all|
    requires Stretches(all, all[i].period, stake * (ONE - all[i].fraction) / ONE, t)
    ensures Stretches(all, period, stake, Longer(i, period, stake, t))
  {
    var u := Longer(i, period, stake, t);
    forall j | 0 <= j < |u.picks|
      ensures u.picks[j] < |all| && u.periods[j + 1] == all[u.picks[j]].period
      ensures u.stakes[j + 1] == u.stakes[j] * (ONE - all[u.picks[j]].fraction) / ONE
    {
      if j > 0 {
        assert u.picks[j] == t.picks[j - 1] && u.periods[j + 1] == t.periods[j];
        assert u.stakes[j + 1] == t.stakes[j] && u.stakes[j] == t.stakes[j - 1];
      }
    }
  }

  // ---------------------------------------------------------------- the list is determined

  lemma {:induction false} SamePicks(a: seq<nat>, b: seq<nat>)
    requires Ascending(a) && Ascending(b) && forall k :: k in a <==> k in b
    ensures a == b
    decreases |a|
  {
    assert b != [] ==> b[0] in b && b[0] in a;
    if a != [] {
      assert a[0] in a && a[0] in b;
      assert b[0] in b && b[0] in a;
      assert a[0] == b[0];
      TailMembers(a);
      TailMembers(b);
      SamePicks(a[1..], b[1..]);
      assert a == [a[0]] + a[1..] && b == [b[0]] + b[1..];
    }
  }

  lemma {:induction false} TailMembers(a: seq<nat>)
    requires Ascending(a) && a != []
    ensures Ascending(a[1..]) && forall k :: k in a[1..] <==> k in a && k != a[0]
  {
    forall k | k in a && k != a[0]
      ensures k in a[1..]
    {
      var j :| 0 <= j < |a| && a[j] == k;
      assert a[1..][j - 1] == k;
    }
  }

  lemma {:induction false} SameStretches(all: seq<SlashEvent>, period: nat, stake: int, t: Trail, u: Trail, j: nat)
    requires Stretches(all, period, stake, t) && Stretches(all, period, stake, u) && t.picks == u.picks
    requires j <= |t.picks|
    ensures t.periods[j] == u.periods[j] && t.stakes[j] == u.stakes[j]
  {
    if j > 0 {
      SameStretches(all, period, stake, t, u, j - 1);
    }
  }

  /** There is only one trail from a given start. */
  lemma {:induction false} TrailUnique(all: seq<SlashEvent>, i: nat, lo: nat, hi: nat, period: nat, stake: int,
                                       t: Trail, u: Trail)
    requires IsTrail(all, i, lo, hi, period, stake, t) && IsTrail(all, i, lo, hi, period, stake, u)
    ensures t == u
  {
    assert forall k :: k in t.picks <==> k in u.picks;
    hide Counts, Ascending, Stretches;
    SamePicks(t.picks, u.picks);
    forall j | 0 <= j <= |t.picks|
      ensures t.periods[j] == u.periods[j] && t.stakes[j] == u.stakes[j]
    {
      SameStretches(all, period, stake, t, u, j);
    }
    SizesOf(all, period, stake, t);
    SizesOf(all, period, stake, u);
    assert t.periods == u.periods && t.stakes == u.stakes;
  }

  lemma {:induction false} SizesOf(all: seq<SlashEvent>, period: nat, stake: int, t: Trail)
    requires Stretches(all, period, stake, t)
    ensures |t.periods| == |t.stakes| == |t.picks| + 1
  {
  }

  // ---------------------------------------------------------------- the iteration follows the trail

  /** What the iteration carries after the events from position i on. */
  ghost predicate Carries(l: Ledger, seg: Segment, out: Segment, t: Trail, d: Denom) {
    && |t.periods| == |t.stakes| >= 1 && Recorded(l, t.periods)
    && out.stake == t.stakes[|t.stakes| - 1] && out.period == t.periods[|t.stakes| - 1]
    && Amt(out.rewards, d) == Amt(seg.rewards, d) + Earned(t.stakes[..|t.stakes| - 1], RatiosOf(l, t.periods, d))
  }

  lemma {:induction false} LongerCarries(l: Ledger, i: nat, seg: Segment, next: Segment, out: Segment, t: Trail,
                                         d: Denom)
    requires Carries(l, next, out, t, d) && seg.period in l.hist && t.periods[0] == next.period
    requires next.period in l.hist
    requires Amt(next.rewards, d)
          == Amt(seg.rewards, d)
             + seg.stake * (Amt(l.hist[next.period].ratio, d) - Amt(l.hist[seg.period].ratio, d)) / ONE
    ensures Carries(l, seg, out, Longer(i, seg.period, seg.stake, t), d)
  {
    var (u, n) := (Longer(i, seg.period, seg.stake, t), |t.stakes|);
    assert forall j :: 0 < j < |u.periods| ==> u.periods[j] == t.periods[j - 1];
    var (ratios, stakes) := (RatiosOf(l, u.periods, d), u.stakes[..n]);
    assert stakes[1..] == t.stakes[..n - 1] && ratios[1..] == RatiosOf(l, t.periods, d);
    assert stakes[0] == seg.stake && ratios[0] == Amt(l.hist[seg.period].ratio, d);
    assert ratios[1] == Amt(l.hist[next.period].ratio, d);
  }

  /** One counted slash, in numbers. */
  lemma {:induction false} OneSlash(l: Ledger, e: SlashEvent, seg: Segment, ending: nat, d: Denom)
    requires RatiosGrow(l) && GoodSegment(l, seg, ending) && e.period > seg.period
    requires e.period in l.hist && e.period <= ending && 0 <= e.fraction <= ONE
    ensures RewardsBetween(l, seg.period, e.period, seg.stake).Ok?
    ensures MulTruncate(seg.stake, ONE - e.fraction) == seg.stake * (ONE - e.fraction) / ONE
    ensures Amt(RewardsBetween(l, seg.period, e.period, seg.stake).value, d)
         == seg.stake * (Amt(l.hist[e.period].ratio, d) - Amt(l.hist[seg.period].ratio, d)) / ONE
  {
    hide RatiosGrow, RewardsBetween, MulTruncate;
    RewardsBetweenOk(l, seg.period, e.period, seg.stake);
    MulTruncateNat(seg.stake, ONE - e.fraction);
  }

  lemma {:induction false} EventsFrom(all: seq<SlashEvent>, i: nat, lo: nat, hi: nat)
    requires i < |all|
    ensures EventsBetween(all[i..], lo, hi)
         == (if lo <= all[i].height <= hi then [all[i]] else []) + EventsBetween(all[i + 1..], lo, hi)
  {
    assert all[i..][1..] == all[i + 1..];
  }

  lemma {:induction false} IterationStep(l: Ledger, e: SlashEvent, rest: seq<SlashEvent>, seg: Segment)
    ensures e.period <= seg.period ==> AfterSlashes(l, [e] + rest, seg) == AfterSlashes(l, rest, seg)
    ensures e.period > seg.period && RewardsBetween(l, seg.period, e.period, seg.stake).Ok? ==>
              AfterSlashes(l, [e] + rest, seg)
              == AfterSlashes(l, rest, Segment(MulTruncate(seg.stake, ONE - e.fraction), e.period,
                                Plus(seg.rewards, RewardsBetween(l, seg.period, e.period, seg.stake).value)))
  {
    hide RewardsBetween, MulTruncate, Plus;
    assert ([e] + rest)[1..] == rest;
  }

  lemma {:induction false} Walk(l: Ledger, i: nat, lo: nat, hi: nat, seg: Segment, ending: nat, d: Denom)
    returns (t: Trail)
    requires RatiosGrow(l) && GoodEvents(l, l.slashes, ending) && GoodSegment(l, seg, ending) && i <= |l.slashes|
    ensures AfterSlashes(l, EventsBetween(l.slashes[i..], lo, hi), seg).Ok?
    ensures IsTrail(l.slashes, i, lo, hi, seg.period, seg.stake, t)
    ensures Carries(l, seg, AfterSlashes(l, EventsBetween(l.slashes[i..], lo, hi), seg).value, t, d)
    decreases |l.slashes| - i
  {
    hide RatiosGrow, AfterSlashes, EventsBetween, RewardsBetween, MulTruncate, IsTrail, Carries, Counts, Earned;
    var all := l.slashes;
    if i == |all| {
      t := Trail([], [seg.period], [seg.stake]);
      WalkEnds(l, i, lo, hi, seg, d);
    } else {
      EventsFrom(all, i, lo, hi);
      var rest := EventsBetween(all[i + 1..], lo, hi);
      IterationStep(l, all[i], rest, seg);
      if InWindow(all[i], lo, hi) && all[i].period > seg.period {
        OneSlash(l, all[i], seg, ending, d);
        var next := OneSlashGood(l, all[i], seg, ending);
        var u := Walk(l, i + 1, lo, hi, next, ending, d);
        TrailStart(all, i + 1, lo, hi, next.period, next.stake, u);
        t := Longer(i, seg.period, seg.stake, u);
        LongerTrail(all, i, lo, hi, seg.period, seg.stake, u);
        LongerCarries(l, i, seg, next, AfterSlashes(l, rest, next).value, u, d);
      } else {
        assert [] + rest == rest;
        t := Walk(l, i + 1, lo, hi, seg, ending, d);
        SkipTrail(all, i, lo, hi, seg.period, seg.stake, t);
      }
    }
  }

  lemma {:induction false} TrailStart(all: seq<SlashEvent>, i: nat, lo: nat, hi: nat, period: nat, stake: int, t: Trail)
    requires IsTrail(all, i, lo, hi, period, stake, t)
    ensures |t.periods| == |t.stakes| == |t.picks| + 1 && t.periods[0] == period && t.stakes[0] == stake
  {
    hide Counts;
  }

  lemma {:induction false} SkipTrail(all: seq<SlashEvent>, i: nat, lo: nat, hi: nat, period: nat, stake: int, t: Trail)
    requires i < |all| && (!InWindow(all[i], lo, hi) || all[i].period <= period)
    requires IsTrail(all, i + 1, lo, hi, period, stake, t)
    ensures IsTrail(all, i, lo, hi, period, stake, t)
  {
    Skip(all, i, lo, hi, period);
    hide Counts, Stretches, Ascending;
  }

  lemma {:induction false} WalkEnds(l: Ledger, i: nat, lo: nat, hi: nat, seg: Segment, d: Denom)
    requires i == |l.slashes| && seg.period in l.hist
    ensures AfterSlashes(l, EventsBetween(l.slashes[i..], lo, hi), seg) == Ok(seg)
    ensures IsTrail(l.slashes, i, lo, hi, seg.period, seg.stake, Trail([], [seg.period], [seg.stake]))
    ensures Carries(l, seg, seg, Trail([], [seg.period], [seg.stake]), d)
  {
  }

  // ---------------------------------------------------------------- the whole calculation

  lemma {:induction false} EmptyWindow(all: seq<SlashEvent>, lo: nat, hi: nat)
    requires lo > hi
    ensures EventsBetween(all, lo, hi) == []
  {
    if all != [] { EmptyWindow(all[1..], lo, hi); }
  }

  /** The events a delegation is subject to are those of its window, whatever the order of the heights. */
  lemma {:induction false} WindowOf(l: Ledger, info: StartingInfo, height: nat)
    requires info.height != height
    ensures SlashedStake(l, info, height) == AfterSlashes(l, EventsBetween(l.slashes[0..], info.height, height),
                                                          StartSegment(info))
    ensures StakeNow(l.slashes, info, height)
         == StakeAfter(EventsBetween(l.slashes[0..], info.height, height), info.stake, info.period)
  {
    hide AfterSlashes, StakeAfter, EventsBetween;
    assert l.slashes[0..] == l.slashes;
    if height < info.height { EmptyWindow(l.slashes, info.height, height); }
  }

  ghost predicate TrailOf(l: Ledger, a: Addr, height: nat, t: Trail)
    requires a in l.infos
  {
    var info := l.infos[a];
    IsTrail(l.slashes, 0, info.height, height, info.period, info.stake, t)
  }

  /** Every delegation of a good ledger has a trail, and at its end the stake the iteration computes. */
  lemma {:induction false} TrailExists(l: Ledger, a: Addr, height: nat, d: Denom) returns (t: Trail)
    requires GoodLedger(l) && a in l.infos && l.infos[a].height != height
    ensures TrailOf(l, a, height, t) && |t.stakes| == |t.picks| + 1
    ensures SlashedStake(l, l.infos[a], height).Ok?
    ensures Carries(l, StartSegment(l.infos[a]), SlashedStake(l, l.infos[a], height).value, t, d)
    ensures StakeNow(l.slashes, l.infos[a], height) == t.stakes[|t.picks|]
  {
    hide CountsExact, AfterSlashes, EventsBetween, StakeAfter, IsTrail, Carries, SlashedStake, StakeNow;
    var (info, ending) := (l.infos[a], l.current.period - 1);
    InfoPeriodKnown(l, a);
    LedgerEventsGood(l);
    t := Walk(l, 0, info.height, height, StartSegment(info), ending, d);
    WindowOf(l, info, height);
    StakeOfSegment(l, EventsBetween(l.slashes[0..], info.height, height), StartSegment(info));
    TrailStart(l.slashes, 0, info.height, height, info.period, info.stake, t);
    CarriesStake(l, StartSegment(info), SlashedStake(l, info, height).value, t, d);
  }

  lemma {:induction false} CarriesStake(l: Ledger, seg: Segment, out: Segment, t: Trail, d: Denom)
    requires Carries(l, seg, out, t, d)
    ensures |t.stakes| >= 1 && out.stake == t.stakes[|t.stakes| - 1]
  {
    hide Earned, RatiosOf;
  }

  /** The stake on the last stretch is cut to the current one. */
  function Clamped(stakes: seq<int>, now: int): (r: seq<int>)
    requires stakes != []
    ensures |r| == |stakes|
  {
    var n := |stakes| - 1;
    stakes[..n] + [if stakes[n] > now then now else stakes[n]]
  }

  /** Earnings along the ratios and then up to a final one, with at most the current stake at the end. */
  function EarnedUpTo(stakes: seq<int>, now: int, ratios: seq<int>, final: int): int
    requires |stakes| == |ratios| >= 1
  {
    Earned(Clamped(stakes, now), ratios + [final])
  }

  /** The exact amount of every denomination: the truncated earnings of each stretch of the trail, the
      last one up to the ending period and with at most the current stake. */
  lemma {:induction false} AmountExactly(l: Ledger, v: Validator, del: Delegation, height: nat, t: Trail, d: Denom)
    requires GoodLedger(l) && del.addr in l.infos && 0 < v.shares && 0 <= del.shares
    requires l.infos[del.addr].height != height && TrailOf(l, del.addr, height, t)
    requires CalculateRewards(l, v, del, height, l.current.period - 1).Ok?
    ensures t.stakes != [] && |t.periods| == |t.stakes| && Recorded(l, t.periods) && l.current.period - 1 in l.hist
    ensures Amt(CalculateRewards(l, v, del, height, l.current.period - 1).value.0, d)
         == EarnedUpTo(t.stakes, TokensFromShares(v, del.shares), RatiosOf(l, t.periods, d),
                       Amt(l.hist[l.current.period - 1].ratio, d))
  {
    hide CountsExact, RatiosGrow, SlashedStake, TokensFromShares, RewardsBetween, IsTrail, Earned, RatiosOf, Mul;
    var (info, ending) := (l.infos[del.addr], l.current.period - 1);
    var u := TrailExists(l, del.addr, height, d);
    TrailUnique(l.slashes, 0, info.height, height, info.period, info.stake, t, u);
    InfoPeriodKnown(l, del.addr);
    SlashedStakeGood(l, del.addr, height);
    TokensNonneg(v, del.shares);
    var (seg, now) := (SlashedStake(l, info, height).value, TokensFromShares(v, del.shares));
    var stake := if seg.stake > now then now else seg.stake;
    RewardsBetweenOk(l, seg.period, ending, stake);
    LastRatio(l, t.periods, d);
    EarnedSnoc(t.stakes[..|t.stakes| - 1], RatiosOf(l, t.periods, d), stake, Amt(l.hist[ending].ratio, d));
  }

  lemma {:induction false} LastRatio(l: Ledger, periods: seq<nat>, d: Denom)
    requires periods != [] && Recorded(l, periods)
    ensures RatiosOf(l, periods, d)[|periods| - 1] == Amt(l.hist[periods[|periods| - 1]].ratio, d)
  {
  }
}
