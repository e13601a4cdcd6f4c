/** Reference counting of historical reward records (app/upgrades/v520/patch.go): the ledger
    invariant, and what every operation of the patch does to it. */
module RefCounts {
  import opened Dec
  import opened CoinSets
  import opened Distribution

  // ---------------------------------------------------------------- who refers to a period

  function InfosAt(infos: map<Addr, StartingInfo>, p: nat): set<Addr> {
    set a | a in infos && infos[a].period == p
  }

  function EventsAt(events: seq<SlashEvent>, p: nat): nat {
    if events == [] then 0
    else (if events[0].period == p then 1 else 0) + EventsAt(events[1..], p)
  }

  /** Starting infos, slash events and, for the period just ended, the validator itself. */
  function References(l: Ledger, p: nat): nat {
    |InfosAt(l.infos, p)| + EventsAt(l.slashes, p) + (if p + 1 == l.current.period then 1 else 0)
  }

  lemma {:induction false} EventsAtPositive(events: seq<SlashEvent>, p: nat)
    ensures EventsAt(events, p) > 0 <==> exists i :: 0 <= i < |events| && events[i].period == p
  {
    if events != [] {
      EventsAtPositive(events[1..], p);
      if i :| 0 <= i < |events| && events[i].period == p {
        if i > 0 { assert events[1..][i - 1].period == p; }
      }
      if i :| 0 <= i < |events[1..]| && events[1..][i].period == p {
        assert events[i + 1].period == p;
      }
    }
  }

  // ---------------------------------------------------------------- the invariant

  /** A record exists exactly for the referenced periods, and carries their reference count. */
  ghost predicate CountsExact(l: Ledger) {
    forall p: nat :: GetHist(l, p).refs == References(l, p) && (p in l.hist <==> References(l, p) > 0)
  }

  ghost predicate PastOnly(l: Ledger, bound: nat) {
    && (forall a :: a in l.infos ==> l.infos[a].period < bound)
    && (forall i :: 0 <= i < |l.slashes| ==> l.slashes[i].period < bound)
  }

  ghost predicate RatiosGrow(l: Ledger) {
    forall p, q :: p in l.hist && q in l.hist && p <= q ==> Covers(l.hist[q].ratio, l.hist[p].ratio)
  }

  ghost predicate Sane(l: Ledger) {
    && (forall a :: a in l.infos ==> 0 <= l.infos[a].stake)
    && (forall i :: 0 <= i < |l.slashes| ==> 0 <= l.slashes[i].fraction <= ONE)
    && Covers(l.outstanding, l.current.rewards)
  }

  ghost predicate GoodLedger(l: Ledger) {
    && 1 <= l.current.period
    && CountsExact(l)
    && PastOnly(l, l.current.period)
    && RatiosGrow(l)
    && Sane(l)
  }

  /** A period has just been ended and nothing but the validator refers to it yet. */
  ghost predicate JustEnded(l: Ledger) {
    2 <= l.current.period && PastOnly(l, l.current.period - 1)
  }

  lemma {:induction false} NoReferenceAhead(l: Ledger, p: nat)
    requires PastOnly(l, p)
    ensures |InfosAt(l.infos, p)| == 0 && EventsAt(l.slashes, p) == 0
  {
    EventsAtPositive(l.slashes, p);
    assert InfosAt(l.infos, p) == {};
  }

  /** No record lies beyond the period just ended. */
  lemma {:induction false} HistBounded(l: Ledger, p: nat)
    requires GoodLedger(l) && p in l.hist
    ensures p < l.current.period
  {
    assert References(l, p) > 0;
    if p >= l.current.period {
      assert PastOnly(l, p);
      NoReferenceAhead(l, p);
    }
  }

  // ---------------------------------------------------------------- adding and dropping a starting info

  lemma {:induction false} DropInfo(infos: map<Addr, StartingInfo>, a: Addr, p: nat)
    requires a in infos
    ensures |InfosAt(infos - {a}, p)| == |InfosAt(infos, p)| - (if infos[a].period == p then 1 else 0)
  {
    assert InfosAt(infos - {a}, p) == InfosAt(infos, p) - {a};
  }

  lemma {:induction false} AddInfo(infos: map<Addr, StartingInfo>, a: Addr, i: StartingInfo, p: nat)
    requires a !in infos
    ensures |InfosAt(infos[a := i], p)| == |InfosAt(infos, p)| + (if i.period == p then 1 else 0)
  {
    if i.period == p {
      assert InfosAt(infos[a := i], p) == InfosAt(infos, p) + {a};
    } else {
      assert InfosAt(infos[a := i], p) == InfosAt(infos, p);
    }
  }

  // ---------------------------------------------------------------- ending a period

  /** m is l with its current period ended: the previous record lost one reference, and the ended
      period has a fresh record whose ratio has not dropped. */
  ghost predicate Ended(l: Ledger, m: Ledger) {
    var p := l.current.period;
    && 1 <= p && p - 1 in l.hist && p in m.hist
    && m.current == Current(map[], p + 1) && m.infos == l.infos && m.slashes == l.slashes
    && (forall q :: q != p && q != p - 1 ==> (q in m.hist <==> q in l.hist))
    && (forall q :: q != p && q != p - 1 && q in l.hist ==> m.hist[q] == l.hist[q])
    && (p - 1 in m.hist <==> l.hist[p - 1].refs > 1)
    && (p - 1 in m.hist ==> m.hist[p - 1] == Hist(l.hist[p - 1].ratio, l.hist[p - 1].refs - 1))
    && m.hist[p].refs == 1 && Covers(m.hist[p].ratio, l.hist[p - 1].ratio)
  }

  lemma {:induction false} IncrementPeriodValue(l: Ledger, pool: Coins, tokens: nat)
    requires 1 <= l.current.period && l.current.period - 1 in l.hist
    requires l.hist[l.current.period - 1].refs > 0
    requires Covers(l.outstanding, l.current.rewards)
    ensures IncrementPeriod(l, pool, tokens).Ok?
    ensures var (p, h) := (l.current.period, l.hist[l.current.period - 1]);
            var ratio := if tokens == 0 then map[] else QuoDecTruncate(l.current.rewards, tokens * ONE);
            var m := IncrementPeriod(l, pool, tokens).value.0;
            && m.current == Current(map[], p + 1) && m.infos == l.infos && m.slashes == l.slashes
            && m.hist == (if h.refs == 1 then l.hist - {p - 1} else l.hist[p - 1 := h.(refs := h.refs - 1)])
                         [p := Hist(Plus(h.ratio, ratio), 1)]
            && (tokens > 0 ==> m.outstanding == l.outstanding && IncrementPeriod(l, pool, tokens).value.1 == pool)
  {
    hide Covers, QuoDecTruncate, Plus, Minus;
  }

  lemma {:induction false} IncrementPeriodEnds(l: Ledger, pool: Coins, tokens: nat)
    requires 1 <= l.current.period && l.current.period - 1 in l.hist
    requires l.hist[l.current.period - 1].refs > 0
    requires Covers(l.outstanding, l.current.rewards)
    ensures IncrementPeriod(l, pool, tokens).Ok?
    ensures Ended(l, IncrementPeriod(l, pool, tokens).value.0)
  {
    hide Covers, QuoDecTruncate, Plus, Minus, IncrementPeriod;
    IncrementPeriodValue(l, pool, tokens);
    var ratio := if tokens == 0 then map[] else QuoDecTruncate(l.current.rewards, tokens * ONE);
    PlusCovers(l.hist[l.current.period - 1].ratio, ratio);
  }

  lemma {:induction false} LastRecord(l: Ledger)
    requires GoodLedger(l)
    ensures l.current.period - 1 in l.hist && l.hist[l.current.period - 1].refs > 0
  {
    assert References(l, l.current.period - 1) > 0;
  }

  lemma {:induction false} EndedCounts(l: Ledger, m: Ledger)
    requires GoodLedger(l) && Ended(l, m)
    ensures CountsExact(m)
  {
    hide InfosAt, EventsAt, RatiosGrow, Sane, Covers;
    var p := l.current.period;
    forall q: nat
      ensures GetHist(m, q).refs == References(m, q) && (q in m.hist <==> References(m, q) > 0)
    {
      assert GetHist(l, q).refs == References(l, q) && (q in l.hist <==> References(l, q) > 0);
      if q == p { NoReferenceAhead(l, p); }
    }
  }

  lemma {:induction false} EndedRatios(l: Ledger, m: Ledger)
    requires GoodLedger(l) && Ended(l, m)
    ensures RatiosGrow(m)
  {
    hide CountsExact, PastOnly, Sane, Covers;
    var p := l.current.period;
    forall q, r | q in m.hist && r in m.hist && q <= r
      ensures Covers(m.hist[r].ratio, m.hist[q].ratio)
    {
      if q == p {
        if r != p { HistBounded(l, r); }
        CoversSelf(m.hist[p].ratio);
      } else {
        HistBounded(l, q);
        if r == p {
          CoversTransitive(m.hist[p].ratio, l.hist[p - 1].ratio, l.hist[q].ratio);
        }
      }
    }
  }

  lemma {:induction false} CoversSelf(x: Coins)
    ensures Covers(x, x)
  {
  }

  lemma {:induction false} EndedFacts(l: Ledger, m: Ledger)
    requires Ended(l, m)
    ensures m.current == Current(map[], l.current.period + 1) && m.infos == l.infos && m.slashes == l.slashes
  {
  }

  lemma {:induction false} EndedRest(l: Ledger, m: Ledger)
    requires 1 <= l.current.period && PastOnly(l, l.current.period) && Sane(l) && Ended(l, m)
    ensures m.current.period == l.current.period + 1
    ensures PastOnly(m, m.current.period - 1) && PastOnly(m, m.current.period) && Sane(m)
  {
    EndedFacts(l, m);
    hide Ended;
  }

  lemma {:induction false} EndedGood(l: Ledger, m: Ledger)
    requires GoodLedger(l) && Ended(l, m)
    ensures GoodLedger(m) && JustEnded(m)
  {
    hide CountsExact, RatiosGrow, PastOnly, Sane, Ended;
    EndedCounts(l, m);
    EndedRatios(l, m);
    EndedRest(l, m);
  }

  /** Ending a period never panics from a good ledger and leaves a good ledger, whose new last
      period is referenced by the validator alone. */
  lemma {:induction false} IncrementPeriodGood(l: Ledger, pool: Coins, tokens: nat)
    requires GoodLedger(l)
    ensures IncrementPeriod(l, pool, tokens).Ok?
    ensures var m := IncrementPeriod(l, pool, tokens).value.0;
            GoodLedger(m) && JustEnded(m) && Ended(l, m)
  {
    hide IncrementPeriod, CountsExact, RatiosGrow, Ended, PastOnly, JustEnded;
    LastRecord(l);
    IncrementPeriodEnds(l, pool, tokens);
    EndedGood(l, IncrementPeriod(l, pool, tokens).value.0);
  }

  // ---------------------------------------------------------------- leaving and rejoining

  lemma {:induction false} LeaveCounts(l: Ledger, a: Addr, m: Ledger)
    requires CountsExact(l) && a in l.infos && DecrementRef(l, l.infos[a].period).Ok?
    requires m == DecrementRef(l, l.infos[a].period).value.(infos := l.infos - {a})
    ensures CountsExact(m)
  {
    hide InfosAt, EventsAt;
    forall q: nat
      ensures GetHist(m, q).refs == References(m, q) && (q in m.hist <==> References(m, q) > 0)
    {
      assert GetHist(l, q).refs == References(l, q) && (q in l.hist <==> References(l, q) > 0);
      DropInfo(l.infos, a, q);
    }
  }

  lemma {:induction false} InfoCounted(l: Ledger, a: Addr)
    requires CountsExact(l) && a in l.infos
    ensures GetHist(l, l.infos[a].period).refs > 0 && l.infos[a].period in l.hist
  {
    hide EventsAt;
    var p := l.infos[a].period;
    assert a in InfosAt(l.infos, p);
    assert References(l, p) > 0;
  }

  /** Dropping the starting info of a delegation together with its reference keeps the counts. */
  lemma {:induction false} LeaveGood(l: Ledger, a: Addr)
    requires GoodLedger(l) && a in l.infos
    ensures DecrementRef(l, l.infos[a].period).Ok?
    ensures GoodLedger(DecrementRef(l, l.infos[a].period).value.(infos := l.infos - {a}))
  {
    hide CountsExact, References, Covers;
    InfoCounted(l, a);
    LeaveCounts(l, a, DecrementRef(l, l.infos[a].period).value.(infos := l.infos - {a}));
  }

  lemma {:induction false} JoinCounts(l: Ledger, a: Addr, i: StartingInfo, m: Ledger)
    requires CountsExact(l) && a !in l.infos && IncrementRef(l, i.period).Ok?
    requires m == IncrementRef(l, i.period).value.(infos := l.infos[a := i])
    ensures CountsExact(m)
  {
    hide InfosAt, EventsAt;
    forall q: nat
      ensures GetHist(m, q).refs == References(m, q) && (q in m.hist <==> References(m, q) > 0)
    {
      assert GetHist(l, q).refs == References(l, q) && (q in l.hist <==> References(l, q) > 0);
      AddInfo(l.infos, a, i, q);
    }
  }

  lemma {:induction false} EndedHasOne(l: Ledger)
    requires CountsExact(l) && JustEnded(l)
    ensures GetHist(l, l.current.period - 1).refs == 1 && l.current.period - 1 in l.hist
  {
    hide InfosAt, EventsAt;
    var p := l.current.period - 1;
    NoReferenceAhead(l, p);
    assert References(l, p) == 1;
  }

  /** Starting a delegation at the period just ended adds one reference, from one to two. */
  lemma {:induction false} JoinGood(l: Ledger, a: Addr, stake: Dec, height: nat)
    requires GoodLedger(l) && JustEnded(l) && a !in l.infos && 0 <= stake
    ensures GetHist(l, l.current.period - 1).refs == 1
    ensures IncrementRef(l, l.current.period - 1).Ok?
    ensures GoodLedger(IncrementRef(l, l.current.period - 1).value.(
                         infos := l.infos[a := StartingInfo(l.current.period - 1, stake, height)]))
  {
    hide CountsExact, References, Covers;
    EndedHasOne(l);
    var i := StartingInfo(l.current.period - 1, stake, height);
    JoinCounts(l, a, i, IncrementRef(l, i.period).value.(infos := l.infos[a := i]));
  }
}
