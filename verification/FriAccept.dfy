/** Which proofs the FRI verifier of crates/lean-aggregate/src/fri.rs accepts, for every proof and not
    only for honest ones. */
module FriAccept {
  import opened M31Extension
  import opened FriFold
  import opened Merkle
  import opened Fri

  // ---------------------------------------------------------------- one query

  /** The size the verifier assumes on each layer; from the sixth on it is zero. */
  function Width(l: nat): nat { if l < 5 then Size(l) else 0 }

  /** Layer l opens under its own root, and layer 3 folds to the final value. */
  predicate LayerGood(o: Oracle, proof: FriProof, q: FriQuery, l: nat)
    requires l < 5 && l < |q.layers| && l < |proof.roots|
  {
    && Opened(o.hash, q.layers[l], proof.roots[l], q.index, Size(l))
    && (l == 3 ==> Refold(q.layers[3], o.beta(proof.roots[..4], 3), q.index, 2) == proof.finalValue)
  }

  predicate LayersGood(o: Oracle, proof: FriProof, q: FriQuery, lo: nat, hi: nat)
    requires hi <= 5 && hi <= |q.layers| && hi <= |proof.roots|
  {
    forall l :: lo <= l < hi ==> LayerGood(o, proof, q, l)
  }

  /** At most five layers, no more than roots, and all of them good. */
  predicate QueryAccepted(o: Oracle, proof: FriProof, q: FriQuery, lo: nat) {
    |q.layers| <= 5 && |q.layers| <= |proof.roots| && LayersGood(o, proof, q, lo, |q.layers|)
  }

  /** A sixth layer with a sixth root, after five good ones. */
  predicate QueryPanics(o: Oracle, proof: FriProof, q: FriQuery, lo: nat) {
    |q.layers| > 5 && |proof.roots| > 5 && LayersGood(o, proof, q, lo, 5)
  }

  function Judged(o: Oracle, proof: FriProof, q: FriQuery, lo: nat): Outcome {
    if QueryAccepted(o, proof, q, lo) then Accept else if QueryPanics(o, proof, q, lo) then Panic else Reject
  }

  lemma {:induction false} WidthHalves(l: nat)
    requires l < 5
    ensures Width(l) > 0 && Width(l) == Size(l) && Width(l) / 2 == Width(l + 1)
    ensures VerifierSize(Width(l)) && VerifierSize(Width(l + 1)) && (Width(l) / 2 == 1 <==> l == 3)
    ensures l < 4 ==> LayerSize(Width(l)) && Half(Width(l)) == Width(l + 1)
    ensures l == 3 ==> Width(l) == 2
  {
  }

  /** Indices that agree on a layer of size n. */
  predicate SameIndex(a: nat, b: nat, n: nat) { n == 0 || a % n == b % n }

  /** What the verifier looks at depends on the index only up to the layer's size. */
  lemma {:induction false} IndexModulo(h: Hash, q: QueryLayer, root: Digest, beta: F2, a: nat, b: nat, n: nat)
    requires n > 0 && SameIndex(a, b, n)
    ensures Opened(h, q, root, a, n) == Opened(h, q, root, b, n)
    ensures Refold(q, beta, a, n) == Refold(q, beta, b, n)
  {
    hide Checks, FoldPair, PointInverse, Exponent, Half;
  }

  lemma {:induction false} NextIndex(a: nat, b: nat, l: nat, n: nat)
    requires l < 5 && n == Width(l) && SameIndex(a, b, n)
    ensures SameIndex(a % Half(n), b, n / 2)
  {
    WidthHalves(l);
    if l < 4 {
      SameResidue(a, b, n);
    }
  }

  /** One more layer in front. */
  lemma {:induction false} JudgedStep(o: Oracle, proof: FriProof, q: FriQuery, l: nat)
    requires l < 5 && l < |q.layers|
    ensures l >= |proof.roots| ==> Judged(o, proof, q, l) == Reject
    ensures l < |proof.roots| && !LayerGood(o, proof, q, l) ==> Judged(o, proof, q, l) == Reject
    ensures l < |proof.roots| && LayerGood(o, proof, q, l) ==> Judged(o, proof, q, l) == Judged(o, proof, q, l + 1)
  {
    hide LayerGood;
  }

  lemma {:induction false} JudgedEnd(o: Oracle, proof: FriProof, q: FriQuery, l: nat)
    requires l == |q.layers| || (l == 5 && l < |q.layers|)
    requires l <= 5
    ensures l == |q.layers| && l <= |proof.roots| ==> Judged(o, proof, q, l) == Accept
    ensures l < |q.layers| ==> Judged(o, proof, q, l) == if |proof.roots| > 5 then Panic else Reject
  {
    hide LayerGood;
  }

  lemma {:induction false} VerdictFrom(o: Oracle, proof: FriProof, q: FriQuery, l: nat, idx: nat, n: nat)
    requires l <= 5 && l <= |q.layers| && n == Width(l) && VerifierSize(n) && l <= |proof.roots|
    requires SameIndex(idx, q.index, n)
    ensures QueryVerdict(o, proof, q.layers, l, idx, n) == Judged(o, proof, q, l)
    decreases 5 - l
  {
    hide Opened, Refold, Judged, LayerGood, SameIndex;
    if l == |q.layers| || l == 5 {
      JudgedEnd(o, proof, q, l);
    } else {
      WidthHalves(l);
      JudgedStep(o, proof, q, l);
      if l < |proof.roots| {
        OneLayer(o, proof, q, l, idx, n);
        if LayerGood(o, proof, q, l) {
          NextIndex(idx, q.index, l, n);
          VerdictFrom(o, proof, q, l + 1, idx % Half(n), n / 2);
        }
      }
    }
  }

  lemma {:induction false} OneLayer(o: Oracle, proof: FriProof, q: FriQuery, l: nat, idx: nat, n: nat)
    requires l < 5 && l < |q.layers| && l < |proof.roots| && n == Width(l) && n > 0 && VerifierSize(n)
    requires SameIndex(idx, q.index, n) && VerifierSize(n / 2)
    ensures QueryVerdict(o, proof, q.layers, l, idx, n)
         == if LayerGood(o, proof, q, l) then QueryVerdict(o, proof, q.layers, l + 1, idx % Half(n), n / 2) else Reject
  {
    WidthHalves(l);
    hide Opened, Refold, Width, Size, SameIndex, Half, QueryVerdict;
    VerdictUnfold(o, proof, q.layers, l, idx, n);
    IndexModulo(o.hash, q.layers[l], proof.roots[l], o.beta(proof.roots[..l + 1], l), idx, q.index, n);
  }

  lemma {:induction false} VerdictUnfold(o: Oracle, proof: FriProof, layers: seq<QueryLayer>, l: nat, idx: nat, n: nat)
    requires l < |layers| && l < |proof.roots| && n > 0 && VerifierSize(n) && VerifierSize(n / 2)
    ensures QueryVerdict(o, proof, layers, l, idx, n)
         == if !Opened(o.hash, layers[l], proof.roots[l], idx, n)
               || (n / 2 == 1 && Refold(layers[l], o.beta(proof.roots[..l + 1], l), idx, n) != proof.finalValue)
            then Reject else QueryVerdict(o, proof, layers, l + 1, idx % Half(n), n / 2)
  {
    hide Opened, Refold, Half;
  }

  /** The exact outcome of one query. */
  lemma {:induction false} QueryExactly(o: Oracle, proof: FriProof, q: FriQuery)
    ensures QueryVerdict(o, proof, q.layers, 0, q.index, DOMAIN) == Judged(o, proof, q, 0)
  {
    hide QueryVerdict, Judged;
    VerdictFrom(o, proof, q, 0, q.index, DOMAIN);
  }

  // ---------------------------------------------------------------- the whole proof

  /** The commitment, the number of queries and the shape of the proof before any query. */
  predicate HeaderGood(o: Oracle, ev: seq<F2>, proof: FriProof) {
    |ev| == DOMAIN && proof.roots != [] && RootOf(o.hash, ev) == proof.roots[0] && |proof.queries| == QUERIES
  }

  predicate Drawn(o: Oracle, proof: FriProof, k: nat)
    requires proof.roots != [] && k < |proof.queries|
  {
    proof.queries[k].index == QueryIndex(o, proof.roots[0], k)
  }

  predicate QueryGood(o: Oracle, proof: FriProof, k: nat)
    requires proof.roots != [] && k < |proof.queries|
  {
    Drawn(o, proof, k) && QueryAccepted(o, proof, proof.queries[k], 0)
  }

  /** Query j panics, after the good ones from lo on. */
  predicate PanicsAt(o: Oracle, proof: FriProof, lo: nat, j: nat)
    requires proof.roots != [] && j < |proof.queries|
  {
    && (forall k :: lo <= k < j ==> QueryGood(o, proof, k))
    && Drawn(o, proof, j) && QueryPanics(o, proof, proof.queries[j], 0)
  }

  ghost predicate AllGood(o: Oracle, proof: FriProof, lo: nat)
    requires proof.roots != []
  {
    forall k :: lo <= k < |proof.queries| ==> QueryGood(o, proof, k)
  }

  ghost predicate SomePanics(o: Oracle, proof: FriProof, lo: nat)
    requires proof.roots != []
  {
    exists k :: 0 <= k < |proof.queries| && lo <= k && PanicsAt(o, proof, lo, k)
  }

  /** Query lo goes first. */
  lemma {:induction false} FirstQuery(o: Oracle, proof: FriProof, lo: nat)
    requires proof.roots != [] && lo < |proof.queries|
    ensures AllGood(o, proof, lo) <==> QueryGood(o, proof, lo) && AllGood(o, proof, lo + 1)
    ensures SomePanics(o, proof, lo) <==>
            || (Drawn(o, proof, lo) && QueryPanics(o, proof, proof.queries[lo], 0))
            || (QueryGood(o, proof, lo) && SomePanics(o, proof, lo + 1))
  {
    hide QueryGood, QueryPanics, Drawn;
    if SomePanics(o, proof, lo) {
      var k :| 0 <= k < |proof.queries| && lo <= k && PanicsAt(o, proof, lo, k);
      if k > lo { assert PanicsAt(o, proof, lo + 1, k); }
    }
    if QueryGood(o, proof, lo) && SomePanics(o, proof, lo + 1) {
      var next := lo + 1;
      var k :| 0 <= k < |proof.queries| && next <= k && PanicsAt(o, proof, next, k);
      assert PanicsAt(o, proof, lo, k);
    }
    if Drawn(o, proof, lo) && QueryPanics(o, proof, proof.queries[lo], 0) {
      assert PanicsAt(o, proof, lo, lo);
    }
  }

  lemma {:induction false} QueriesFrom(o: Oracle, proof: FriProof, lo: nat)
    requires proof.roots != [] && lo <= |proof.queries|
    ensures QueriesVerdict(o, proof, lo) == Accept <==> AllGood(o, proof, lo)
    ensures QueriesVerdict(o, proof, lo) == Panic <==> SomePanics(o, proof, lo)
    decreases |proof.queries| - lo
  {
    if lo < |proof.queries| {
      hide QueryVerdict, QueryAccepted, QueryPanics, AllGood, SomePanics;
      QueryExactly(o, proof, proof.queries[lo]);
      QueriesFrom(o, proof, lo + 1);
      NotBoth(o, proof, proof.queries[lo]);
      FirstQuery(o, proof, lo);
    }
  }

  lemma {:induction false} NotBoth(o: Oracle, proof: FriProof, q: FriQuery)
    ensures !(QueryAccepted(o, proof, q, 0) && QueryPanics(o, proof, q, 0))
  {
    hide LayersGood;
  }

  /** The exact outcome of the verifier on every proof: it accepts when the first root commits to the
      values and all four queries are drawn from it and good; it panics when a query with a sixth layer
      follows good ones; it rejects everything else. */
  lemma {:induction false} AcceptExactly(o: Oracle, ev: seq<F2>, proof: FriProof)
    ensures Verdict(o, ev, proof) == Accept <==> HeaderGood(o, ev, proof) && AllGood(o, proof, 0)
    ensures Verdict(o, ev, proof) == Panic <==> HeaderGood(o, ev, proof) && SomePanics(o, proof, 0)
  {
    hide QueriesVerdict, AllGood, SomePanics, RootOf;
    if proof.roots != [] {
      QueriesFrom(o, proof, 0);
    }
  }

  // ---------------------------------------------------------------- what acceptance does and does not say

  /** Queries without layers. */
  function BareQueries(o: Oracle, root: Digest): (queries: seq<FriQuery>)
    ensures |queries| == QUERIES
  {
    seq(QUERIES, k requires 0 <= k => FriQuery(QueryIndex(o, root, k), []))
  }

  /** The number of layers a query reveals is not checked, so a proof without layers is accepted for
      any values and any final value. */
  lemma {:induction false} BareProofAccepted(o: Oracle, ev: seq<F2>, final: F2)
    requires |ev| == DOMAIN
    ensures Verdict(o, ev, FriProof([RootOf(o.hash, ev)], BareQueries(o, RootOf(o.hash, ev)), final)) == Accept
  {
    hide RootOf, Verdict, QueryGood, BareQueries, QueryIndex;
    var root := RootOf(o.hash, ev);
    var proof := FriProof([root], BareQueries(o, root), final);
    forall k | 0 <= k < QUERIES
      ensures QueryGood(o, proof, k)
    {
      BareQueryGood(o, proof, k);
    }
    AcceptExactly(o, ev, proof);
  }

  lemma {:induction false} BareQueryGood(o: Oracle, proof: FriProof, k: nat)
    requires proof.roots != [] && k < QUERIES && proof.queries == BareQueries(o, proof.roots[0])
    ensures QueryGood(o, proof, k)
  {
    hide QueryIndex, LayerGood;
  }

  /** A layer that shows the value f twice, where the root is the hash of f and the paths are empty. */
  function Flat(f: F2): QueryLayer { QueryLayer(f, f, [], []) }

  function Flats(f: F2, k: nat): (layers: seq<QueryLayer>)
    ensures |layers| == k && forall l :: 0 <= l < k ==> layers[l] == Flat(f)
  {
    seq(k, _ => Flat(f))
  }

  function UnfoldedQuery(h: Hash, ev: seq<F2>, f: F2, k: nat, index: nat): (q: FriQuery)
    requires |ev| == DOMAIN
    ensures q.index == index && |q.layers| == k + 1 && q.layers[0] == Reveal(h, ev, index)
    ensures forall l :: 0 < l <= k ==> q.layers[l] == Flat(f)
  {
    FriQuery(index, [Reveal(h, ev, index)] + Flats(f, k))
  }

  function UnfoldedQueries(o: Oracle, ev: seq<F2>, f: F2, k: nat): (queries: seq<FriQuery>)
    requires |ev| == DOMAIN
    ensures |queries| == QUERIES
    ensures forall q :: 0 <= q < QUERIES ==>
              queries[q] == UnfoldedQuery(o.hash, ev, f, k, QueryIndex(o, RootOf(o.hash, ev), q))
  {
    hide RootOf, QueryIndex, UnfoldedQuery;
    seq(QUERIES, q requires 0 <= q => UnfoldedQuery(o.hash, ev, f, k, QueryIndex(o, RootOf(o.hash, ev), q)))
  }

  function UnfoldedRoots(h: Hash, ev: seq<F2>, f: F2, k: nat): (roots: seq<Digest>)
    requires |ev| == DOMAIN
    ensures |roots| == k + 1 && roots[0] == RootOf(h, ev) && forall l :: 0 < l <= k ==> roots[l] == h.leaf(f)
  {
    hide RootOf;
    [RootOf(h, ev)] + seq(k, _ => h.leaf(f))
  }

  /** The true first layer, then k flat ones, none of them folded from the one before. */
  function Unfolded(o: Oracle, ev: seq<F2>, f: F2, k: nat): FriProof
    requires |ev| == DOMAIN
  {
    FriProof(UnfoldedRoots(o.hash, ev, f, k), UnfoldedQueries(o, ev, f, k), f)
  }

  lemma {:induction false} FlatOpens(h: Hash, f: F2, idx: nat, n: nat)
    requires n > 0
    ensures Opened(h, Flat(f), h.leaf(f), idx, n)
  {
    ClimbNone(h, h.leaf(f), idx % n);
    ClimbNone(h, h.leaf(f), (idx % n + n / 2) % n);
  }

  lemma {:induction false} FlatFolds(f: F2, beta: F2, idx: nat, n: nat)
    requires n > 0
    ensures Refold(Flat(f), beta, idx, n) == f
  {
    hide FoldPair, PointInverse, Exponent;
    FoldEqual(f, PointInverse(Exponent(n, idx % n % Half(n))), beta);
  }

  lemma {:induction false} UnfoldedLayerGood(o: Oracle, ev: seq<F2>, f: F2, k: nat, q: nat, l: nat)
    requires |ev| == DOMAIN && q < QUERIES && l < 5 && l <= k
    ensures var proof := Unfolded(o, ev, f, k); LayerGood(o, proof, proof.queries[q], l)
  {
    hide UnfoldedRoots, UnfoldedQueries, UnfoldedQuery, Opened, Refold, Reveal, RootOf, QueryIndex, Flat;
    var proof := Unfolded(o, ev, f, k);
    var index := proof.queries[q].index;
    if l == 0 {
      RevealOpens(o.hash, ev, index, index);
    } else {
      FlatOpens(o.hash, f, index, Size(l));
      if l == 3 {
        FlatFolds(f, o.beta(proof.roots[..4], 3), index, 2);
      }
    }
  }

  lemma {:induction false} UnfoldedQueryGood(o: Oracle, ev: seq<F2>, f: F2, k: nat, q: nat)
    requires |ev| == DOMAIN && q < QUERIES
    ensures var proof := Unfolded(o, ev, f, k);
            && Drawn(o, proof, q)
            && (k <= 4 ==> QueryAccepted(o, proof, proof.queries[q], 0))
            && (k > 4 ==> QueryPanics(o, proof, proof.queries[q], 0))
  {
    hide UnfoldedRoots, UnfoldedQueries, UnfoldedQuery, LayerGood, Reveal, RootOf, QueryIndex, Flat;
    var proof := Unfolded(o, ev, f, k);
    forall l | 0 <= l < 5 && l <= k
      ensures LayerGood(o, proof, proof.queries[q], l)
    {
      UnfoldedLayerGood(o, ev, f, k, q, l);
    }
  }

  /** Layers that are not folds of each other are accepted, for any values and any final value; one
      layer more and the verifier panics. */
  lemma {:induction false} UnfoldedAccepted(o: Oracle, ev: seq<F2>, f: F2, k: nat)
    requires |ev| == DOMAIN
    ensures Verdict(o, ev, Unfolded(o, ev, f, k)) == if k <= 4 then Accept else Panic
  {
    hide UnfoldedRoots, UnfoldedQueries, UnfoldedQuery, Verdict, RootOf, QueryAccepted, QueryPanics, Drawn;
    var proof := Unfolded(o, ev, f, k);
    forall q | 0 <= q < QUERIES
      ensures k <= 4 ==> QueryGood(o, proof, q)
    {
      UnfoldedQueryGood(o, ev, f, k, q);
    }
    if k > 4 {
      UnfoldedQueryGood(o, ev, f, k, 0);
      assert PanicsAt(o, proof, 0, 0);
    }
    AcceptExactly(o, ev, proof);
  }

  /** In particular the second layer need not show the fold of the first. */
  lemma {:induction false} FoldNotCompared(o: Oracle, ev: seq<F2>, f: F2)
    requires |ev| == DOMAIN
    requires var root := RootOf(o.hash, ev);
             f != Refold(Reveal(o.hash, ev, QueryIndex(o, root, 0)), o.beta([root], 0), QueryIndex(o, root, 0), 16)
    ensures var proof := Unfolded(o, ev, f, 3);
            var q := proof.queries[0];
            && Verdict(o, ev, proof) == Accept && |q.layers| == 4
            && Refold(q.layers[0], o.beta(proof.roots[..1], 0), q.index, 16) !in {q.layers[1].v0, q.layers[1].v1}
  {
    hide UnfoldedRoots, UnfoldedQueries, UnfoldedQuery, Verdict, RootOf, Refold, Reveal, QueryIndex;
    UnfoldedAccepted(o, ev, f, 3);
    var proof := Unfolded(o, ev, f, 3);
    assert proof.roots[..1] == [RootOf(o.hash, ev)];
  }

  /** No collision among the inputs hashed for the values and while checking one opening. */
  ghost predicate NoCollisionAt(h: Hash, ev: seq<F2>, v: F2, i: nat, path: seq<Digest>)
    requires |ev| == DOMAIN
  {
    TwoTo4();
    CollisionFree(h, ValueSet(ev) + {v}, TreePairs(h, Leaves(h, ev), 4) + ClimbPairs(h, h.leaf(v), i, path))
  }

  ghost predicate NoCollisionOn(h: Hash, ev: seq<F2>, layer: QueryLayer, index: nat)
    requires |ev| == DOMAIN
  {
    && NoCollisionAt(h, ev, layer.v0, index % 16, layer.path0)
    && NoCollisionAt(h, ev, layer.v1, (index % 16 + 8) % 16, layer.path1)
  }

  lemma {:induction false} OpenedIsRevealed(h: Hash, ev: seq<F2>, layer: QueryLayer, index: nat)
    requires |ev| == DOMAIN && NoCollisionOn(h, ev, layer, index) && Opened(h, layer, RootOf(h, ev), index, 16)
    ensures layer == Reveal(h, ev, index)
  {
    hide CollisionFree, TreePairs, ClimbPairs, Leaves, ValueSet, Checks, OpeningOf, RootOf, Two;
    TwoTo4();
    ChecksExactly(h, ev, 4, layer.v0, index % 16, layer.path0);
    ChecksExactly(h, ev, 4, layer.v1, (index % 16 + 8) % 16, layer.path1);
  }

  /** Unless hashing collides, the values an accepted proof shows on its first layer are the committed
      ones, with their openings. */
  lemma {:induction false} FirstLayerBound(o: Oracle, ev: seq<F2>, proof: FriProof, k: nat)
    requires Verdict(o, ev, proof) == Accept && |ev| == DOMAIN
    requires k < |proof.queries| && proof.queries[k].layers != []
    requires NoCollisionOn(o.hash, ev, proof.queries[k].layers[0], proof.queries[k].index)
    ensures proof.queries[k].layers[0] == Reveal(o.hash, ev, proof.queries[k].index)
  {
    hide Verdict, RootOf, NoCollisionOn, Opened, QueryGood, Reveal;
    AcceptExactly(o, ev, proof);
    GoodQueryOpens(o, proof, k);
    OpenedIsRevealed(o.hash, ev, proof.queries[k].layers[0], proof.queries[k].index);
  }

  lemma {:induction false} GoodQueryOpens(o: Oracle, proof: FriProof, k: nat)
    requires proof.roots != [] && k < |proof.queries| && proof.queries[k].layers != [] && QueryGood(o, proof, k)
    ensures Opened(o.hash, proof.queries[k].layers[0], proof.roots[0], proof.queries[k].index, 16)
  {
    hide Opened, Drawn, LayerGood;
    assert LayerGood(o, proof, proof.queries[k], 0);
    GoodIsOpened(o, proof, proof.queries[k]);
  }

  lemma {:induction false} GoodIsOpened(o: Oracle, proof: FriProof, q: FriQuery)
    requires q.layers != [] && proof.roots != [] && LayerGood(o, proof, q, 0)
    ensures Opened(o.hash, q.layers[0], proof.roots[0], q.index, 16)
  {
    hide Opened, Refold;
  }
}
