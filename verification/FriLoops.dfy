/** The loops of the FRI prover and verifier (crates/lean-aggregate/src/fri.rs). */
module FriLoops {
  import opened M31Extension
  import opened FriFold
  import opened Merkle
  import opened Fri

  // ---------------------------------------------------------------- the prover

  /** The Merkle levels of a layer. */
  function Tree(h: Hash, ev: seq<F2>): seq<seq<Digest>>
    requires ev != []
  {
    Levels(h, Padded(h, ev), Depth(|ev|))
  }

  ghost predicate Trees(h: Hash, layers: seq<seq<F2>>, trees: seq<seq<seq<Digest>>>) {
    |trees| == |layers| && forall l :: 0 <= l < |layers| ==> layers[l] != [] && trees[l] == Tree(h, layers[l])
  }

  method CommitLayer(h: Hash, ev: seq<F2>) returns (root: Digest, tree: seq<seq<Digest>>)
    requires ev != []
    ensures root == RootOf(h, ev) && tree == Tree(h, ev)
  {
    hide RootOf, Levels;
    root, tree := MerkleRoot(h, ev);
  }

  method Commit(o: Oracle, evals: seq<F2>)
    returns (layers: seq<seq<F2>>, roots: seq<Digest>, trees: seq<seq<seq<Digest>>>)
    requires |evals| == DOMAIN
    ensures layers == Layers(o, evals, 4) && roots == Roots(o, layers) && Trees(o.hash, layers, trees)
  {
    hide *;
    StartOfRun(o, evals);
    var root, tree := CommitLayer(o.hash, evals);
    layers, roots, trees := [evals], [root], [tree];
    FirstTree(o.hash, evals, tree);
    var cur := evals;
    var li := 0;
    while |cur| > 1
      invariant 0 <= li <= 4 && layers == Layers(o, evals, li) && cur == layers[li] && |cur| == Size(li)
      invariant roots == Roots(o, layers) && Trees(o.hash, layers, trees)
      decreases 4 - li
    {
      SizePositive(li);
      BetaIs(o, evals, li);
      var beta := o.beta(roots, li);
      cur := FoldLayer(cur, beta);
      ProverRound(o, evals, li, cur);
      root, tree := CommitLayer(o.hash, cur);
      TreesAppend(o.hash, layers, trees, cur, tree);
      layers, roots, trees := layers + [cur], roots + [root], trees + [tree];
      li := li + 1;
    }
    SizePositive(li);
  }

  lemma {:induction false} FirstTree(h: Hash, ev: seq<F2>, tree: seq<seq<Digest>>)
    requires ev != [] && tree == Tree(h, ev)
    ensures Trees(h, [ev], [tree])
  {
  }

  lemma {:induction false} TreesAppend(h: Hash, layers: seq<seq<F2>>, trees: seq<seq<seq<Digest>>>,
                                       ev: seq<F2>, tree: seq<seq<Digest>>)
    requires Trees(h, layers, trees) && ev != [] && tree == Tree(h, ev)
    ensures Trees(h, layers + [ev], trees + [tree])
  {
    hide Tree;
  }

  lemma {:induction false} BetaIs(o: Oracle, ev: seq<F2>, k: nat)
    requires |ev| == DOMAIN && k < 4
    ensures Beta(o, ev, k) == o.beta(Roots(o, Layers(o, ev, k)), k)
  {
  }

  lemma {:induction false} StartOfRun(o: Oracle, ev: seq<F2>)
    requires |ev| == DOMAIN
    ensures |ev| == Size(0) && ev != []
    ensures Layers(o, ev, 0) == [ev] && Roots(o, Layers(o, ev, 0)) == [RootOf(o.hash, ev)]
  {
    hide RootOf;
    RootsAppend(o, [], ev);
    assert [] + [ev] == [ev];
  }

  method OpenLayer(h: Hash, ev: seq<F2>, tree: seq<seq<Digest>>, idx: nat) returns (q: QueryLayer)
    requires LayerSize(|ev|) && tree == Tree(h, ev)
    ensures q == Reveal(h, ev, idx)
  {
    hide Levels, Depth, Padded, Two, Open;
    var half := |ev| / 2;
    var i0 := idx % |ev|;
    var i1 := (i0 + half) % |ev|;
    var path0 := MerkleOpen(h, tree, i0, Padded(h, ev), Depth(|ev|));
    var path1 := MerkleOpen(h, tree, i1, Padded(h, ev), Depth(|ev|));
    q := QueryLayer(ev[i0], ev[i1], path0, path1);
  }

  method AnswerQuery(o: Oracle, layers: seq<seq<F2>>, trees: seq<seq<seq<Digest>>>, index: nat) returns (q: FriQuery)
    requires |layers| == 5 && Shaped(layers) && Trees(o.hash, layers, trees)
    ensures q == HonestQuery(o.hash, layers, index)
  {
    hide Reveal, Tree;
    var ql: seq<QueryLayer> := [];
    var idx: nat := index;
    var lvl := 0;
    while lvl < |layers| && |layers[lvl]| != 1
      invariant 0 <= lvl <= 4 && idx % Size(lvl) == index % Size(lvl)
      invariant ql == Reveals(o.hash, layers, index, lvl)
    {
      var ev := layers[lvl];
      var shown := OpenLayer(o.hash, ev, trees[lvl], idx);
      SameReveal(o.hash, ev, idx, index);
      SameResidue(idx, index, |ev|);
      ql := ql + [shown];
      idx := idx % Half(|ev|);
      lvl := lvl + 1;
    }
    q := FriQuery(index, ql);
  }

  /** What a layer reveals depends on the index only up to the layer's size. */
  lemma {:induction false} SameReveal(h: Hash, ev: seq<F2>, idx: nat, index: nat)
    requires LayerSize(|ev|) && idx % |ev| == index % |ev|
    ensures Reveal(h, ev, idx) == Reveal(h, ev, index)
  {
    hide OpeningOf;
  }

  /** The source refuses any other number of evaluations. */
  method Prove(o: Oracle, evals: seq<F2>) returns (proof: FriProof)
    requires |evals| == DOMAIN
    ensures proof == HonestProof(o, evals)
  {
    hide Layers, Roots, HonestQuery, Trees, QueryIndex;
    var layers, roots, trees := Commit(o, evals);
    var queries: seq<FriQuery> := [];
    var q := 0;
    while q < QUERIES
      invariant 0 <= q <= QUERIES && queries == AnswerAll(o, layers, roots[0], q)
    {
      var answer := AnswerQuery(o, layers, trees, QueryIndex(o, roots[0], q));
      queries := queries + [answer];
      q := q + 1;
    }
    proof := FriProof(roots, queries, layers[|layers| - 1][0]);
  }

  // ---------------------------------------------------------------- the verifier

  method VerifyQuery(o: Oracle, proof: FriProof, q: FriQuery) returns (v: Outcome)
    ensures v == QueryVerdict(o, proof, q.layers, 0, q.index, DOMAIN)
  {
    hide Opened, Refold, Exponent, PointInverse, FoldPair;
    var idx: nat, n: nat := q.index, DOMAIN;
    var lvl := 0;
    while lvl < |q.layers|
      invariant 0 <= lvl <= |q.layers| && VerifierSize(n)
      invariant QueryVerdict(o, proof, q.layers, 0, q.index, DOMAIN) == QueryVerdict(o, proof, q.layers, lvl, idx, n)
    {
      if lvl >= |proof.roots| {
        return Reject;
      }
      if n == 0 {
        return Panic;
      }
      var layer := q.layers[lvl];
      var ok := CheckLayer(o.hash, layer, proof.roots[lvl], idx, n);
      if !ok {
        return Reject;
      }
      var folded := RefoldLayer(layer, o.beta(proof.roots[..lvl + 1], lvl), idx, n);
      if n / 2 == 1 && folded != proof.finalValue {
        return Reject;
      }
      idx := idx % Half(n);
      n := n / 2;
      lvl := lvl + 1;
    }
    v := Accept;
  }

  method CheckLayer(h: Hash, layer: QueryLayer, root: Digest, idx: nat, n: nat) returns (ok: bool)
    requires n > 0
    ensures ok <==> Opened(h, layer, root, idx, n)
  {
    hide Checks;
    var i0 := idx % n;
    var i1 := (i0 + n / 2) % n;
    ok := MerkleCheck(h, layer.v0, i0, layer.path0, root);
    if ok {
      ok := MerkleCheck(h, layer.v1, i1, layer.path1, root);
    }
  }

  method RefoldLayer(layer: QueryLayer, beta: F2, idx: nat, n: nat) returns (folded: F2)
    requires n == 1 || LayerSize(n)
    ensures folded == Refold(layer, beta, idx, n)
  {
    hide Exponent, PointInverse, FoldPair;
    folded := Combine(layer.v0, layer.v1, n, idx % n % Half(n), beta);
  }

  lemma {:induction false} NextQuery(o: Oracle, proof: FriProof, q: nat)
    requires proof.roots != [] && q < |proof.queries|
    ensures QueriesVerdict(o, proof, q)
         == if proof.queries[q].index != QueryIndex(o, proof.roots[0], q) then Reject
            else
              var one := QueryVerdict(o, proof, proof.queries[q].layers, 0, proof.queries[q].index, DOMAIN);
              if one != Accept then one else QueriesVerdict(o, proof, q + 1)
  {
    hide QueryVerdict, QueryIndex;
  }

  lemma {:induction false} LastQuery(o: Oracle, proof: FriProof)
    requires proof.roots != []
    ensures QueriesVerdict(o, proof, |proof.queries|) == Accept
  {
    hide QueryVerdict;
  }

  method Verify(o: Oracle, evals: seq<F2>, proof: FriProof) returns (v: Outcome)
    ensures v == Verdict(o, evals, proof)
  {
    hide QueryVerdict, QueriesVerdict, QueryIndex, RootOf;
    if |evals| != DOMAIN || proof.roots == [] {
      return Reject;
    }
    var r0, tree := CommitLayer(o.hash, evals);
    if r0 != proof.roots[0] {
      return Reject;
    }
    if |proof.queries| != QUERIES {
      return Reject;
    }
    var q := 0;
    while q < |proof.queries|
      invariant 0 <= q <= |proof.queries|
      invariant QueriesVerdict(o, proof, 0) == QueriesVerdict(o, proof, q)
    {
      NextQuery(o, proof, q);
      if proof.queries[q].index != QueryIndex(o, proof.roots[0], q) {
        return Reject;
      }
      var one := VerifyQuery(o, proof, proof.queries[q]);
      if one != Accept {
        return one;
      }
      q := q + 1;
    }
    LastQuery(o, proof);
    v := Accept;
  }
}
