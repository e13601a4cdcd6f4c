/** The FRI prover and verifier of crates/lean-aggregate/src/fri.rs, over arbitrary hash functions and
    challenges: exactly when the verifier accepts what the prover made. */
module Fri {
  import opened NumberTheory
  import opened M31Extension
  import opened M31Omega
  import opened FriFold
  import opened FriCode
  import opened Merkle

  /** The hashes of the trees, the fold challenges drawn from the roots so far, and the query positions
      drawn from the first root. */
  datatype Oracle = Oracle(hash: Hash, beta: (seq<Digest>, nat) -> F2, query: (Digest, nat) -> nat)

  datatype QueryLayer = QueryLayer(v0: F2, v1: F2, path0: seq<Digest>, path1: seq<Digest>)
  datatype FriQuery = FriQuery(index: nat, layers: seq<QueryLayer>)
  datatype FriProof = FriProof(roots: seq<Digest>, queries: seq<FriQuery>, finalValue: F2)

  const QUERIES: nat := 4

  function QueryIndex(o: Oracle, root: Digest, q: nat): nat { o.query(root, q) % DOMAIN }

  // ---------------------------------------------------------------- the honest proof

  /** The number of values on each layer. */
  function Size(l: nat): (n: nat)
    ensures n > 0
  {
    if l == 0 then 16 else if l == 1 then 8 else if l == 2 then 4 else if l == 3 then 2 else 1
  }

  ghost predicate Shaped(layers: seq<seq<F2>>) {
    forall l :: 0 <= l < |layers| ==> |layers[l]| == Size(l)
  }

  function Roots(o: Oracle, layers: seq<seq<F2>>): (roots: seq<Digest>)
    requires Shaped(layers)
    ensures |roots| == |layers|
    ensures forall l :: 0 <= l < |layers| ==> roots[l] == RootOf(o.hash, layers[l])
  {
    if layers == [] then [] else
    var k := |layers| - 1;
    Roots(o, layers[..k]) + [RootOf(o.hash, layers[k])]
  }

  lemma {:induction false} SizeHalves(l: nat)
    requires l < 4
    ensures LayerSize(Size(l)) && Size(l) / 2 == Size(l + 1)
  {
  }

  /** The fold of the last layer by a challenge over all roots so far. */
  function Folded(o: Oracle, before: seq<seq<F2>>): (layer: seq<F2>)
    requires 1 <= |before| <= 4 && Shaped(before)
    ensures LayerSize(|before[|before| - 1]|) && |layer| == Size(|before|)
  {
    hide Roots, Fold, Size, LayerSize;
    var k := |before| - 1;
    SizeHalves(k);
    Fold(before[k], o.beta(Roots(o, before), k))
  }

  lemma {:induction false} ShapedSnoc(before: seq<seq<F2>>, layer: seq<F2>)
    requires Shaped(before) && |layer| == Size(|before|)
    ensures Shaped(before + [layer]) && (before + [layer])[..|before|] == before
  {
    hide Size;
  }

  function Extend(o: Oracle, before: seq<seq<F2>>): (layers: seq<seq<F2>>)
    requires 1 <= |before| <= 4 && Shaped(before)
    ensures |layers| == |before| + 1 && Shaped(layers) && layers[..|before|] == before
    ensures layers[|before|] == Folded(o, before)
  {
    hide Folded, Fold, LayerSize, Shaped, Size;
    ShapedSnoc(before, Folded(o, before));
    before + [Folded(o, before)]
  }

  /** The evaluations and their k successive folds. */
  function Layers(o: Oracle, ev: seq<F2>, k: nat): (layers: seq<seq<F2>>)
    requires |ev| == DOMAIN && k <= 4
    ensures |layers| == k + 1 && layers[0] == ev && Shaped(layers)
  {
    if k == 0 then [ev] else Extend(o, Layers(o, ev, k - 1))
  }

  function Beta(o: Oracle, ev: seq<F2>, k: nat): F2
    requires |ev| == DOMAIN && k <= 4
  {
    o.beta(Roots(o, Layers(o, ev, k)), k)
  }

  /** What a query reveals on a layer: the value at its index, the one half a domain further, and both
      openings. */
  function Reveal(h: Hash, ev: seq<F2>, index: nat): QueryLayer
    requires LayerSize(|ev|)
  {
    var n := |ev|;
    var i0 := index % n;
    var i1 := (i0 + n / 2) % n;
    QueryLayer(ev[i0], ev[i1], OpeningOf(h, ev, i0), OpeningOf(h, ev, i1))
  }

  /** What a query reveals on the first k layers. */
  function Reveals(h: Hash, layers: seq<seq<F2>>, index: nat, k: nat): (r: seq<QueryLayer>)
    requires k <= 4 && k <= |layers| && Shaped(layers)
    ensures |r| == k
  {
    if k == 0 then [] else Reveals(h, layers, index, k - 1) + [Reveal(h, layers[k - 1], index)]
  }

  function HonestQuery(h: Hash, layers: seq<seq<F2>>, index: nat): (q: FriQuery)
    requires |layers| == 5 && Shaped(layers)
    ensures q.index == index && |q.layers| == 4
  {
    FriQuery(index, Reveals(h, layers, index, 4))
  }

  /** The layers of one honest query. */
  function Answers(o: Oracle, ev: seq<F2>, index: nat): (layers: seq<QueryLayer>)
    requires |ev| == DOMAIN
    ensures |layers| == 4
  {
    HonestQuery(o.hash, Layers(o, ev, 4), index).layers
  }

  /** The answers to the first k queries. */
  function AnswerAll(o: Oracle, layers: seq<seq<F2>>, root: Digest, k: nat): (queries: seq<FriQuery>)
    requires |layers| == 5 && Shaped(layers)
    ensures |queries| == k
  {
    if k == 0 then [] else
    AnswerAll(o, layers, root, k - 1) + [HonestQuery(o.hash, layers, QueryIndex(o, root, k - 1))]
  }

  function HonestProof(o: Oracle, ev: seq<F2>): (proof: FriProof)
    requires |ev| == DOMAIN
    ensures |proof.roots| == 5 && |proof.queries| == QUERIES
  {
    var layers := Layers(o, ev, 4);
    var roots := Roots(o, layers);
    FriProof(roots, AnswerAll(o, layers, roots[0], QUERIES), layers[4][0])
  }

  // ---------------------------------------------------------------- the verifier

  /** A proof with too many layers makes the verifier divide by zero. */
  datatype Outcome = Accept | Reject | Panic

  predicate VerifierSize(n: nat) { n == 0 || n == 1 || LayerSize(n) }

  function Half(n: nat): nat { if n / 2 < 1 then 1 else n / 2 }

  predicate Opened(h: Hash, q: QueryLayer, root: Digest, idx: nat, n: nat)
    requires n > 0
  {
    var i0 := idx % n;
    Checks(h, q.v0, i0, q.path0, root) && Checks(h, q.v1, (i0 + n / 2) % n, q.path1, root)
  }

  function Refold(q: QueryLayer, beta: F2, idx: nat, n: nat): F2
    requires n > 0
  {
    FoldPair(q.v0, q.v1, PointInverse(Exponent(n, idx % n % Half(n))), beta)
  }

  /** The loop over the layers of one query. */
  function QueryVerdict(o: Oracle, proof: FriProof, layers: seq<QueryLayer>, lvl: nat, idx: nat, n: nat): Outcome
    requires lvl <= |layers| && VerifierSize(n)
    decreases |layers| - lvl
  {
    if lvl == |layers| then Accept
    else if lvl >= |proof.roots| then Reject
    else if n == 0 then Panic
    else if !Opened(o.hash, layers[lvl], proof.roots[lvl], idx, n) then Reject
    else if n / 2 == 1 && Refold(layers[lvl], o.beta(proof.roots[..lvl + 1], lvl), idx, n) != proof.finalValue
    then Reject
    else QueryVerdict(o, proof, layers, lvl + 1, idx % Half(n), n / 2)
  }

  /** The loop over the queries. */
  function QueriesVerdict(o: Oracle, proof: FriProof, q: nat): Outcome
    requires proof.roots != [] && q <= |proof.queries|
    decreases |proof.queries| - q
  {
    if q == |proof.queries| then Accept
    else if proof.queries[q].index != QueryIndex(o, proof.roots[0], q) then Reject
    else
      var v := QueryVerdict(o, proof, proof.queries[q].layers, 0, proof.queries[q].index, DOMAIN);
      if v != Accept then v else QueriesVerdict(o, proof, q + 1)
  }

  function Verdict(o: Oracle, ev: seq<F2>, proof: FriProof): Outcome {
    if |ev| != DOMAIN || proof.roots == [] then Reject
    else if RootOf(o.hash, ev) != proof.roots[0] then Reject
    else if |proof.queries| != QUERIES then Reject
    else QueriesVerdict(o, proof, 0)
  }

  // ---------------------------------------------------------------- the honest proof, layer by layer

  lemma {:induction false} LayersUnfold(o: Oracle, ev: seq<F2>, k: nat)
    requires |ev| == DOMAIN && k < 4
    ensures Layers(o, ev, k + 1) == Extend(o, Layers(o, ev, k))
    ensures Folded(o, Layers(o, ev, k)) == Fold(Layers(o, ev, k)[k], Beta(o, ev, k))
  {
    hide Fold, Roots, Extend, Shaped;
  }

  lemma {:induction false} LayersPrefix(o: Oracle, ev: seq<F2>, j: nat, k: nat)
    requires |ev| == DOMAIN && j <= k <= 4
    ensures Layers(o, ev, k)[..j + 1] == Layers(o, ev, j)
  {
    hide *;
    if j < k {
      LayersPrefix(o, ev, j, k - 1);
      LayersUnfold(o, ev, k - 1);
      assert Layers(o, ev, k)[..j + 1] == Layers(o, ev, k)[..k][..j + 1];
    }
  }

  lemma {:induction false} RootsPrefix(o: Oracle, layers: seq<seq<F2>>, j: nat)
    requires Shaped(layers) && j <= |layers|
    ensures Roots(o, layers)[..j] == Roots(o, layers[..j])
  {
    hide RootOf;
  }

  /** Each layer is the fold of the one before. */
  lemma {:induction false} LayerFolds(o: Oracle, ev: seq<F2>, l: nat)
    requires |ev| == DOMAIN && l < 4
    ensures var layers := Layers(o, ev, 4);
            LayerSize(|layers[l]|) && layers[l + 1] == Fold(layers[l], Beta(o, ev, l))
  {
    hide *;
    var (all, upto, next) := (Layers(o, ev, 4), Layers(o, ev, l), Layers(o, ev, l + 1));
    LayersUnfold(o, ev, l);
    LayersPrefix(o, ev, l + 1, 4);
    LayersPrefix(o, ev, l, 4);
    assert all[l + 1] == all[..l + 2][l + 1] == next[l + 1];
    assert all[l] == all[..l + 1][l] == upto[l];
  }

  lemma {:induction false} BetaFromProof(o: Oracle, ev: seq<F2>, l: nat)
    requires |ev| == DOMAIN && l <= 4
    ensures o.beta(HonestProof(o, ev).roots[..l + 1], l) == Beta(o, ev, l)
  {
    hide Roots, Layers, HonestQuery;
    RootsPrefix(o, Layers(o, ev, 4), l + 1);
    LayersPrefix(o, ev, l, 4);
  }

  lemma {:induction false} RevealOpens(h: Hash, ev: seq<F2>, index: nat, idx: nat)
    requires LayerSize(|ev|) && idx % |ev| == index % |ev|
    ensures Opened(h, Reveal(h, ev, index), RootOf(h, ev), idx, |ev|)
  {
    hide Checks, OpeningOf, RootOf;
    var i0 := index % |ev|;
    OpeningChecks(h, ev, i0);
    OpeningChecks(h, ev, (i0 + |ev| / 2) % |ev|);
  }

  lemma {:induction false} ModMod(a: nat, m: nat)
    requires m > 0
    ensures a % (2 * m) % m == a % m
  {
    var (q, r) := (a / (2 * m), a % (2 * m));
    assert a == (2 * q + r / m) * m + r % m;
    DivModUnique(a, m, 2 * q + r / m, r % m);
  }

  lemma {:induction false} SameResidue(a: nat, b: nat, n: nat)
    requires LayerSize(n) && a % n == b % n
    ensures a % Half(n) % Half(n) == b % Half(n)
  {
    var m := Half(n);
    assert n == 2 * m;
    hide *;
    ModMod(a, m);
    ModMod(b, m);
    DivModUnique(a % m, m, 0, a % m);
  }

  // ---------------------------------------------------------------- the verdict on it

  lemma {:induction false} AnswerAt(o: Oracle, layers: seq<seq<F2>>, root: Digest, k: nat, q: nat)
    requires |layers| == 5 && Shaped(layers) && q < k
    ensures AnswerAll(o, layers, root, k)[q] == HonestQuery(o.hash, layers, QueryIndex(o, root, q))
    decreases k
  {
    hide HonestQuery, QueryIndex, Shaped;
    if q < k - 1 {
      AnswerAt(o, layers, root, k - 1, q);
    }
  }

  lemma {:induction false} ProofParts(o: Oracle, ev: seq<F2>, l: nat, q: nat)
    requires |ev| == DOMAIN && l <= 4 && q < QUERIES
    ensures HonestProof(o, ev).roots[l] == RootOf(o.hash, Layers(o, ev, 4)[l])
    ensures HonestProof(o, ev).finalValue == Layers(o, ev, 4)[4][0]
    ensures HonestProof(o, ev).queries[q]
         == HonestQuery(o.hash, Layers(o, ev, 4), QueryIndex(o, HonestProof(o, ev).roots[0], q))
  {
    hide Layers, HonestQuery, QueryIndex, RootOf, AnswerAll;
    AnswerAt(o, Layers(o, ev, 4), HonestProof(o, ev).roots[0], QUERIES, q);
  }

  lemma {:induction false} AnswerParts(o: Oracle, ev: seq<F2>, index: nat, l: nat)
    requires |ev| == DOMAIN && l < 4
    ensures LayerSize(Size(l)) && |Layers(o, ev, 4)[l]| == Size(l)
    ensures Answers(o, ev, index)[l] == Reveal(o.hash, Layers(o, ev, 4)[l], index)
  {
    hide Reveal, Layers, Reveals;
    RevealsAt(o.hash, Layers(o, ev, 4), index, 4, l);
  }

  lemma {:induction false} RevealsAt(h: Hash, layers: seq<seq<F2>>, index: nat, k: nat, l: nat)
    requires l < k <= 4 && k <= |layers| && Shaped(layers)
    ensures LayerSize(|layers[l]|) && Reveals(h, layers, index, k)[l] == Reveal(h, layers[l], index)
    decreases k
  {
    hide Reveal;
    if l < k - 1 {
      RevealsAt(h, layers, index, k - 1, l);
    }
  }

  /** On every layer the openings check. */
  lemma {:induction false} HonestOpened(o: Oracle, ev: seq<F2>, index: nat, lvl: nat, idx: nat, n: nat)
    requires |ev| == DOMAIN && lvl < 4 && LayerSize(n) && n == Size(lvl) && idx % n == index % n
    ensures Opened(o.hash, Answers(o, ev, index)[lvl], HonestProof(o, ev).roots[lvl], idx, n)
  {
    hide HonestProof, Layers, Answers, RootOf, Opened, Reveal;
    ProofParts(o, ev, lvl, 0);
    AnswerParts(o, ev, index, lvl);
    RevealOpens(o.hash, Layers(o, ev, 4)[lvl], index, idx);
  }

  /** Where openings check, only the comparison on the last layer can reject. */
  lemma {:induction false} LayerPasses(o: Oracle, proof: FriProof, ql: seq<QueryLayer>, lvl: nat, idx: nat, n: nat)
    requires lvl < |ql| && lvl < |proof.roots| && LayerSize(n)
    requires Opened(o.hash, ql[lvl], proof.roots[lvl], idx, n)
    ensures QueryVerdict(o, proof, ql, lvl, idx, n)
         == if n == 2 && Refold(ql[lvl], o.beta(proof.roots[..lvl + 1], lvl), idx, n) != proof.finalValue then Reject
            else QueryVerdict(o, proof, ql, lvl + 1, idx % (n / 2), n / 2)
  {
    hide Opened, Refold;
  }

  /** A query is fine when its index is even, or the last challenge is zero, or the last two values
      agree. */
  predicate Fine(o: Oracle, ev: seq<F2>, index: nat)
    requires |ev| == DOMAIN
  {
    var last := Layers(o, ev, 4)[3];
    index % 2 == 0 || Beta(o, ev, 3) == ZERO || last[0] == last[1]
  }

  /** The last comparison succeeds unless the index is odd and the swap shows. */
  lemma {:induction false} LastComparison(o: Oracle, ev: seq<F2>, index: nat, idx: nat)
    requires |ev| == DOMAIN && idx % 2 == index % 2
    ensures Refold(Answers(o, ev, index)[3], Beta(o, ev, 3), idx, 2) == HonestProof(o, ev).finalValue
       <==> Fine(o, ev, index)
  {
    hide HonestProof, Layers, Answers, RootOf, Beta, FoldPair, PointInverse, OpeningOf;
    var layers := Layers(o, ev, 4);
    ProofParts(o, ev, 3, 0);
    AnswerParts(o, ev, index, 3);
    LayerFolds(o, ev, 3);
    SwapExactly(layers[3][0], layers[3][1], Beta(o, ev, 3));
  }

  lemma {:induction false} HonestQueryVerdict(o: Oracle, ev: seq<F2>, index: nat)
    requires |ev| == DOMAIN
    ensures QueryVerdict(o, HonestProof(o, ev), Answers(o, ev, index), 0, index, DOMAIN)
         == if Fine(o, ev, index) then Accept else Reject
  {
    hide HonestProof, Layers, Answers, Fine, Opened, Refold, Beta;
    var (proof, ql) := (HonestProof(o, ev), Answers(o, ev, index));
    var i1 := index % 8;
    var i2 := i1 % 4;
    var i3 := i2 % 2;
    SameResidue(index, index, 16);
    SameResidue(i1, index, 8);
    SameResidue(i2, index, 4);
    HonestOpened(o, ev, index, 0, index, 16);
    HonestOpened(o, ev, index, 1, i1, 8);
    HonestOpened(o, ev, index, 2, i2, 4);
    HonestOpened(o, ev, index, 3, i3, 2);
    LayerPasses(o, proof, ql, 0, index, 16);
    LayerPasses(o, proof, ql, 1, i1, 8);
    LayerPasses(o, proof, ql, 2, i2, 4);
    LayerPasses(o, proof, ql, 3, i3, 2);
    BetaFromProof(o, ev, 3);
    LastComparison(o, ev, index, i3);
  }

  /** Every query from the given one on is fine. */
  predicate AllFine(o: Oracle, ev: seq<F2>, from: nat)
    requires |ev| == DOMAIN && from <= QUERIES
    decreases QUERIES - from
  {
    from == QUERIES || (Fine(o, ev, QueryIndex(o, RootOf(o.hash, ev), from)) && AllFine(o, ev, from + 1))
  }

  lemma {:induction false} HonestQueries(o: Oracle, ev: seq<F2>, q: nat)
    requires |ev| == DOMAIN && q <= QUERIES
    ensures QueriesVerdict(o, HonestProof(o, ev), q) == if AllFine(o, ev, q) then Accept else Reject
    decreases QUERIES - q
  {
    hide HonestProof, Layers, HonestQuery, Fine, QueryVerdict, QueryIndex, Beta, RootOf;
    if q < QUERIES {
      ProofParts(o, ev, 0, q);
      HonestQueryVerdict(o, ev, QueryIndex(o, RootOf(o.hash, ev), q));
      HonestQueries(o, ev, q + 1);
    }
  }

  /** The verifier accepts the honest proof of any 16 values exactly when every query drawn from their
      root is fine; otherwise it rejects, and it never panics. */
  lemma {:induction false} HonestVerdict(o: Oracle, ev: seq<F2>)
    requires |ev| == DOMAIN
    ensures Verdict(o, ev, HonestProof(o, ev)) == if AllFine(o, ev, 0) then Accept else Reject
  {
    hide HonestProof, Layers, AllFine, QueriesVerdict, RootOf;
    ProofParts(o, ev, 0, 0);
    HonestQueries(o, ev, 0);
  }

  // ---------------------------------------------------------------- low degree

  lemma {:induction false} ConstantLayer(ev: seq<F2>, f: seq<F2>)
    requires Codeword(ev, f, 2) && |f| <= 1
    ensures ev[0] == ev[1]
  {
    hide Point;
    EvalConstant(f, Point(2, 0));
    EvalConstant(f, Point(2, 1));
  }

  /** The polynomial each layer evaluates, given that of the first. */
  function LayerPoly(o: Oracle, ev: seq<F2>, f: seq<F2>, l: nat): seq<F2>
    requires |ev| == DOMAIN && l <= 4
    decreases l
  {
    if l == 0 then f else FoldPoly(LayerPoly(o, ev, f, l - 1), Beta(o, ev, l - 1))
  }

  lemma {:induction false} LayerIsCodeword(o: Oracle, ev: seq<F2>, f: seq<F2>, l: nat)
    requires |ev| == DOMAIN && Codeword(ev, f, 16) && l <= 4
    ensures Codeword(Layers(o, ev, 4)[l], LayerPoly(o, ev, f, l), Size(l))
    decreases l
  {
    hide Layers, Beta, Codeword, FoldPoly, Fold;
    if l > 0 {
      LayerIsCodeword(o, ev, f, l - 1);
      LayerFolds(o, ev, l - 1);
      FoldCodeword(Layers(o, ev, 4)[l - 1], LayerPoly(o, ev, f, l - 1), Beta(o, ev, l - 1), Size(l - 1));
    }
  }

  /** The evaluations of a polynomial of degree below 8 are always accepted. */
  lemma {:induction false} LowDegreeAccepted(o: Oracle, ev: seq<F2>, f: seq<F2>)
    requires |ev| == DOMAIN && Codeword(ev, f, 16) && |f| <= 8
    ensures Verdict(o, ev, HonestProof(o, ev)) == Accept
  {
    hide Layers, Beta, Codeword, FoldPoly, HonestProof, Verdict, QueryIndex, RootOf;
    LayerIsCodeword(o, ev, f, 3);
    assert |LayerPoly(o, ev, f, 1)| <= 4 && |LayerPoly(o, ev, f, 2)| <= 2;
    ConstantLayer(Layers(o, ev, 4)[3], LayerPoly(o, ev, f, 3));
    HonestVerdict(o, ev);
  }

  /** Two challenges fold four coefficients into the final value; the other two have no effect. */
  lemma {:induction false} FinalValue(o: Oracle, ev: seq<F2>, f: seq<F2>)
    requires |ev| == DOMAIN && Codeword(ev, f, 16) && |f| == 4
    ensures var (b0, b1) := (Beta(o, ev, 0), Beta(o, ev, 1));
            HonestProof(o, ev).finalValue == f[0].Add(b0.Mul(f[1])).Add(b1.Mul(f[2].Add(b0.Mul(f[3]))))
  {
    assert QUERIES > 0;
    hide *;
    LayerIsCodeword(o, ev, f, 4);
    LayerPolyFour(o, ev, f);
    FourFolds(f, Beta(o, ev, 0), Beta(o, ev, 1), Beta(o, ev, 2), Beta(o, ev, 3));
    LastCodeword(Layers(o, ev, 4)[4], LayerPoly(o, ev, f, 4));
    ProofParts(o, ev, 0, 0);
  }

  lemma {:induction false} LastCodeword(ev: seq<F2>, f: seq<F2>)
    requires Codeword(ev, f, Size(4)) && |f| == 1
    ensures |ev| == 1 && ev[0] == f[0]
  {
    hide Point, Eval;
    EvalConstant(f, Point(1, 0));
  }

  lemma {:induction false} LayerPolyFour(o: Oracle, ev: seq<F2>, f: seq<F2>)
    requires |ev| == DOMAIN
    ensures LayerPoly(o, ev, f, 4)
         == FoldPoly(FoldPoly(FoldPoly(FoldPoly(f, Beta(o, ev, 0)), Beta(o, ev, 1)), Beta(o, ev, 2)), Beta(o, ev, 3))
  {
    hide FoldPoly, Beta;
  }

  lemma {:induction false} FourFolds(f: seq<F2>, b0: F2, b1: F2, b2: F2, b3: F2)
    requires |f| == 4
    ensures FoldPoly(FoldPoly(FoldPoly(FoldPoly(f, b0), b1), b2), b3)
         == [f[0].Add(b0.Mul(f[1])).Add(b1.Mul(f[2].Add(b0.Mul(f[3]))))]
  {
    hide *;
    FoldFour(f, b0);
    var p := FoldPoly(f, b0);
    FoldTwo(p, b1);
    FoldOne(FoldPoly(p, b1), b2);
    FoldOne(FoldPoly(p, b1), b3);
  }

  lemma {:induction false} FoldFour(f: seq<F2>, b: F2)
    requires |f| == 4
    ensures FoldPoly(f, b) == [f[0].Add(b.Mul(f[1])), f[2].Add(b.Mul(f[3]))]
  {
    hide F2.Add, F2.Mul;
    FoldTwo(f[2..], b);
  }

  lemma {:induction false} FoldTwo(f: seq<F2>, b: F2)
    requires |f| == 2
    ensures FoldPoly(f, b) == [f[0].Add(b.Mul(f[1]))]
  {
    hide F2.Add, F2.Mul;
  }

  lemma {:induction false} FoldOne(f: seq<F2>, b: F2)
    requires |f| == 1
    ensures FoldPoly(f, b) == f
  {
  }

  // ---------------------------------------------------------------- a codeword that is refused

  /** The values of x^8: 1, -1, 1, -1, ... */
  function Alternating(n: nat): (ev: seq<F2>)
    ensures |ev| == n
  {
    seq(n, i => if i % 2 == 0 then ONE else MINUS_ONE)
  }

  lemma {:induction false} FoldEqual(v: F2, inverse: F2, beta: F2)
    ensures FoldPair(v, v, inverse, beta) == v
  {
    hide F2.Add, F2.Sub, F2.Mul, F2.Scale, HALF, ZERO, ONE;
    Halves(v);
    MulZero(inverse);
    AddLaws(v, v, ZERO);
    AddLaws(v, ZERO, ZERO);
    Halves(ZERO);
    AddLaws(ZERO, ZERO, ZERO);
    MulZero(beta);
  }

  lemma {:induction false} AlternatingPeriod(n: nat, m: nat, i: nat, k: nat)
    requires k < n && i < m && (k == i || k == i + 8 || k == i + 4 || k == i + 2)
    ensures Alternating(n)[k] == Alternating(m)[i]
  {
  }

  lemma {:induction false} FoldAt(ev: seq<F2>, beta: F2, i: nat)
    requires LayerSize(|ev|) && i < |ev| / 2
    ensures Fold(ev, beta)[i] == FoldPair(ev[i], ev[i + |ev| / 2], PointInverse(Exponent(|ev|, i)), beta)
  {
    hide FoldPair, PointInverse;
  }

  lemma {:induction false} FoldAlternating(n: nat, beta: F2)
    requires n == 4 || n == 8 || n == 16
    ensures Fold(Alternating(n), beta) == Alternating(n / 2)
  {
    hide FoldPair, PointInverse, Fold, Alternating, Exponent;
    var ev := Alternating(n);
    forall i | 0 <= i < n / 2
      ensures Fold(ev, beta)[i] == Alternating(n / 2)[i]
    {
      FoldAt(ev, beta, i);
      AlternatingPeriod(n, n / 2, i, i);
      AlternatingPeriod(n, n / 2, i, i + n / 2);
      FoldEqual(ev[i], PointInverse(Exponent(n, i)), beta);
    }
  }

  /** An odd first query, a challenge that is not zero and two different last values are rejected. */
  lemma {:induction false} OddQueryRejected(o: Oracle, ev: seq<F2>)
    requires |ev| == DOMAIN && Beta(o, ev, 3) != ZERO && QueryIndex(o, RootOf(o.hash, ev), 0) % 2 == 1
    requires Layers(o, ev, 4)[3][0] != Layers(o, ev, 4)[3][1]
    ensures Verdict(o, ev, HonestProof(o, ev)) == Reject
  {
    hide Layers, Verdict, HonestProof, RootOf, Beta, QueryIndex, QUERIES;
    HonestVerdict(o, ev);
    if AllFine(o, ev, 0) {
      FirstFine(o, ev);
    }
  }

  /** The honest proof of the values of x^8 is rejected whenever the last challenge is not zero and
      the first query is odd. */
  lemma {:induction false} AlternatingRejected(o: Oracle, ev: seq<F2>)
    requires ev == Alternating(DOMAIN) && Beta(o, ev, 3) != ZERO && QueryIndex(o, RootOf(o.hash, ev), 0) % 2 == 1
    ensures Verdict(o, ev, HonestProof(o, ev)) == Reject
  {
    hide Layers, Verdict, HonestProof, RootOf, Alternating, Beta, QueryIndex;
    AlternatingLast(o, ev);
    OddQueryRejected(o, ev);
  }

  /** Challenges always one, queries always at index one. */
  function Adverse(h: Hash): Oracle { Oracle(h, (roots, l) => ONE, (root, q) => 1) }

  lemma {:induction false} AdverseAnswers(h: Hash, ev: seq<F2>)
    requires |ev| == DOMAIN
    ensures Beta(Adverse(h), ev, 3) != ZERO && QueryIndex(Adverse(h), RootOf(h, ev), 0) == 1 && Adverse(h).hash == h
  {
    hide Roots, Layers, RootOf;
  }

  /** So for every hash there are challenges under which an honest proof is rejected. */
  lemma {:induction false} RejectionHappens(h: Hash)
    ensures Verdict(Adverse(h), Alternating(DOMAIN), HonestProof(Adverse(h), Alternating(DOMAIN))) == Reject
  {
    hide Adverse, Verdict, HonestProof, Alternating, Beta, QueryIndex, RootOf;
    AdverseAnswers(h, Alternating(DOMAIN));
    AlternatingRejected(Adverse(h), Alternating(DOMAIN));
  }

  lemma {:induction false} FirstFine(o: Oracle, ev: seq<F2>)
    requires |ev| == DOMAIN && AllFine(o, ev, 0)
    ensures Fine(o, ev, QueryIndex(o, RootOf(o.hash, ev), 0))
  {
    hide Fine, RootOf, QueryIndex;
  }

  lemma {:induction false} AlternatingLast(o: Oracle, ev: seq<F2>)
    requires ev == Alternating(DOMAIN)
    ensures Layers(o, ev, 4)[3][0] != Layers(o, ev, 4)[3][1]
  {
    hide Layers, Beta, Fold, Shaped;
    LayerFolds(o, ev, 0);
    LayerFolds(o, ev, 1);
    LayerFolds(o, ev, 2);
    FoldAlternating(16, Beta(o, ev, 0));
    FoldAlternating(8, Beta(o, ev, 1));
    FoldAlternating(4, Beta(o, ev, 2));
    assert Layers(o, ev, 4)[0] == ev;
  }

  // ---------------------------------------------------------------- one round of the prover

  lemma {:induction false} RootsAppend(o: Oracle, layers: seq<seq<F2>>, layer: seq<F2>)
    requires Shaped(layers + [layer])
    ensures Shaped(layers) && |layer| == Size(|layers|)
    ensures Roots(o, layers + [layer]) == Roots(o, layers) + [RootOf(o.hash, layer)]
  {
    var all := layers + [layer];
    assert forall l :: 0 <= l < |layers| ==> layers[l] == all[l];
    assert all[..|layers|] == layers && all[|layers|] == layer;
    hide RootOf;
  }

  lemma {:induction false} ProverRound(o: Oracle, ev: seq<F2>, k: nat, layer: seq<F2>)
    requires |ev| == DOMAIN && k < 4
    requires LayerSize(|Layers(o, ev, k)[k]|) && layer == Fold(Layers(o, ev, k)[k], Beta(o, ev, k))
    ensures Layers(o, ev, k) + [layer] == Layers(o, ev, k + 1) && layer != [] && |layer| == Size(k + 1)
    ensures Roots(o, Layers(o, ev, k + 1)) == Roots(o, Layers(o, ev, k)) + [RootOf(o.hash, layer)]
  {
    hide *;
    LayersUnfold(o, ev, k);
    var (before, after) := (Layers(o, ev, k), Layers(o, ev, k + 1));
    assert after == after[..k + 1] + [after[k + 1]];
    RootsAppend(o, before, layer);
    SizePositive(k + 1);
  }

  lemma {:induction false} SizePositive(l: nat)
    ensures Size(l) > 0 && (l < 4 <==> Size(l) > 1) && (l < 4 ==> LayerSize(Size(l)))
  {
  }
}
