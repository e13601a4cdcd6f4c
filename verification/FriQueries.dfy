/** What the FRI prover and verifier of crates/lean-aggregate/src/fri.rs draw from the transcript: four
    positions from the first root and one challenge per layer from all roots so far. */
module FriQueries {
  import opened M31Extension
  import opened FriFold
  import opened Merkle
  import opened Fri
  import opened FriAccept

  // ---------------------------------------------------------------- the positions

  lemma {:induction false} DrawnAt(o: Oracle, root: Digest, q: nat)
    ensures QueryIndex(o, root, q) == o.query(root, q) % 16
  {
  }

  /** The honest proof answers four queries, each at its own draw from the root of the values. */
  lemma {:induction false} HonestDraws(o: Oracle, ev: seq<F2>, q: nat)
    requires |ev| == 16 && q < 4
    ensures |HonestProof(o, ev).queries| == 4
    ensures HonestProof(o, ev).queries[q].index == o.query(RootOf(o.hash, ev), q) % 16
  {
    hide Layers, HonestQuery, QueryIndex, RootOf, AnswerAll, HonestProof;
    ProofParts(o, ev, 0, q);
    DrawnAt(o, RootOf(o.hash, ev), q);
  }

  /** So does every accepted proof. */
  lemma {:induction false} AcceptedDraws(o: Oracle, ev: seq<F2>, proof: FriProof, q: nat)
    requires Verdict(o, ev, proof) == Accept && q < 4
    ensures |ev| == 16 && |proof.queries| == 4 && proof.roots != [] && proof.roots[0] == RootOf(o.hash, ev)
    ensures proof.queries[q].index == o.query(RootOf(o.hash, ev), q) % 16
  {
    hide Verdict, RootOf, QueryAccepted, QueryIndex;
    AcceptExactly(o, ev, proof);
    assert QueryGood(o, proof, q);
    DrawnAt(o, proof.roots[0], q);
  }

  // ---------------------------------------------------------------- the challenges

  /** The roots of the layers 0 to l. */
  ghost predicate AreRoots(o: Oracle, ev: seq<F2>, l: nat, roots: seq<Digest>)
    requires |ev| == 16 && l < 4
  {
    |roots| == l + 1 && forall j :: 0 <= j <= l ==> roots[j] == RootOf(o.hash, Layers(o, ev, 4)[j])
  }

  /** Each layer is folded by the challenge drawn from the roots of all layers up to it. */
  lemma {:induction false} FoldedByDraw(o: Oracle, ev: seq<F2>, l: nat, roots: seq<Digest>)
    requires |ev| == 16 && l < 4 && AreRoots(o, ev, l, roots)
    ensures LayerSize(|Layers(o, ev, 4)[l]|)
    ensures Layers(o, ev, 4)[l + 1] == Fold(Layers(o, ev, 4)[l], o.beta(roots, l))
  {
    hide Layers, Fold, RootOf, HonestProof;
    LayerFolds(o, ev, l);
    BetaFromProof(o, ev, l);
    forall j | 0 <= j <= l
      ensures HonestProof(o, ev).roots[j] == roots[j]
    {
      ProofParts(o, ev, j, 0);
    }
    assert HonestProof(o, ev).roots[..l + 1] == roots;
  }

  // ---------------------------------------------------------------- every query counts

  lemma {:induction false} FineAt(o: Oracle, ev: seq<F2>, from: nat, q: nat)
    requires |ev| == 16 && from <= q < 4 && AllFine(o, ev, from)
    ensures Fine(o, ev, QueryIndex(o, RootOf(o.hash, ev), q))
    decreases q - from
  {
    hide Fine, RootOf, QueryIndex;
    if from < q { FineAt(o, ev, from + 1, q); }
  }

  lemma {:induction false} AllFineFrom(o: Oracle, ev: seq<F2>, from: nat)
    requires |ev| == 16 && from <= 4
    requires forall q :: from <= q < 4 ==> Fine(o, ev, QueryIndex(o, RootOf(o.hash, ev), q))
    ensures AllFine(o, ev, from)
    decreases 4 - from
  {
    hide Fine, RootOf, QueryIndex;
    if from < 4 { AllFineFrom(o, ev, from + 1); }
  }

  /** Challenges always one; the draw is odd at the given query alone. */
  function OddAt(h: Hash, odd: nat): Oracle {
    Oracle(h, (roots, l) => ONE, (root, q) => if q == odd then 1 else 0)
  }

  lemma {:induction false} OddAtDraws(h: Hash, odd: nat, ev: seq<F2>, q: nat)
    requires |ev| == 16
    ensures OddAt(h, odd).hash == h && Beta(OddAt(h, odd), ev, 3) != ZERO
    ensures QueryIndex(OddAt(h, odd), RootOf(h, ev), q) == if q == odd then 1 else 0
  {
    hide Roots, Layers, RootOf;
  }

  /** An odd draw at any one of the four queries is enough to reject the values of x^8, and a fifth
      draw is not looked at. */
  lemma {:induction false} EveryQueryCounts(h: Hash, odd: nat)
    ensures var (o, ev) := (OddAt(h, odd), Alternating(16));
            Verdict(o, ev, HonestProof(o, ev)) == if odd < 4 then Reject else Accept
  {
    hide OddAt, Verdict, HonestProof, Alternating, Beta, QueryIndex, RootOf, Layers, AllFine;
    var (o, ev) := (OddAt(h, odd), Alternating(16));
    HonestVerdict(o, ev);
    AlternatingLast(o, ev);
    if odd < 4 {
      OddAtDraws(h, odd, ev, odd);
      if AllFine(o, ev, 0) { FineAt(o, ev, 0, odd); }
    } else {
      forall q | 0 <= q < 4
        ensures Fine(o, ev, QueryIndex(o, RootOf(o.hash, ev), q))
      {
        OddAtDraws(h, odd, ev, q);
      }
      AllFineFrom(o, ev, 0);
    }
  }
}
