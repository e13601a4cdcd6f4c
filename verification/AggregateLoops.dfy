/** The loops of aggregate composition and checking (crates/lean-aggregate/src/lib.rs and fri.rs). */
module AggregateLoops {
  import opened Words
  import opened M31Extension
  import opened M31Roots
  import opened M31Omega
  import opened FriFold
  import opened Merkle
  import opened Fri
  import opened Aggregate
  import opened AggregateBlob
  import FriLoops
  import M31

  /** Every leaf adds its cubic's values to the running sums. */
  method SumEvaluations(leaves: seq<Leaf>) returns (ev: seq<F2>)
    requires ValidLeaves(leaves)
    ensures ev == ComposeEvals(leaves)
  {
    hide Eval, EmbedAll, LeafCoeffs, Point, F2.Add;
    var sums := new F2[DOMAIN](_ => ZERO);
    var i := 0;
    while i < |leaves|
      invariant 0 <= i <= |leaves|
      invariant forall k :: 0 <= k < DOMAIN ==> sums[k] == SumAt(leaves, i, Point(DOMAIN, k))
    {
      AddLeaf(sums, leaves, i);
      i := i + 1;
    }
    ev := sums[..];
  }

  method AddLeaf(sums: array<F2>, leaves: seq<Leaf>, i: nat)
    requires ValidLeaves(leaves) && i < |leaves| && sums.Length == DOMAIN
    requires forall k :: 0 <= k < DOMAIN ==> sums[k] == SumAt(leaves, i, Point(DOMAIN, k))
    modifies sums
    ensures forall k :: 0 <= k < DOMAIN ==> sums[k] == SumAt(leaves, i + 1, Point(DOMAIN, k))
  {
    hide Eval, EmbedAll, LeafCoeffs, FPow, Omega, F2.Add;
    var c := LeafCoeffs(leaves[i], i);
    var w := Omega16();
    var k := 0;
    while k < DOMAIN
      invariant 0 <= k <= DOMAIN
      invariant forall l :: 0 <= l < k ==> sums[l] == SumAt(leaves, i + 1, Point(DOMAIN, l))
      invariant forall l :: k <= l < DOMAIN ==> sums[l] == SumAt(leaves, i, Point(DOMAIN, l))
    {
      var x := PowF2(w, k);
      var acc := EvalWords(c, x);
      sums[k] := sums[k].Add(acc);
      k := k + 1;
    }
  }

  method SumCoefficients(leaves: seq<Leaf>) returns (coeffs: seq<Fe>)
    requires ValidLeaves(leaves)
    ensures coeffs == Composed(leaves, |leaves|)
  {
    hide LeafCoeffs, AddWords;
    var acc := new Fe[4](_ => 0);
    var i := 0;
    assert acc[..] == [0, 0, 0, 0];
    while i < |leaves|
      invariant 0 <= i <= |leaves| && acc[..] == Composed(leaves, i)
    {
      var c := LeafCoeffs(leaves[i], i);
      AddInto(acc, c);
      i := i + 1;
    }
    coeffs := acc[..];
  }

  method AddInto(acc: array<Fe>, c: seq<Coefficient>)
    requires acc.Length == |c|
    modifies acc
    ensures acc[..] == AddWords(old(acc[..]), c)
  {
    hide M31.Red, M31.Add;
    var j := 0;
    while j < |c|
      invariant 0 <= j <= |c|
      invariant forall k :: 0 <= k < j ==> acc[k] == M31.Add(old(acc[..])[k], c[k])
      invariant forall k :: j <= k < |c| ==> acc[k] == old(acc[..])[k]
    {
      acc[j] := M31.Add(acc[j], c[j]);
      j := j + 1;
    }
    forall k | 0 <= k < |c|
      ensures acc[k] == AddWords(old(acc[..]), c)[k]
    {
      AddWordsAt(old(acc[..]), c, k);
    }
  }

  lemma {:induction false} AddWordsAt(a: seq<Fe>, c: seq<Coefficient>, k: nat)
    requires |a| == |c| && k < |a|
    ensures AddWords(a, c)[k] == M31.Add(a[k], c[k])
  {
    hide M31.Red, M31.Add;
    if k > 0 {
      AddWordsAt(a[1..], c[1..], k - 1);
    }
  }

  /** Compares every leaf with the first and collects the participation bits. */
  method ScanLeaves(leaves: seq<Leaf>) returns (same: bool, bits: seq<Byte>)
    requires ValidLeaves(leaves) && leaves != []
    ensures same <==> SameStatement(leaves)
    ensures same ==> bits == Union(leaves, |leaves|)
  {
    bits := seq(32, _ => 0);
    var i := 0;
    while i < |leaves|
      invariant 0 <= i <= |leaves| && bits == Union(leaves, i) && SameStatement(leaves[..i])
    {
      if leaves[i].period != leaves[0].period || leaves[i].objectRoot != leaves[0].objectRoot {
        return false, bits;
      }
      bits := OrInto(bits, leaves[i].bitfield);
      i := i + 1;
    }
    assert leaves[..|leaves|] == leaves;
    return true, bits;
  }

  method ComposeSameStatement(o: Oracle, leaves: seq<Leaf>) returns (r: Result<Blob>)
    requires ValidLeaves(leaves)
    ensures r == Compose(o, leaves)
  {
    hide ComposeEvals, HonestProof, RootOf, Composed, Union, SameStatement;
    if |leaves| < 2 {
      return Err(Empty);
    }
    var same, bits := ScanLeaves(leaves);
    if !same {
      return Err(MixedStatement);
    }
    var ev := SumEvaluations(leaves);
    var proof := FriLoops.Prove(o, ev);
    var commit, tree := MerkleRoot(o.hash, ev);
    var coeffs := SumCoefficients(leaves);
    r := Ok(Blob(CIRCUIT_TYPE_STWO, CURVE_TYPE_M31, |leaves| % 0x1_0000, leaves[0].period, bits, leaves[0].objectRoot,
                 commit, coeffs, proof.roots, |proof.queries|));
  }

  method OrInto(bits: seq<Byte>, more: seq<Byte>) returns (r: seq<Byte>)
    requires |bits| == |more| == 32
    ensures r == seq(32, j requires 0 <= j < 32 => OrByte(bits[j], more[j]))
  {
    hide OrByte;
    r := [];
    var j := 0;
    while j < 32
      invariant 0 <= j <= 32 && |r| == j
      invariant forall k :: 0 <= k < j ==> r[k] == OrByte(bits[k], more[k])
    {
      r := r + [OrByte(bits[j], more[j])];
      j := j + 1;
    }
  }

  method CheckAggregate(o: Oracle, blob: Blob, leaves: seq<Leaf>) returns (r: Result<()>)
    requires ValidLeaves(leaves)
    ensures r == VerifyAggregate(o, blob, leaves)
  {
    hide ComposeEvals, HonestProof, RootOf, Verdict;
    if |leaves| != blob.nLeaves {
      return Err(FriFail);
    }
    if blob.proverId != CIRCUIT_TYPE_STWO || blob.curveId != CURVE_TYPE_M31 {
      return Err(BadMagic);
    }
    var ev := SumEvaluations(leaves);
    var commit, tree := MerkleRoot(o.hash, ev);
    if commit != blob.commit {
      return Err(FriFail);
    }
    var proof := FriLoops.Prove(o, ev);
    var v := FriLoops.Verify(o, ev, proof);
    if v != Accept {
      return Err(FriFail);
    }
    if proof.roots != blob.roots {
      return Err(FriFail);
    }
    r := Ok(());
  }
}
