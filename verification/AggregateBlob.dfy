/** Making and checking aggregate blobs (crates/lean-aggregate/src/lib.rs): which leaves a blob is
    accepted for. */
module AggregateBlob {
  import opened Words
  import opened M31Extension
  import opened FriFold
  import opened Merkle
  import opened Fri
  import opened Aggregate
  import opened AggregateLeaves
  import opened HashExample

  datatype AggError = Empty | MixedStatement | BadMagic | FriFail

  datatype Result<T> = Ok(value: T) | Err(error: AggError)

  const CIRCUIT_TYPE_STWO: nat := 2
  const CURVE_TYPE_M31: nat := 5

  datatype Blob = Blob(
    proverId: nat,
    curveId: nat,
    nLeaves: nat,
    period: u64,
    bitfieldOr: seq<Byte>,
    objectRoot: seq<Byte>,
    commit: Digest,
    evals: seq<Fe>,
    roots: seq<Digest>,
    nQueries: nat)

  // ---------------------------------------------------------------- participation bits

  function Or(a: nat, b: nat): nat {
    if a == 0 && b == 0 then 0 else (if a % 2 == 0 && b % 2 == 0 then 0 else 1) + 2 * Or(a / 2, b / 2)
  }

  lemma {:induction false} OrBits(a: nat, b: nat, k: nat)
    ensures Bit(Or(a, b), k) <==> Bit(a, k) || Bit(b, k)
    decreases k
  {
    if k > 0 {
      OrBits(a / 2, b / 2, k - 1);
      if a == 0 && b == 0 {
        NoBits(k);
      }
    }
  }

  lemma {:induction false} OrBound(a: nat, b: nat, k: nat)
    requires a < Two(k) && b < Two(k)
    ensures Or(a, b) < Two(k)
    decreases k
  {
    if k > 0 {
      OrBound(a / 2, b / 2, k - 1);
    }
  }

  function OrByte(a: Byte, b: Byte): Byte {
    OrBound(a, b, 8);
    assert Two(8) == 256;
    Or(a, b)
  }

  /** The union of the first n bitfields. */
  function Union(leaves: seq<Leaf>, n: nat): (bits: seq<Byte>)
    requires ValidLeaves(leaves) && n <= |leaves|
    ensures |bits| == 32
  {
    if n == 0 then seq(32, _ => 0)
    else
      var before := Union(leaves, n - 1);
      seq(32, j requires 0 <= j < 32 => OrByte(before[j], leaves[n - 1].bitfield[j]))
  }

  /** A participation bit is set in the union exactly when some leaf sets it. */
  lemma {:induction false} UnionBits(leaves: seq<Leaf>, n: nat, j: nat, k: nat)
    requires ValidLeaves(leaves) && n <= |leaves| && j < 32
    ensures Bit(Union(leaves, n)[j], k) <==> exists i :: 0 <= i < n && Bit(leaves[i].bitfield[j], k)
  {
    if n == 0 {
      NoBits(k);
    } else {
      UnionBits(leaves, n - 1, j, k);
      OrBits(Union(leaves, n - 1)[j], leaves[n - 1].bitfield[j], k);
    }
  }

  // ---------------------------------------------------------------- making and checking a blob

  ghost predicate SameStatement(leaves: seq<Leaf>) {
    forall i :: 0 <= i < |leaves| ==>
      leaves[i].period == leaves[0].period && leaves[i].objectRoot == leaves[0].objectRoot
  }

  /** The leaf count is cut to 16 bits. */
  function BlobOf(o: Oracle, leaves: seq<Leaf>): Blob
    requires ValidLeaves(leaves) && leaves != []
  {
    var ev := ComposeEvals(leaves);
    var proof := HonestProof(o, ev);
    Blob(CIRCUIT_TYPE_STWO, CURVE_TYPE_M31, |leaves| % 0x1_0000, leaves[0].period, Union(leaves, |leaves|),
         leaves[0].objectRoot, RootOf(o.hash, ev), Composed(leaves, |leaves|), proof.roots, |proof.queries|)
  }

  ghost function Compose(o: Oracle, leaves: seq<Leaf>): Result<Blob>
    requires ValidLeaves(leaves)
  {
    if |leaves| < 2 then Err(Empty)
    else if !SameStatement(leaves) then Err(MixedStatement)
    else Ok(BlobOf(o, leaves))
  }

  function VerifyAggregate(o: Oracle, blob: Blob, leaves: seq<Leaf>): Result<()>
    requires ValidLeaves(leaves)
  {
    if |leaves| != blob.nLeaves then Err(FriFail)
    else if blob.proverId != CIRCUIT_TYPE_STWO || blob.curveId != CURVE_TYPE_M31 then Err(BadMagic)
    else
      var ev := ComposeEvals(leaves);
      var proof := HonestProof(o, ev);
      if RootOf(o.hash, ev) != blob.commit then Err(FriFail)
      else if Verdict(o, ev, proof) != Accept then Err(FriFail)
      else if proof.roots != blob.roots then Err(FriFail)
      else Ok(())
  }

  // ---------------------------------------------------------------- what a blob is accepted for

  /** The embedded proof never fails, so acceptance is a comparison of count, identifiers and roots. */
  lemma {:induction false} VerifyExactly(o: Oracle, blob: Blob, leaves: seq<Leaf>)
    requires ValidLeaves(leaves)
    ensures VerifyAggregate(o, blob, leaves).Ok? <==>
            && |leaves| == blob.nLeaves && blob.proverId == CIRCUIT_TYPE_STWO && blob.curveId == CURVE_TYPE_M31
            && RootOf(o.hash, ComposeEvals(leaves)) == blob.commit
            && HonestProof(o, ComposeEvals(leaves)).roots == blob.roots
  {
    hide ComposeEvals, HonestProof, RootOf, Verdict;
    CompositionAccepted(o, leaves);
  }

  /** Checking does not read the period, the participation bits, the object root, the composed
      coefficients or the number of queries of a blob. */
  lemma {:induction false} FieldsNotChecked(o: Oracle, blob: Blob, other: Blob, leaves: seq<Leaf>)
    requires ValidLeaves(leaves)
    requires blob.nLeaves == other.nLeaves && blob.proverId == other.proverId && blob.curveId == other.curveId
    requires blob.commit == other.commit && blob.roots == other.roots
    ensures VerifyAggregate(o, blob, leaves) == VerifyAggregate(o, other, leaves)
  {
    hide ComposeEvals, HonestProof, RootOf, Verdict;
  }

  /** Composition succeeds exactly for two leaves or more of one statement, and the blob carries the
      period and object root of all of them, their number modulo 2^16, the coefficients whose values are committed,
      and the number of queries, four. */
  lemma {:induction false} ComposedFields(o: Oracle, leaves: seq<Leaf>)
    requires ValidLeaves(leaves)
    ensures Compose(o, leaves).Ok? <==> |leaves| >= 2 && SameStatement(leaves)
    ensures Compose(o, leaves).Ok? ==>
              var blob := Compose(o, leaves).value;
              && blob.nLeaves == |leaves| % 0x1_0000 && blob.nQueries == 4 && |blob.roots| == 5
              && blob.commit == RootOf(o.hash, ComposeEvals(leaves))
              && Codeword(ComposeEvals(leaves), EmbedAll(blob.evals), 16)
              && (forall i :: 0 <= i < |leaves| ==>
                    leaves[i].period == blob.period && leaves[i].objectRoot == blob.objectRoot)
              && (forall j, k: nat :: 0 <= j < 32 ==>
                    (Bit(blob.bitfieldOr[j], k) <==> exists i :: 0 <= i < |leaves| && Bit(leaves[i].bitfield[j], k)))
  {
    hide ComposeEvals, RootOf, Composed, Union, Bit, Codeword, EmbedAll;
    ComposedIsCodeword(leaves);
    if Compose(o, leaves).Ok? {
      var blob := Compose(o, leaves).value;
      forall j, k: nat | 0 <= j < 32
        ensures Bit(blob.bitfieldOr[j], k) <==> exists i :: 0 <= i < |leaves| && Bit(leaves[i].bitfield[j], k)
      {
        UnionBits(leaves, |leaves|, j, k);
      }
    }
  }

  lemma {:induction false} BlobParts(o: Oracle, leaves: seq<Leaf>)
    requires ValidLeaves(leaves) && Compose(o, leaves).Ok?
    ensures var blob := Compose(o, leaves).value;
            && blob.nLeaves == |leaves| % 0x1_0000
            && blob.proverId == CIRCUIT_TYPE_STWO && blob.curveId == CURVE_TYPE_M31
            && blob.commit == RootOf(o.hash, ComposeEvals(leaves))
            && blob.roots == HonestProof(o, ComposeEvals(leaves)).roots
  {
    hide ComposeEvals, HonestProof, RootOf, Union, Composed, SameStatement;
  }

  /** A composed blob checks against its own leaves exactly when their number fits into 16 bits. */
  lemma {:induction false} RoundTrip(o: Oracle, leaves: seq<Leaf>)
    requires ValidLeaves(leaves) && Compose(o, leaves).Ok?
    ensures VerifyAggregate(o, Compose(o, leaves).value, leaves).Ok? <==> |leaves| < 0x1_0000
  {
    hide *;
    BlobParts(o, leaves);
    VerifyExactly(o, Compose(o, leaves).value, leaves);
  }

  function EqualLeaves(n: nat): (leaves: seq<Leaf>)
    ensures |leaves| == n
  {
    seq(n, _ => Leaf(0, seq(32, _ => 0), seq(32, _ => 0)))
  }

  /** 65536 equal leaves compose, and their own blob is refused. */
  lemma {:induction false} TooManyLeaves(o: Oracle)
    ensures ValidLeaves(EqualLeaves(0x1_0000)) && Compose(o, EqualLeaves(0x1_0000)).Ok?
    ensures !VerifyAggregate(o, Compose(o, EqualLeaves(0x1_0000)).value, EqualLeaves(0x1_0000)).Ok?
  {
    EqualLeavesCompose(o, 0x1_0000);
    hide *;
    RoundTrip(o, EqualLeaves(0x1_0000));
  }

  lemma {:induction false} EqualLeavesCompose(o: Oracle, n: nat)
    requires n >= 2
    ensures ValidLeaves(EqualLeaves(n)) && Compose(o, EqualLeaves(n)).Ok?
  {
    hide BlobOf;
    var leaves := EqualLeaves(n);
    assert forall i :: 0 <= i < n ==> leaves[i] == leaves[0] && ValidLeaf(leaves[i]);
  }

  lemma {:induction false} Positive()
    ensures DOMAIN > 0
  {
  }

  /** No collision occurs while hashing the values composed from these two lists. */
  ghost predicate NoCollision(h: Hash, leaves: seq<Leaf>, others: seq<Leaf>)
    requires ValidLeaves(leaves) && ValidLeaves(others)
  {
    TwoTo4();
    TreesCollisionFree(h, ComposeEvals(leaves), ComposeEvals(others), 4)
  }

  /** Binding: unless hashing collides, a blob composed from one list of leaves is accepted for another
      exactly when the counts agree and the composed cubics are the same. */
  lemma {:induction false} BlobBinds(o: Oracle, leaves: seq<Leaf>, others: seq<Leaf>)
    requires ValidLeaves(leaves) && ValidLeaves(others) && Compose(o, leaves).Ok? && NoCollision(o.hash, leaves, others)
    ensures VerifyAggregate(o, Compose(o, leaves).value, others).Ok? <==>
            && |others| == |leaves| % 0x1_0000
            && Composed(others, |others|) == Composed(leaves, |leaves|)
  {
    hide *;
    BlobParts(o, leaves);
    SameRoots(o.hash, leaves, others);
    VerifyExactly(o, Compose(o, leaves).value, others);
    CodewordDetermines(others, leaves);
  }

  lemma {:induction false} SameRoots(h: Hash, leaves: seq<Leaf>, others: seq<Leaf>)
    requires ValidLeaves(leaves) && ValidLeaves(others) && NoCollision(h, leaves, others)
    ensures ComposeEvals(leaves) != [] && ComposeEvals(others) != []
    ensures RootOf(h, ComposeEvals(others)) == RootOf(h, ComposeEvals(leaves))
       <==> ComposeEvals(others) == ComposeEvals(leaves)
  {
    hide ComposeEvals, RootOf, TreesCollisionFree, Two;
    Positive();
    TwoTo4();
    if RootOf(h, ComposeEvals(others)) == RootOf(h, ComposeEvals(leaves)) {
      RootDetermines(h, ComposeEvals(leaves), ComposeEvals(others), 4);
    }
  }

  lemma {:induction false} ComposeNeeds(o: Oracle, leaves: seq<Leaf>)
    requires ValidLeaves(leaves) && Compose(o, leaves).Ok?
    ensures |leaves| >= 2 && SameStatement(leaves)
  {
    hide BlobOf;
  }

  lemma {:induction false} FirstRootWord(leaves: seq<Leaf>)
    requires ValidLeaves(leaves) && leaves != [] && SameStatement(leaves)
    ensures |leaves[0].objectRoot| == 32 && 0 <= Residue(leaves[0].objectRoot, 0) < 0x7FFF_FFFF
    ensures RootWord(leaves, Residue(leaves[0].objectRoot, 0))
  {
    hide Residue;
    ResidueRange(leaves[0].objectRoot, 0);
  }

  /** So a blob for one object root is not accepted for another that differs in the first word modulo P,
      as long as the count fits into 16 bits. */
  lemma {:induction false} BlobBindsRoot(o: Oracle, leaves: seq<Leaf>, others: seq<Leaf>)
    requires ValidLeaves(leaves) && ValidLeaves(others) && Compose(o, leaves).Ok? && NoCollision(o.hash, leaves, others)
    requires |leaves| < 0x1_0000 && SameStatement(others)
    requires VerifyAggregate(o, Compose(o, leaves).value, others).Ok?
    ensures |others| == |leaves| >= 2
    ensures Residue(leaves[0].objectRoot, 0) == Residue(others[0].objectRoot, 0)
  {
    hide *;
    ComposeNeeds(o, leaves);
    BlobBinds(o, leaves, others);
    FirstRootWord(leaves);
    FirstRootWord(others);
    RootsCompose(leaves, others, Residue(leaves[0].objectRoot, 0), Residue(others[0].objectRoot, 0));
  }

  /** Any two lists of leaves have a 32-byte hash for which the hypothesis of binding holds. */
  lemma {:induction false} BindingIsPossible(leaves: seq<Leaf>, others: seq<Leaf>)
    requires ValidLeaves(leaves) && ValidLeaves(others)
    ensures var h := Numbering(ComposeEvals(leaves) + ComposeEvals(others));
            && NoCollision(h, leaves, others)
            && (forall v :: |h.leaf(v).bytes| == 32) && (forall l, r :: |h.node(l, r).bytes| == 32)
  {
    hide ComposeEvals, TreesCollisionFree, Two, Numbering;
    TwoTo4();
    WideEnough(ComposeEvals(leaves), ComposeEvals(others));
  }
}
