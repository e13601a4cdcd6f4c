/** What each leaf puts into an aggregate (crates/lean-aggregate/src/fri.rs): the four coefficients from
    the bytes of the leaf, when two leaves contribute the same, and what a composition says about the
    object root. */
module AggregateLeaves {
  import opened Words
  import opened NumberTheory
  import opened M31Extension
  import opened Merkle
  import opened Aggregate
  import M31
  import Primality

  // ---------------------------------------------------------------- the four coefficients

  /** Four bytes from position i on, least significant first, modulo P. */
  function Residue(b: seq<Byte>, i: nat): int
    requires i + 4 <= |b|
  {
    ((b[i] as int) + 0x100 * (b[i + 1] as int) + 0x1_0000 * (b[i + 2] as int) + 0x100_0000 * (b[i + 3] as int))
    % 0x7FFF_FFFF
  }

  /** The 64-bit counter of a position. */
  function CounterWord(period: u64, idx: nat): u64 { (period + 0x100 * idx) % 0x1_0000_0000_0000_0000 }

  /** A word with its low 31 bits and the rest added in 32 bits and reduced once. */
  function FoldedWord(w: u64): int {
    var v := (w % 0x8000_0000 + w / 0x8000_0000) % 0x1_0000_0000;
    if v >= 0x7FFF_FFFF then v - 0x7FFF_FFFF else v
  }

  lemma {:induction false} ResidueRange(b: seq<Byte>, i: nat)
    requires i + 4 <= |b|
    ensures 0 <= Residue(b, i) < 0x7FFF_FFFF
  {
  }

  lemma {:induction false} PackedResidue(b: seq<Byte>, i: nat)
    requires i + 4 <= |b|
    ensures Pack4(b[i..i + 4]) == Residue(b, i)
  {
    hide M31.Red;
    PackIsResidue(b[i..i + 4]);
  }

  lemma {:induction false} FoldedWordIs(w: u64)
    ensures M31.Red(w) == FoldedWord(w)
  {
    hide M31.Red;
    FoldValue(w);
  }

  lemma {:induction false} CounterIs(period: u64, idx: nat)
    ensures Counter(period, idx) == CounterWord(period, idx)
  {
  }

  /** The coefficients by position: the folded counter, the first word of the bitfield, the first word
      of the object root, and the bitwise difference of the second words. */
  lemma {:induction false} CoefficientsAre(leaf: Leaf, idx: nat, k: nat)
    requires ValidLeaf(leaf)
    ensures var c := LeafCoeffs(leaf, idx);
            && c[0] == FoldedWord(CounterWord(leaf.period, idx))
            && c[1] == Residue(leaf.bitfield, 0)
            && c[2] == Residue(leaf.objectRoot, 0)
            && (Bit(c[3], k) <==> Bit(Residue(leaf.bitfield, 4), k) != Bit(Residue(leaf.objectRoot, 4), k))
  {
    hide M31.Red, Xor, Bit, Residue, Pack4, Counter, FoldedWord, CounterWord;
    assert leaf.bitfield[..4] == leaf.bitfield[0..4] && leaf.objectRoot[..4] == leaf.objectRoot[0..4];
    PackedResidue(leaf.bitfield, 0);
    PackedResidue(leaf.bitfield, 4);
    PackedResidue(leaf.objectRoot, 0);
    PackedResidue(leaf.objectRoot, 4);
    ResidueRange(leaf.bitfield, 4);
    ResidueRange(leaf.objectRoot, 4);
    XorBits(Residue(leaf.bitfield, 4), Residue(leaf.objectRoot, 4), k);
    CounterIs(leaf.period, idx);
    FoldedWordIs(CounterWord(leaf.period, idx));
  }

  /** Below 2^62 - 1 the first coefficient is the counter modulo P. */
  lemma {:induction false} CounterResidue(leaf: Leaf, idx: nat)
    requires ValidLeaf(leaf) && CounterWord(leaf.period, idx) <= 0x3FFF_FFFF_FFFF_FFFE
    ensures LeafCoeffs(leaf, idx)[0] == CounterWord(leaf.period, idx) % 0x7FFF_FFFF
  {
    hide M31.Red, Xor, Pack4, Counter, CounterWord;
    CounterIs(leaf.period, idx);
    M31.RedRange(CounterWord(leaf.period, idx));
  }

  // ---------------------------------------------------------------- equal contributions

  /** Equal residues of two exclusive ors: they are equal, or one pair agrees and the other is a pair of
      complements. */
  lemma {:induction false} XorPairs(a: Fe, c: Fe, b: Fe, e: Fe)
    ensures Xor(a, c) % 0x7FFF_FFFF == Xor(b, e) % 0x7FFF_FFFF <==>
            || Xor(a, c) == Xor(b, e)
            || (a == c && b + e == 0x7FFF_FFFF)
            || (b == e && a + c == 0x7FFF_FFFF)
  {
    hide Xor, Two;
    TwoTo31();
    XorCanonical(a, c);
    XorCanonical(b, e);
    XorComplement(a, c, 31);
    XorComplement(b, e, 31);
    XorSelf(c);
    XorSelf(e);
    if Xor(a, c) == 0 { XorCancels(a, c, c); }
    if Xor(b, e) == 0 { XorCancels(b, e, e); }
  }

  lemma {:induction false} HighWord(leaf: Leaf, idx: nat)
    requires ValidLeaf(leaf)
    ensures 0 <= Residue(leaf.bitfield, 4) && 0 <= Residue(leaf.objectRoot, 4)
    ensures LeafCoeffs(leaf, idx)[3] == Xor(Residue(leaf.bitfield, 4), Residue(leaf.objectRoot, 4))
  {
    hide M31.Red, Xor, Pack4, Counter;
    PackedResidue(leaf.bitfield, 4);
    PackedResidue(leaf.objectRoot, 4);
  }

  /** The second words of two leaves, a and b in the bitfields, c and e in the object roots, make the same
      fourth coefficient modulo P. */
  predicate SecondWordsAgree(a: int, c: int, b: int, e: int)
    requires a >= 0 && b >= 0 && c >= 0 && e >= 0
  {
    || Xor(a, c) == Xor(b, e)
    || (a == c && b + e == 0x7FFF_FFFF)
    || (b == e && a + c == 0x7FFF_FFFF)
  }

  predicate SameResidue(x: int, y: int) { x % 0x7FFF_FFFF == y % 0x7FFF_FFFF }

  lemma {:induction false} EmbedsEqual(c: seq<Coefficient>, e: seq<Coefficient>)
    requires |c| == |e| == 4
    ensures EmbedAll(c) == EmbedAll(e) <==>
            SameResidue(c[0], e[0]) && SameResidue(c[1], e[1]) && SameResidue(c[2], e[2]) && SameResidue(c[3], e[3])
  {
    hide EmbedAll;
    EmbedFour(c);
    EmbedFour(e);
  }

  lemma {:induction false} CanonicalSame(x: Fe, y: Fe)
    ensures SameResidue(x, y) <==> x == y
  {
  }

  lemma {:induction false} FourthSame(leaf: Leaf, i: nat, other: Leaf, j: nat)
    requires ValidLeaf(leaf) && ValidLeaf(other)
    ensures 0 <= Residue(leaf.bitfield, 4) && 0 <= Residue(leaf.objectRoot, 4)
    ensures 0 <= Residue(other.bitfield, 4) && 0 <= Residue(other.objectRoot, 4)
    ensures SameResidue(LeafCoeffs(leaf, i)[3], LeafCoeffs(other, j)[3]) <==>
            SecondWordsAgree(Residue(leaf.bitfield, 4), Residue(leaf.objectRoot, 4),
                             Residue(other.bitfield, 4), Residue(other.objectRoot, 4))
  {
    hide Xor, Residue, LeafCoeffs;
    HighWord(leaf, i);
    HighWord(other, j);
    ResidueRange(leaf.bitfield, 4);
    ResidueRange(leaf.objectRoot, 4);
    ResidueRange(other.bitfield, 4);
    ResidueRange(other.objectRoot, 4);
    XorPairs(Residue(leaf.bitfield, 4), Residue(leaf.objectRoot, 4),
             Residue(other.bitfield, 4), Residue(other.objectRoot, 4));
  }

  /** When two leaves, of whatever periods, object roots and positions, contribute the same. */
  lemma {:induction false} LeavesContribute(leaf: Leaf, i: nat, other: Leaf, j: nat)
    requires ValidLeaf(leaf) && ValidLeaf(other)
    ensures 0 <= Residue(leaf.bitfield, 4) && 0 <= Residue(leaf.objectRoot, 4)
    ensures 0 <= Residue(other.bitfield, 4) && 0 <= Residue(other.objectRoot, 4)
    ensures EmbedAll(LeafCoeffs(leaf, i)) == EmbedAll(LeafCoeffs(other, j)) <==>
            && SameResidue(FoldedWord(CounterWord(leaf.period, i)), FoldedWord(CounterWord(other.period, j)))
            && Residue(leaf.bitfield, 0) == Residue(other.bitfield, 0)
            && Residue(leaf.objectRoot, 0) == Residue(other.objectRoot, 0)
            && SecondWordsAgree(Residue(leaf.bitfield, 4), Residue(leaf.objectRoot, 4),
                                Residue(other.bitfield, 4), Residue(other.objectRoot, 4))
  {
    hide *;
    LongEnough(leaf);
    LongEnough(other);
    CoefficientsAre(leaf, i, 0);
    CoefficientsAre(other, j, 0);
    EmbedsEqual(LeafCoeffs(leaf, i), LeafCoeffs(other, j));
    ResidueRange(leaf.bitfield, 0);
    ResidueRange(leaf.objectRoot, 0);
    ResidueRange(other.bitfield, 0);
    ResidueRange(other.objectRoot, 0);
    CanonicalSame(Residue(leaf.bitfield, 0), Residue(other.bitfield, 0));
    CanonicalSame(Residue(leaf.objectRoot, 0), Residue(other.objectRoot, 0));
    FourthSame(leaf, i, other, j);
  }

  lemma {:induction false} LongEnough(leaf: Leaf)
    requires ValidLeaf(leaf)
    ensures |leaf.bitfield| == |leaf.objectRoot| == 32
  {
  }

  // ---------------------------------------------------------------- the object root in a composition

  lemma {:induction false} AddWordsAt(a: seq<Fe>, c: seq<Coefficient>, j: nat)
    requires |a| == |c| && j < |a|
    ensures AddWords(a, c)[j] == (a[j] + c[j]) % 0x7FFF_FFFF
  {
    hide M31.Add;
    if j > 0 { AddWordsAt(a[1..], c[1..], j - 1); }
  }

  /** Each composed coefficient is the sum of that coefficient over the leaves, modulo P. */
  lemma {:induction false} ComposedStep(leaves: seq<Leaf>, n: nat, j: nat)
    requires ValidLeaves(leaves) && n < |leaves| && j < 4
    ensures Composed(leaves, n + 1)[j] == (Composed(leaves, n)[j] + LeafCoeffs(leaves[n], n)[j]) % 0x7FFF_FFFF
  {
    hide LeafCoeffs, AddWords;
    AddWordsAt(Composed(leaves, n), LeafCoeffs(leaves[n], n), j);
  }

  /** All leaves have the same first word of the object root. */
  ghost predicate RootWord(leaves: seq<Leaf>, w: int)
    requires ValidLeaves(leaves)
  {
    forall i :: 0 <= i < |leaves| ==> Residue(leaves[i].objectRoot, 0) == w
  }

  lemma {:induction false} OneMore(n: nat, w: int)
    ensures (n * w % 0x7FFF_FFFF + w) % 0x7FFF_FFFF == (n + 1) * w % 0x7FFF_FFFF
  {
    var x := n * w;
    assert (n + 1) * w == x + w;
    ModShift(x % 0x7FFF_FFFF + w, x / 0x7FFF_FFFF, 0x7FFF_FFFF);
  }

  /** In a composition of n leaves of one statement the third coefficient is n times the first word of
      the object root. */
  lemma {:induction false} ThirdCoefficient(leaves: seq<Leaf>, n: nat, w: int)
    requires ValidLeaves(leaves) && n <= |leaves| && RootWord(leaves, w)
    ensures Composed(leaves, n)[2] == n * w % 0x7FFF_FFFF
  {
    hide LeafCoeffs, AddWords, Residue;
    if n > 0 {
      ThirdCoefficient(leaves, n - 1, w);
      ComposedStep(leaves, n - 1, 2);
      CoefficientsAre(leaves[n - 1], n - 1, 0);
      OneMore(n - 1, w);
    }
  }

  /** So two statements whose object roots differ in the first word never compose alike from the same
      number of leaves, unless P divides that number. */
  lemma {:induction false} RootsCompose(leaves: seq<Leaf>, others: seq<Leaf>, w: int, x: int)
    requires ValidLeaves(leaves) && ValidLeaves(others) && RootWord(leaves, w) && RootWord(others, x)
    requires |leaves| == |others| && |leaves| % 0x7FFF_FFFF != 0 && 0 <= w < 0x7FFF_FFFF && 0 <= x < 0x7FFF_FFFF
    requires Composed(leaves, |leaves|) == Composed(others, |others|)
    ensures w == x
  {
    hide Composed, RootWord;
    var n := |leaves|;
    ThirdCoefficient(leaves, n, w);
    ThirdCoefficient(others, n, x);
    CancelFactor(n, w, x);
  }

  lemma {:induction false} CancelFactor(n: nat, w: int, x: int)
    requires n % 0x7FFF_FFFF != 0 && 0 <= w < 0x7FFF_FFFF && 0 <= x < 0x7FFF_FFFF
    requires n * w % 0x7FFF_FFFF == n * x % 0x7FFF_FFFF
    ensures w == x
  {
    CongMod(n * w, n * x, 0x7FFF_FFFF);
    assert n * w - n * x == n * (w - x);
    Primality.MersennePrime();
    Euclid(0x7FFF_FFFF, n, w - x);
    CongMod(w, x, 0x7FFF_FFFF);
  }
}
