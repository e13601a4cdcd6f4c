/** The aggregate of same-statement leaves (crates/lean-aggregate/src/lib.rs and fri.rs): every leaf
    becomes a cubic, the cubics are added, and the sum is committed and proved once. */
module Aggregate {
  import opened Words
  import opened NumberTheory
  import opened M31Extension
  import opened M31Roots
  import opened M31Omega
  import opened FriFold
  import opened FriCode
  import opened Merkle
  import opened Fri
  import M31

  /** One leaf: period, participation bitfield and object root; the last two are 32 bytes long. */
  datatype Leaf = Leaf(period: u64, bitfield: seq<Byte>, objectRoot: seq<Byte>)

  predicate ValidLeaf(leaf: Leaf) { |leaf.bitfield| == 32 && |leaf.objectRoot| == 32 }

  ghost predicate ValidLeaves(leaves: seq<Leaf>) {
    forall i :: 0 <= i < |leaves| ==> ValidLeaf(leaves[i])
  }

  // ---------------------------------------------------------------- coefficients of a leaf

  /** A word on which multiplication by a canonical element is exact. */
  type Coefficient = x: int | 0 <= x <= 0x8000_0000

  /** The fold of any word is at most one above P. */
  lemma {:induction false} RedBound(x: u64)
    ensures M31.Red(x) <= 0x8000_0000
  {
  }

  /** Four bytes, least significant first; the shifted bytes do not overlap. */
  function Word(b: seq<Byte>): (w: nat)
    requires |b| == 4
    ensures w < 0x1_0000_0000
  {
    (b[0] as int) + 0x100 * (b[1] as int) + 0x1_0000 * (b[2] as int) + 0x100_0000 * (b[3] as int)
  }

  function Pack4(b: seq<Byte>): Fe
    requires |b| == 4
  {
    M31.RedRange(Word(b));
    M31.Red(Word(b))
  }

  function Xor(a: nat, b: nat): nat {
    if a == 0 && b == 0 then 0 else (if a % 2 == b % 2 then 0 else 1) + 2 * Xor(a / 2, b / 2)
  }

  predicate Bit(x: nat, k: nat)
    decreases k
  {
    if k == 0 then x % 2 == 1 else Bit(x / 2, k - 1)
  }

  lemma {:induction false} NoBits(k: nat)
    ensures !Bit(0, k)
  {
    if k > 0 {
      NoBits(k - 1);
    }
  }

  lemma {:induction false} XorStep(a: nat, b: nat)
    ensures Xor(a, b) == (if a % 2 == b % 2 then 0 else 1) + 2 * Xor(a / 2, b / 2)
  {
  }

  lemma {:induction false} XorBits(a: nat, b: nat, k: nat)
    ensures Bit(Xor(a, b), k) <==> Bit(a, k) != Bit(b, k)
    decreases k
  {
    hide Xor;
    XorStep(a, b);
    if k > 0 {
      XorBits(a / 2, b / 2, k - 1);
    }
  }

  lemma {:induction false} XorBound(a: nat, b: nat, k: nat)
    requires a < Two(k) && b < Two(k)
    ensures Xor(a, b) < Two(k)
    decreases k
  {
    if k > 0 {
      XorBound(a / 2, b / 2, k - 1);
    }
  }

  lemma {:induction false} TwoAdd(j: nat, k: nat)
    ensures Two(j + k) == Two(j) * Two(k)
  {
    if j > 0 {
      TwoAdd(j - 1, k);
    }
  }

  lemma {:induction false} XorCanonical(a: Fe, b: Fe)
    ensures Xor(a, b) <= 0x7FFF_FFFF
  {
    hide *;
    TwoTo31();
    XorBound(a, b, 31);
  }

  lemma {:induction false} TwoTo31()
    ensures Two(31) == 0x8000_0000
  {
    assert Two(8) == 0x100 && Two(7) == 0x80;
    hide Two;
    TwoAdd(8, 8);
    TwoAdd(16, 8);
    TwoAdd(24, 7);
  }

  /** The leaf's counter wraps around 64 bits before it is folded. */
  function Counter(period: u64, idx: nat): u64 {
    (period + idx * 0x100) % 0x1_0000_0000_0000_0000
  }

  function LeafCoeffs(leaf: Leaf, idx: nat): (c: seq<Coefficient>)
    requires ValidLeaf(leaf)
    ensures |c| == 4
  {
    var high := Xor(Pack4(leaf.bitfield[4..8]), Pack4(leaf.objectRoot[4..8]));
    XorCanonical(Pack4(leaf.bitfield[4..8]), Pack4(leaf.objectRoot[4..8]));
    RedBound(Counter(leaf.period, idx));
    [M31.Red(Counter(leaf.period, idx)), Pack4(leaf.bitfield[..4]), Pack4(leaf.objectRoot[..4]), high]
  }

  lemma {:induction false} XorCancels(a: nat, b: nat, c: nat)
    requires Xor(a, c) == Xor(b, c)
    ensures a == b
    decreases a + b + c
  {
    if a + b + c > 0 {
      hide Xor;
      XorStep(a, c);
      XorStep(b, c);
      XorCancels(a / 2, b / 2, c / 2);
    }
  }

  /** Two leaves of one statement have the same coefficient words at a position exactly when the first
      two words of their bitfields agree modulo P. */
  lemma {:induction false} LeafDetermined(leaf: Leaf, other: Leaf, idx: nat)
    requires ValidLeaf(leaf) && ValidLeaf(other)
    requires leaf.period == other.period && leaf.objectRoot == other.objectRoot
    ensures LeafCoeffs(leaf, idx) == LeafCoeffs(other, idx) <==>
            && Word(leaf.bitfield[..4]) % 0x7FFF_FFFF == Word(other.bitfield[..4]) % 0x7FFF_FFFF
            && Word(leaf.bitfield[4..8]) % 0x7FFF_FFFF == Word(other.bitfield[4..8]) % 0x7FFF_FFFF
  {
    hide Xor, Word, M31.Red, Counter;
    PackIsResidue(leaf.bitfield[..4]);
    PackIsResidue(other.bitfield[..4]);
    PackIsResidue(leaf.bitfield[4..8]);
    PackIsResidue(other.bitfield[4..8]);
    var (a, b, c) := (Pack4(leaf.bitfield[4..8]), Pack4(other.bitfield[4..8]), Pack4(leaf.objectRoot[4..8]));
    if Xor(a, c) == Xor(b, c) {
      XorCancels(a, b, c);
    }
  }

  lemma {:induction false} PackIsResidue(b: seq<Byte>)
    requires |b| == 4
    ensures Pack4(b) == Word(b) % 0x7FFF_FFFF
  {
    hide Word, M31.Red;
    M31.RedRange(Word(b));
  }

  /** The counter tells positions apart: wherever the 64-bit counter stands, and even across its
      wrap-around, leaves of a period less than P/256 positions apart have different leading
      coefficients. */
  lemma {:induction false} PositionsDiffer(leaf: Leaf, other: Leaf, i: nat, j: nat)
    requires ValidLeaf(leaf) && ValidLeaf(other) && leaf.period == other.period
    requires i < j && 0x100 * (j - i) < 0x7FFF_FFFF
    ensures LeafCoeffs(leaf, i)[0] != LeafCoeffs(other, j)[0]
  {
    CounterAdvances(leaf.period, i, j);
    hide M31.Red, Counter, Xor;
    FoldsDiffer(Counter(leaf.period, i), 0x100 * (j - i), Counter(leaf.period, j));
  }

  lemma {:induction false} CounterAdvances(period: u64, i: nat, j: nat)
    requires i < j
    ensures Counter(period, j) == (Counter(period, i) + 0x100 * (j - i)) % 0x1_0000_0000_0000_0000
  {
    var (x, w) := (period + i * 0x100, 0x1_0000_0000_0000_0000);
    ModShift(x % w + 0x100 * (j - i), x / w, w);
    assert x % w + 0x100 * (j - i) + x / w * w == period + j * 0x100;
  }

  /** The fold of a word is its 31-bit halves added modulo 2^32, less P from P on. */
  lemma {:induction false} FoldValue(x: u64)
    ensures var v := (x % 0x8000_0000 + x / 0x8000_0000) % 0x1_0000_0000;
            M31.Red(x) == if v >= 0x7FFF_FFFF then v - 0x7FFF_FFFF else v
  {
    M31.LowBits(x);
    M31.WrapTwice(x % 0x8000_0000, x / 0x8000_0000);
  }

  /** The two halves of a sum: a carry moves 2^31 from the low half into one in the high half, and
      wrapping around 64 bits takes 2^33 from the high half. */
  lemma {:induction false} HalvesOfSum(x: u64, d: nat, y: u64, carry: nat, wrap: nat)
    requires 0 < d < 0x7FFF_FFFF && y == (x + d) % 0x1_0000_0000_0000_0000
    requires carry == if x % 0x8000_0000 + d < 0x8000_0000 then 0 else 1
    requires wrap == if x + d < 0x1_0000_0000_0000_0000 then 0 else 1
    ensures y % 0x8000_0000 == x % 0x8000_0000 + d - carry * 0x8000_0000
    ensures y / 0x8000_0000 == x / 0x8000_0000 + carry - wrap * 0x2_0000_0000
  {
    var (lo, hi) := (x % 0x8000_0000, x / 0x8000_0000);
    var (lo', hi') := (lo + d - carry * 0x8000_0000, hi + carry - wrap * 0x2_0000_0000);
    DivModUnique(x + d, 0x1_0000_0000_0000_0000, wrap, x + d - wrap * 0x1_0000_0000_0000_0000);
    DivModUnique(y, 0x8000_0000, hi', lo');
  }

  /** Two words less than P apart, in 64-bit arithmetic, never fold to the same value. */
  lemma {:induction false} FoldsDiffer(x: u64, d: nat, y: u64)
    requires 0 < d < 0x7FFF_FFFF && y == (x + d) % 0x1_0000_0000_0000_0000
    ensures M31.Red(x) != M31.Red(y)
  {
    hide M31.Red;
    FoldValue(x);
    FoldValue(y);
    var carry: nat := if x % 0x8000_0000 + d < 0x8000_0000 then 0 else 1;
    var wrap: nat := if x + d < 0x1_0000_0000_0000_0000 then 0 else 1;
    HalvesOfSum(x, d, y, carry, wrap);
    ValuesApart(x % 0x8000_0000 + x / 0x8000_0000, y % 0x8000_0000 + y / 0x8000_0000, d - carry * 0x7FFF_FFFF, wrap);
  }

  /** Sums that differ by less than P, up to multiples of 2^33, stay apart modulo 2^32 and after the
      subtraction of P. */
  lemma {:induction false} ValuesApart(s: nat, t: nat, e: int, wrap: int)
    requires -0x7FFF_FFFF < e < 0x7FFF_FFFF && e != 0 && t == s + e - wrap * 0x2_0000_0000
    ensures var (v, w) := (s % 0x1_0000_0000, t % 0x1_0000_0000);
            (if v >= 0x7FFF_FFFF then v - 0x7FFF_FFFF else v) != (if w >= 0x7FFF_FFFF then w - 0x7FFF_FFFF else w)
  {
    var (v, w) := (s % 0x1_0000_0000, t % 0x1_0000_0000);
    var k := t / 0x1_0000_0000 - s / 0x1_0000_0000 + 2 * wrap;
    assert w == v + e - k * 0x1_0000_0000;
    assert -1 <= k <= 1;
  }

  // ---------------------------------------------------------------- words as field elements

  function Embed(s: Coefficient): F2 { F2(s % 0x7FFF_FFFF, 0) }

  function EmbedAll(c: seq<Coefficient>): (f: seq<F2>)
    ensures |f| == |c|
  {
    if c == [] then [] else [Embed(c[0])] + EmbedAll(c[1..])
  }

  lemma {:induction false} EmbedFour(c: seq<Coefficient>)
    requires |c| == 4
    ensures EmbedAll(c) == [Embed(c[0]), Embed(c[1]), Embed(c[2]), Embed(c[3])]
  {
    hide Embed;
    assert EmbedAll(c[3..]) == [Embed(c[3])];
    assert EmbedAll(c[2..]) == [Embed(c[2])] + EmbedAll(c[2..][1..]) && c[2..][1..] == c[3..];
    assert EmbedAll(c[1..]) == [Embed(c[1])] + EmbedAll(c[1..][1..]) && c[1..][1..] == c[2..];
  }

  lemma {:induction false} XorSelf(a: nat)
    ensures Xor(a, a) == 0
  {
    if a > 0 { XorSelf(a / 2); }
  }

  /** The exclusive or has all k bits set exactly when the two numbers are complements. */
  lemma {:induction false} XorComplement(a: nat, b: nat, k: nat)
    requires a < Two(k) && b < Two(k)
    ensures Xor(a, b) == Two(k) - 1 <==> a + b == Two(k) - 1
    decreases k
  {
    if k > 0 {
      XorComplement(a / 2, b / 2, k - 1);
    }
  }

  /** 0 and P are the two words of one residue; the exclusive or takes both values at a word and at its
      complement. */
  lemma {:induction false} XorResidues(a: Fe, b: Fe, c: Fe)
    ensures Xor(a, c) % 0x7FFF_FFFF == Xor(b, c) % 0x7FFF_FFFF <==>
            a == b || (a + b == 0x7FFF_FFFF && (a == c || b == c))
  {
    hide Xor, Two;
    TwoTo31();
    XorCanonical(a, c);
    XorCanonical(b, c);
    XorComplement(a, c, 31);
    XorComplement(b, c, 31);
    XorSelf(c);
    if Xor(a, c) == Xor(b, c) { XorCancels(a, b, c); }
    if Xor(a, c) == 0 { XorCancels(a, c, c); }
    if Xor(b, c) == 0 { XorCancels(b, c, c); }
  }

  /** What a leaf contributes, in the field: two leaves of one statement contribute the same exactly when
      their first bitfield words agree modulo P, and the second ones do too or are the second word of the
      object root and its complement. */
  lemma {:induction false} LeafContributes(leaf: Leaf, other: Leaf, idx: nat)
    requires ValidLeaf(leaf) && ValidLeaf(other)
    requires leaf.period == other.period && leaf.objectRoot == other.objectRoot
    ensures EmbedAll(LeafCoeffs(leaf, idx)) == EmbedAll(LeafCoeffs(other, idx)) <==>
            && Word(leaf.bitfield[..4]) % 0x7FFF_FFFF == Word(other.bitfield[..4]) % 0x7FFF_FFFF
            && var (a, b) := (Word(leaf.bitfield[4..8]) % 0x7FFF_FFFF, Word(other.bitfield[4..8]) % 0x7FFF_FFFF);
               var c := Word(leaf.objectRoot[4..8]) % 0x7FFF_FFFF;
               a == b || (a + b == 0x7FFF_FFFF && (a == c || b == c))
  {
    hide Xor, Word, M31.Red, Counter, EmbedAll;
    EmbedFour(LeafCoeffs(leaf, idx));
    EmbedFour(LeafCoeffs(other, idx));
    PackIsResidue(leaf.bitfield[..4]);
    PackIsResidue(other.bitfield[..4]);
    PackIsResidue(leaf.bitfield[4..8]);
    PackIsResidue(other.bitfield[4..8]);
    PackIsResidue(leaf.objectRoot[4..8]);
    XorResidues(Pack4(leaf.bitfield[4..8]), Pack4(other.bitfield[4..8]), Pack4(leaf.objectRoot[4..8]));
  }

  /** 32 bytes with the given second word, least significant byte first, and zeros elsewhere. */
  function SecondWord(b4: Byte, b5: Byte, b6: Byte, b7: Byte): (b: seq<Byte>)
    ensures |b| == 32 && b[..4] == [0, 0, 0, 0] && b[4..8] == [b4, b5, b6, b7]
  {
    [0, 0, 0, 0, b4, b5, b6, b7] + seq(24, _ => 0)
  }

  /** Different bitfields, equal contributions: second words 1 and P - 1 over an object root with 1. */
  lemma {:induction false} SharedContribution(period: u64, idx: nat)
    ensures var (root, bits) := (SecondWord(1, 0, 0, 0), SecondWord(0xFE, 0xFF, 0xFF, 0x7F));
            var (leaf, other) := (Leaf(period, root, root), Leaf(period, bits, root));
            && ValidLeaf(leaf) && ValidLeaf(other)
            && LeafCoeffs(leaf, idx) != LeafCoeffs(other, idx)
            && EmbedAll(LeafCoeffs(leaf, idx)) == EmbedAll(LeafCoeffs(other, idx))
  {
    hide SecondWord, LeafCoeffs, EmbedAll;
    var (root, bits) := (SecondWord(1, 0, 0, 0), SecondWord(0xFE, 0xFF, 0xFF, 0x7F));
    var (leaf, other) := (Leaf(period, root, root), Leaf(period, bits, root));
    LeafDetermined(leaf, other, idx);
    LeafContributes(leaf, other, idx);
  }

  lemma {:induction false} ScaleIsMul(z: F2, s: Coefficient)
    ensures z.Scale(s) == z.Mul(Embed(s))
  {
    hide M31.Red, M31.Add, M31.Sub, M31.Mul;
    var t: Fe := s % 0x7FFF_FFFF;
    CrossSub(z.a, t, z.b, 0);
    CrossAdd(z.a, 0, z.b, t);
    ModTimes(s, t, z.a);
    ModTimes(s, t, z.b);
  }

  /** Coefficient times power, one power at a time, is Horner's rule. */
  method EvalWords(c: seq<Coefficient>, x: F2) returns (acc: F2)
    ensures acc == Eval(EmbedAll(c), x)
  {
    hide F2.Add, F2.Mul, F2.Scale, Embed;
    ghost var all := Eval(EmbedAll(c), x);
    acc := ZERO;
    var power := ONE;
    var j := 0;
    MulOne(all);
    AddLaws(ZERO, all, ZERO);
    AddLaws(all, ZERO, ZERO);
    assert c[0..] == c;
    while j < |c|
      invariant 0 <= j <= |c|
      invariant acc.Add(power.Mul(Eval(EmbedAll(c[j..]), x))) == all
    {
      assert c[j..][1..] == c[j + 1..];
      EvalCons(Embed(c[j]), EmbedAll(c[j + 1..]), x);
      PowerStep(acc, power, Embed(c[j]), Eval(EmbedAll(c[j + 1..]), x), x);
      ScaleIsMul(power, c[j]);
      acc := acc.Add(power.Scale(c[j]));
      power := power.Mul(x);
      j := j + 1;
    }
    MulZero(power);
    AddLaws(acc, ZERO, ZERO);
  }

  // ---------------------------------------------------------------- composition

  function AddWords(a: seq<Fe>, c: seq<Coefficient>): (r: seq<Fe>)
    requires |a| == |c|
    ensures |r| == |a|
  {
    if a == [] then [] else [M31.Add(a[0], c[0])] + AddWords(a[1..], c[1..])
  }

  /** The sum of the coefficients of the first n leaves. */
  function Composed(leaves: seq<Leaf>, n: nat): (c: seq<Fe>)
    requires ValidLeaves(leaves) && n <= |leaves|
    ensures |c| == 4
  {
    if n == 0 then [0, 0, 0, 0] else AddWords(Composed(leaves, n - 1), LeafCoeffs(leaves[n - 1], n - 1))
  }

  /** The sum of the values of the first n leaves' cubics. */
  function SumAt(leaves: seq<Leaf>, n: nat, x: F2): F2
    requires ValidLeaves(leaves) && n <= |leaves|
  {
    if n == 0 then ZERO else SumAt(leaves, n - 1, x).Add(Eval(EmbedAll(LeafCoeffs(leaves[n - 1], n - 1)), x))
  }

  lemma {:induction false} EmbedSum(a: seq<Fe>, c: seq<Coefficient>)
    requires |a| == |c|
    ensures EmbedAll(AddWords(a, c)) == AddPoly(EmbedAll(a), EmbedAll(c))
  {
    if a != [] {
      EmbedSum(a[1..], c[1..]);
      EmbedAdd(a[0], c[0]);
    }
  }

  lemma {:induction false} EmbedAdd(a: Fe, c: Coefficient)
    ensures Embed(M31.Add(a, c)) == Embed(a).Add(Embed(c))
  {
    hide M31.Red, M31.Add;
    var t: int := c % 0x7FFF_FFFF;
    SmallShift(a + c, a + t);
  }

  /** Adding the evaluations is evaluating the added coefficients. */
  lemma {:induction false} SumOfCubics(leaves: seq<Leaf>, n: nat, x: F2)
    requires ValidLeaves(leaves) && n <= |leaves|
    ensures SumAt(leaves, n, x) == Eval(EmbedAll(Composed(leaves, n)), x)
  {
    hide *;
    if n == 0 {
      SumStart(leaves, x);
    } else {
      SumOfCubics(leaves, n - 1, x);
      SumStep(leaves, n, x);
      var (a, c) := (Composed(leaves, n - 1), LeafCoeffs(leaves[n - 1], n - 1));
      EmbedSum(a, c);
      EvalAdd(EmbedAll(a), EmbedAll(c), x);
    }
  }

  lemma {:induction false} SumStep(leaves: seq<Leaf>, n: nat, x: F2)
    requires ValidLeaves(leaves) && 0 < n <= |leaves|
    ensures ValidLeaf(leaves[n - 1])
    ensures SumAt(leaves, n, x) == SumAt(leaves, n - 1, x).Add(Eval(EmbedAll(LeafCoeffs(leaves[n - 1], n - 1)), x))
    ensures Composed(leaves, n) == AddWords(Composed(leaves, n - 1), LeafCoeffs(leaves[n - 1], n - 1))
  {
    hide Eval, EmbedAll, LeafCoeffs, AddWords, F2.Add;
  }

  lemma {:induction false} SumStart(leaves: seq<Leaf>, x: F2)
    requires ValidLeaves(leaves)
    ensures SumAt(leaves, 0, x) == Eval(EmbedAll(Composed(leaves, 0)), x)
  {
    hide Eval, EmbedAll;
    ZeroCubic(x);
  }

  lemma {:induction false} ZeroCubic(x: F2)
    ensures Eval(EmbedAll([0, 0, 0, 0]), x) == ZERO
  {
    var zeros := [ZERO, ZERO, ZERO, ZERO];
    assert EmbedAll([0, 0, 0, 0]) == zeros;
    MulZero(x);
    AddLaws(ZERO, ZERO, ZERO);
    hide F2.Add, F2.Mul, EmbedAll;
    EvalCons(ZERO, [], x);
    EvalCons(ZERO, [ZERO], x);
    EvalCons(ZERO, [ZERO, ZERO], x);
    EvalCons(ZERO, [ZERO, ZERO, ZERO], x);
    assert [ZERO] + [ZERO, ZERO, ZERO] == zeros;
  }

  /** The composed values on the domain. */
  function ComposeEvals(leaves: seq<Leaf>): (ev: seq<F2>)
    requires ValidLeaves(leaves)
    ensures |ev| == DOMAIN
  {
    seq(DOMAIN, k requires 0 <= k => SumAt(leaves, |leaves|, Point(DOMAIN, k)))
  }

  /** Compose before proving: the sum of the leaves' values is the codeword of one cubic. */
  lemma {:induction false} ComposedIsCodeword(leaves: seq<Leaf>)
    requires ValidLeaves(leaves)
    ensures Codeword(ComposeEvals(leaves), EmbedAll(Composed(leaves, |leaves|)), DOMAIN)
  {
    hide SumAt, Eval, EmbedAll, Composed, Point;
    var f := EmbedAll(Composed(leaves, |leaves|));
    forall k | 0 <= k < DOMAIN
      ensures ComposeEvals(leaves)[k] == Eval(f, Point(DOMAIN, k))
    {
      SumOfCubics(leaves, |leaves|, Point(DOMAIN, k));
    }
  }

  /** The k-th composed value is the composed cubic at omega^k. */
  lemma {:induction false} ComposedValue(leaves: seq<Leaf>, k: nat)
    requires ValidLeaves(leaves) && k < 16
    ensures ComposeEvals(leaves)[k] == Eval(EmbedAll(Composed(leaves, |leaves|)), FPow(Omega(), k))
  {
    ComposedIsCodeword(leaves);
    hide SumAt, Eval, EmbedAll, Composed, FPow, ComposeEvals;
  }

  /** Equal codewords mean equal composed coefficients. */
  lemma {:induction false} CodewordDetermines(leaves: seq<Leaf>, others: seq<Leaf>)
    requires ValidLeaves(leaves) && ValidLeaves(others)
    ensures ComposeEvals(leaves) == ComposeEvals(others) <==> Composed(leaves, |leaves|) == Composed(others, |others|)
  {
    hide ComposeEvals, Eval, EmbedAll, Composed, Point;
    ComposedIsCodeword(leaves);
    ComposedIsCodeword(others);
    var (c, d) := (Composed(leaves, |leaves|), Composed(others, |others|));
    if ComposeEvals(leaves) == ComposeEvals(others) {
      ValuesDetermine(EmbedAll(c), EmbedAll(d), DOMAIN);
      EmbedInjective(c, d);
    }
    if c == d {
      assert ComposeEvals(leaves) == ComposeEvals(others);
    }
  }

  lemma {:induction false} EmbedInjective(c: seq<Fe>, d: seq<Fe>)
    requires |c| == |d| && EmbedAll(c) == EmbedAll(d)
    ensures c == d
  {
    if c != [] {
      assert EmbedAll(c)[0] == Embed(c[0]) && EmbedAll(c)[1..] == EmbedAll(c[1..]);
      assert EmbedAll(d)[0] == Embed(d[0]) && EmbedAll(d)[1..] == EmbedAll(d[1..]);
      EmbedInjective(c[1..], d[1..]);
      assert c == [c[0]] + c[1..] && d == [d[0]] + d[1..];
    }
  }

  /** Whatever the leaves, hashes and challenges, the proof of their composition is accepted. */
  lemma {:induction false} CompositionAccepted(o: Oracle, leaves: seq<Leaf>)
    requires ValidLeaves(leaves)
    ensures Verdict(o, ComposeEvals(leaves), HonestProof(o, ComposeEvals(leaves))) == Accept
  {
    assert DOMAIN == 16;
    hide *;
    ComposedIsCodeword(leaves);
    LowDegreeAccepted(o, ComposeEvals(leaves), EmbedAll(Composed(leaves, |leaves|)));
  }
}
