/** A hash with 32-byte digests that does not collide on the trees over any two given lists of 16
    values, so the binding results of the Merkle trees speak about hashes of the width the source uses
    (crates/lean-aggregate/src/fri.rs). */
module HashExample {
  import opened Words
  import opened NumberTheory
  import opened M31Extension
  import opened Merkle

  // ---------------------------------------------------------------- numbers as bytes

  function ToBytes(n: nat, k: nat): (s: seq<Byte>)
    ensures |s| == k
  {
    if k == 0 then [] else [n % 0x100] + ToBytes(n / 0x100, k - 1)
  }

  function FromBytes(s: seq<Byte>): nat {
    if s == [] then 0 else s[0] + 0x100 * FromBytes(s[1..])
  }

  lemma {:induction false} BytesRoundTrip(n: nat, k: nat)
    requires n < Pow(0x100, k)
    ensures FromBytes(ToBytes(n, k)) == n
  {
    if k > 0 {
      assert n / 0x100 < Pow(0x100, k - 1);
      BytesRoundTrip(n / 0x100, k - 1);
      assert ToBytes(n, k)[1..] == ToBytes(n / 0x100, k - 1);
    }
  }

  /** 2^256 */
  const WIDTH: nat := 0x1_0000_0000_0000_0000_0000_0000_0000_0000_0000_0000_0000_0000_0000_0000_0000_0000

  lemma {:induction false} WidthIs()
    ensures Pow(0x100, 32) == WIDTH
  {
    assert Pow(0x100, 4) == 0x1_0000_0000;
    hide Pow;
    PowAdd(0x100, 4, 4);
    PowAdd(0x100, 8, 8);
    PowAdd(0x100, 16, 16);
  }

  // ---------------------------------------------------------------- pairing

  function PairUp(a: nat, b: nat): nat { (a + b) * (a + b) + a }

  lemma {:induction false} PairUpInjective(a: nat, b: nat, c: nat, d: nat)
    requires PairUp(a, b) == PairUp(c, d)
    ensures a == c && b == d
  {
    var (s, t) := (a + b, c + d);
    if s < t {
      SquareGap(s, t);
    } else if t < s {
      SquareGap(t, s);
    }
  }

  lemma {:induction false} SquareGap(s: nat, t: nat)
    requires s < t
    ensures s * s + s < t * t
  {
    MulMonotone(s + 1, t, s + 1);
    MulMonotone(s + 1, t, t);
    assert (s + 1) * (s + 1) == s * s + 2 * s + 1;
  }

  lemma {:induction false} PairUpBound(a: nat, b: nat, m: nat)
    requires a < m && b < m
    ensures PairUp(a, b) < 4 * (m * m)
  {
    var s := a + b;
    SquareGap(s, 2 * m);
    assert (2 * m) * (2 * m) == 4 * (m * m);
  }

  // ---------------------------------------------------------------- the hash

  /** The first position of a value, or the length of the list. */
  function IndexIn(known: seq<F2>, v: F2): (i: nat)
    ensures i <= |known| && (i < |known| ==> known[i] == v) && (v in known ==> i < |known|)
  {
    if known == [] then 0 else if known[0] == v then 0 else 1 + IndexIn(known[1..], v)
  }

  function Encode(n: nat): Digest { Digest(ToBytes(n, 32)) }

  function Number(d: Digest): nat { FromBytes(d.bytes) }

  /** Leaves get even numbers by their place in a list, nodes odd numbers from the numbers below. */
  function Numbering(known: seq<F2>): Hash {
    Hash(v => Encode(2 * IndexIn(known, v)), (l, r) => Encode(2 * PairUp(Number(l), Number(r)) + 1))
  }

  lemma {:induction false} NumberEncode(n: nat)
    requires n < WIDTH
    ensures Number(Encode(n)) == n && |Encode(n).bytes| == 32
  {
    WidthIs();
    BytesRoundTrip(n, 32);
  }

  /** A digest that encodes a number below m. */
  predicate Coded(d: Digest, m: nat) { Number(d) < m && d == Encode(Number(d)) }

  ghost predicate AllCoded(level: seq<Digest>, m: nat) {
    forall i :: 0 <= i < |level| ==> Coded(level[i], m)
  }

  ghost predicate PairsCoded(pairs: set<Pair>, m: nat) {
    forall p :: p in pairs ==> Coded(p.0, m) && Coded(p.1, m)
  }

  /** The bound one level up. */
  function Grown(m: nat): nat { 8 * (m * m) }

  lemma {:induction false} NodeCoded(known: seq<F2>, l: Digest, r: Digest, m: nat)
    requires Coded(l, m) && Coded(r, m) && Grown(m) <= WIDTH
    ensures Coded(Numbering(known).node(l, r), Grown(m))
    ensures Number(Numbering(known).node(l, r)) == 2 * PairUp(Number(l), Number(r)) + 1
  {
    hide Encode, Number, PairUp, WIDTH;
    PairUpBound(Number(l), Number(r), m);
    NumberEncode(2 * PairUp(Number(l), Number(r)) + 1);
  }

  lemma {:induction false} LeafCoded(known: seq<F2>, v: F2)
    requires v in known && |known| <= 32
    ensures Coded(Numbering(known).leaf(v), 64) && Number(Numbering(known).leaf(v)) == 2 * IndexIn(known, v)
  {
    hide Encode, Number;
    NumberEncode(2 * IndexIn(known, v));
  }

  lemma {:induction false} UpCoded(known: seq<F2>, level: seq<Digest>, n: nat, m: nat)
    requires |level| == 2 * n && AllCoded(level, m) && Grown(m) <= WIDTH
    ensures AllCoded(Up(Numbering(known), level, n), Grown(m)) && PairsCoded(PairsOf(level, n), m)
  {
    hide Coded, Numbering, Grown;
    forall i | 0 <= i < n
      ensures Coded(Up(Numbering(known), level, n)[i], Grown(m))
    {
      NodeCoded(known, level[2 * i], level[2 * i + 1], m);
    }
  }

  /** Four doublings of the bit length, starting from six bits, stay within the width. */
  predicate GrowsWithin(m: nat, d: nat, top: nat)
    decreases d
  {
    d == 0 || (m <= top && Grown(m) <= WIDTH && GrowsWithin(Grown(m), d - 1, top))
  }

  const TOP: nat := 0x20_0000_0000_0000_0000

  lemma {:induction false} FourLevels()
    ensures GrowsWithin(64, 4, TOP) && Grown(TOP) <= WIDTH
  {
    var (a, b, c) := (0x8000, 0x2_0000_0000, TOP);
    assert Grown(64) == a && Grown(a) == b && Grown(b) == c && Grown(c) <= WIDTH;
    hide Grown, WIDTH, TOP;
    assert GrowsWithin(c, 1, TOP) by { assert GrowsWithin(Grown(c), 0, TOP); }
    assert GrowsWithin(b, 2, TOP);
    assert GrowsWithin(a, 3, TOP);
  }

  lemma {:induction false} TreePairsCoded(known: seq<F2>, level: seq<Digest>, d: nat, m: nat, top: nat)
    requires |level| == Two(d) && AllCoded(level, m) && GrowsWithin(m, d, top)
    ensures PairsCoded(TreePairs(Numbering(known), level, d), top)
    decreases d
  {
    hide Numbering, Coded, Grown, WIDTH, Up, PairsOf;
    if d > 0 {
      var n := Two(d - 1);
      UpCoded(known, level, n, m);
      PairsRaise(PairsOf(level, n), m, top);
      TreePairsCoded(known, Up(Numbering(known), level, n), d - 1, Grown(m), top);
    }
  }

  lemma {:induction false} PairsRaise(pairs: set<Pair>, m: nat, top: nat)
    requires PairsCoded(pairs, m) && m <= top
    ensures PairsCoded(pairs, top)
  {
    hide Encode, Number;
  }

  lemma {:induction false} LeavesCoded(known: seq<F2>, vals: seq<F2>)
    requires |known| <= 32 && ValueSet(vals) <= ValueSet(known)
    ensures AllCoded(Leaves(Numbering(known), vals), 64)
  {
    hide Numbering, Coded;
    forall i | 0 <= i < |vals|
      ensures Coded(Leaves(Numbering(known), vals)[i], 64)
    {
      assert vals[i] in ValueSet(vals) && vals[i] in ValueSet(known);
      LeafCoded(known, vals[i]);
    }
  }

  lemma {:induction false} NodesApart(known: seq<F2>, p: Pair, q: Pair)
    requires Coded(p.0, TOP) && Coded(p.1, TOP) && Coded(q.0, TOP) && Coded(q.1, TOP)
    requires Numbering(known).node(p.0, p.1) == Numbering(known).node(q.0, q.1)
    ensures p == q
  {
    FourLevels();
    hide Numbering, WIDTH, TOP, Encode, Number, PairUp, Grown, GrowsWithin;
    NodeCoded(known, p.0, p.1, TOP);
    NodeCoded(known, q.0, q.1, TOP);
    PairUpInjective(Number(p.0), Number(p.1), Number(q.0), Number(q.1));
  }

  lemma {:induction false} CodedMeansFree(known: seq<F2>, pairs: set<Pair>)
    requires |known| <= 32 && PairsCoded(pairs, TOP)
    ensures CollisionFree(Numbering(known), ValueSet(known), pairs)
  {
    var h := Numbering(known);
    FourLevels();
    hide Numbering, WIDTH, TOP, Coded, Number, Grown, GrowsWithin;
    forall p, q | p in pairs && q in pairs && h.node(p.0, p.1) == h.node(q.0, q.1)
      ensures p == q
    {
      NodesApart(known, p, q);
    }
    forall v, w | v in ValueSet(known) && w in ValueSet(known) && h.leaf(v) == h.leaf(w)
      ensures v == w
    {
      LeafCoded(known, v);
      LeafCoded(known, w);
    }
    forall v, p | v in ValueSet(known) && p in pairs
      ensures h.leaf(v) != h.node(p.0, p.1)
    {
      LeafCoded(known, v);
      NodeCoded(known, p.0, p.1, TOP);
    }
  }

  lemma {:induction false} KnownValues(vals: seq<F2>, others: seq<F2>)
    ensures ValueSet(vals + others) == ValueSet(vals) + ValueSet(others)
  {
    var all := vals + others;
    forall i | 0 <= i < |vals| ensures vals[i] in ValueSet(all) { assert all[i] == vals[i]; }
    forall i | 0 <= i < |others| ensures others[i] in ValueSet(all) { assert all[|vals| + i] == others[i]; }
  }

  /** For any two lists of 16 values there is a hash with 32-byte digests that does not collide on the
      two trees over them. */
  lemma {:induction false} WideEnough(vals: seq<F2>, others: seq<F2>)
    requires |vals| == |others| == Two(4)
    ensures TreesCollisionFree(Numbering(vals + others), vals, others, 4)
    ensures forall v :: |Numbering(vals + others).leaf(v).bytes| == 32
    ensures forall l, r :: |Numbering(vals + others).node(l, r).bytes| == 32
  {
    hide Numbering, Two, TreePairs, Leaves, ValueSet, PairsCoded, GrowsWithin, CollisionFree, AllCoded, TOP, WIDTH;
    var known := vals + others;
    var h := Numbering(known);
    TwoTo4();
    KnownValues(vals, others);
    FourLevels();
    LeavesCoded(known, vals);
    LeavesCoded(known, others);
    TreePairsCoded(known, Leaves(h, vals), 4, 64, TOP);
    TreePairsCoded(known, Leaves(h, others), 4, 64, TOP);
    var pairs := TreePairs(h, Leaves(h, vals), 4) + TreePairs(h, Leaves(h, others), 4);
    BothCoded(TreePairs(h, Leaves(h, vals), 4), TreePairs(h, Leaves(h, others), 4));
    CodedMeansFree(known, pairs);
    DigestWidth(known);
  }

  lemma {:induction false} BothCoded(p: set<Pair>, q: set<Pair>)
    requires PairsCoded(p, TOP) && PairsCoded(q, TOP)
    ensures PairsCoded(p + q, TOP)
  {
    hide Coded;
  }

  lemma {:induction false} DigestWidth(known: seq<F2>)
    ensures forall v :: |Numbering(known).leaf(v).bytes| == 32
    ensures forall l, r :: |Numbering(known).node(l, r).bytes| == 32
  {
  }
}
