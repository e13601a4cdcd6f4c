/** The Merkle trees of crates/lean-aggregate/src/fri.rs over arbitrary hash functions: an opening
    always checks, and when the hashes do not collide it is the only thing that does. */
module Merkle {
  import opened Words
  import opened M31Extension

  /** A hash value of any width. */
  datatype Digest = Digest(bytes: seq<Byte>)

  const ZERO_DIGEST := Digest(seq(32, _ => 0))

  /** The two hash functions of the tree. */
  datatype Hash = Hash(leaf: F2 -> Digest, node: (Digest, Digest) -> Digest)

  // ---------------------------------------------------------------- powers of two

  function Two(d: nat): (r: nat)
    ensures r >= 1
  {
    if d == 0 then 1 else 2 * Two(d - 1)
  }

  lemma {:induction false} TwoTo4()
    ensures Two(4) == 16
  {
  }

  /** The depth of the smallest tree with room for n leaves. */
  function Depth(n: nat): (d: nat)
    requires n > 0
    ensures n <= Two(d) && Two(d) < 2 * n
  {
    if n == 1 then 0 else 1 + Depth((n + 1) / 2)
  }

  predicate PowerOfTwo(n: nat) {
    n == 1 || (n > 1 && n % 2 == 0 && PowerOfTwo(n / 2))
  }

  lemma {:induction false} PowersAreTwos(n: nat)
    requires n > 0
    ensures PowerOfTwo(n) <==> n == Two(Depth(n))
  {
    if n > 1 {
      PowersAreTwos((n + 1) / 2);
    }
  }

  lemma {:induction false} DepthOfTwo(d: nat)
    ensures Depth(Two(d)) == d
  {
    if d > 0 {
      DepthOfTwo(d - 1);
      assert (Two(d) + 1) / 2 == Two(d - 1);
    }
  }

  // ---------------------------------------------------------------- the tree as functions

  function Leaves(h: Hash, vals: seq<F2>): (level: seq<Digest>)
    ensures |level| == |vals|
  {
    seq(|vals|, i requires 0 <= i < |vals| => h.leaf(vals[i]))
  }

  /** The leaf hashes, filled up with zero digests to the next power of two. */
  function Padded(h: Hash, vals: seq<F2>): (level: seq<Digest>)
    requires vals != []
    ensures |level| == Two(Depth(|vals|))
  {
    Leaves(h, vals) + seq(Two(Depth(|vals|)) - |vals|, _ => ZERO_DIGEST)
  }

  function Up(h: Hash, level: seq<Digest>, m: nat): (r: seq<Digest>)
    requires |level| == 2 * m
    ensures |r| == m
  {
    seq(m, i requires 0 <= i < m => h.node(level[2 * i], level[2 * i + 1]))
  }

  /** All levels of the tree of depth d, the leaves first. */
  function Levels(h: Hash, level: seq<Digest>, d: nat): (r: seq<seq<Digest>>)
    requires |level| == Two(d)
    ensures |r| == d + 1 && r[0] == level
    decreases d
  {
    if d == 0 then [level] else [level] + Levels(h, Up(h, level, Two(d - 1)), d - 1)
  }

  function Root(h: Hash, level: seq<Digest>, d: nat): Digest
    requires |level| == Two(d)
    decreases d
  {
    if d == 0 then level[0] else Root(h, Up(h, level, Two(d - 1)), d - 1)
  }

  function Sibling(i: nat): nat { if i % 2 == 0 then i + 1 else i - 1 }

  /** The digests beside the way from slot i to the root. */
  function Open(h: Hash, level: seq<Digest>, d: nat, i: nat): (path: seq<Digest>)
    requires |level| == Two(d) && i < |level|
    ensures |path| == d
    decreases d
  {
    if d == 0 then [] else [level[Sibling(i)]] + Open(h, Up(h, level, Two(d - 1)), d - 1, i / 2)
  }

  function Join(h: Hash, cur: Digest, i: nat, sibling: Digest): Digest {
    if i % 2 == 0 then h.node(cur, sibling) else h.node(sibling, cur)
  }

  /** The digest reached from `cur` at slot i along a path. */
  function Climb(h: Hash, cur: Digest, i: nat, path: seq<Digest>): Digest
    decreases |path|
  {
    if path == [] then cur else Climb(h, Join(h, cur, i, path[0]), i / 2, path[1..])
  }

  predicate Checks(h: Hash, v: F2, i: nat, path: seq<Digest>, root: Digest) {
    Climb(h, h.leaf(v), i, path) == root
  }

  function RootOf(h: Hash, vals: seq<F2>): Digest
    requires vals != []
  {
    Root(h, Padded(h, vals), Depth(|vals|))
  }

  function OpeningOf(h: Hash, vals: seq<F2>, i: nat): seq<Digest>
    requires i < |vals|
  {
    Open(h, Padded(h, vals), Depth(|vals|), i)
  }

  /** The slots on the next level up. */
  lemma {:induction false} HalfSize(size: nat, d: nat, i: nat)
    requires size == Two(d) && d > 0 && i < size
    ensures size == 2 * Two(d - 1) && Sibling(i) < size && i / 2 < Two(d - 1)
  {
  }

  // One level of the tree, for proofs that keep the recursive definitions folded.

  lemma {:induction false} RootUp(h: Hash, level: seq<Digest>, d: nat, m: nat)
    requires |level| == Two(d) == 2 * m && d > 0 && m == Two(d - 1)
    ensures Root(h, level, d) == Root(h, Up(h, level, m), d - 1)
  {
    hide Up, Two;
  }

  lemma {:induction false} LevelsUp(h: Hash, level: seq<Digest>, d: nat, m: nat)
    requires |level| == Two(d) == 2 * m && d > 0 && m == Two(d - 1)
    ensures Levels(h, level, d) == [level] + Levels(h, Up(h, level, m), d - 1)
  {
    hide Up, Two;
  }

  lemma {:induction false} OpenUp(h: Hash, level: seq<Digest>, d: nat, m: nat, i: nat)
    requires |level| == Two(d) == 2 * m && d > 0 && m == Two(d - 1)
    requires i < |level| && Sibling(i) < |level| && i / 2 < m
    ensures Open(h, level, d, i) == [level[Sibling(i)]] + Open(h, Up(h, level, m), d - 1, i / 2)
  {
    hide Up, Two, Sibling;
  }

  lemma {:induction false} SingleLeaf(h: Hash, level: seq<Digest>, i: nat)
    requires |level| == Two(0) && i < |level|
    ensures i == 0 && |level| == 1 && Root(h, level, 0) == level[0] && Open(h, level, 0, i) == []
    ensures Levels(h, level, 0) == [level]
  {
  }

  lemma {:induction false} ClimbNone(h: Hash, cur: Digest, i: nat)
    ensures Climb(h, cur, i, []) == cur
  {
  }

  /** A parent is its child joined with the child's sibling. */
  lemma {:induction false} ParentJoins(h: Hash, level: seq<Digest>, m: nat, i: nat)
    requires |level| == 2 * m && i < |level|
    ensures Sibling(i) < |level| && i / 2 < m
    ensures Up(h, level, m)[i / 2] == Join(h, level[i], i, level[Sibling(i)])
  {
  }

  lemma {:induction false} ClimbOne(h: Hash, cur: Digest, i: nat, sibling: Digest, rest: seq<Digest>)
    ensures Climb(h, cur, i, [sibling] + rest) == Climb(h, Join(h, cur, i, sibling), i / 2, rest)
  {
    assert ([sibling] + rest)[1..] == rest;
  }

  // ---------------------------------------------------------------- openings check

  lemma {:induction false} ClimbOpening(h: Hash, level: seq<Digest>, d: nat, i: nat)
    requires |level| == Two(d) && i < |level|
    ensures Climb(h, level[i], i, Open(h, level, d, i)) == Root(h, level, d)
    decreases d
  {
    hide *;
    if d == 0 {
      SingleLeaf(h, level, i);
      ClimbNone(h, level[i], i);
    } else {
      var m := Two(d - 1);
      HalfSize(|level|, d, i);
      RootUp(h, level, d, m);
      OpenUp(h, level, d, m, i);
      var up := Up(h, level, m);
      ParentJoins(h, level, m, i);
      ClimbOpening(h, up, d - 1, i / 2);
      ClimbOne(h, level[i], i, level[Sibling(i)], Open(h, up, d - 1, i / 2));
    }
  }

  /** Whatever the hash functions are, the opening of every value checks against the root. */
  lemma {:induction false} OpeningChecks(h: Hash, vals: seq<F2>, i: nat)
    requires i < |vals|
    ensures Checks(h, vals[i], i, OpeningOf(h, vals, i), RootOf(h, vals))
  {
    hide Climb, Root, Open, Depth, Two;
    ClimbOpening(h, Padded(h, vals), Depth(|vals|), i);
  }

  // ---------------------------------------------------------------- and nothing else does

  /** The two digests a node hash combines. */
  type Pair = (Digest, Digest)

  /** No two of these leaf and node inputs collide.  Any hash has collisions somewhere; what binding
      needs is that none occurs among the finitely many inputs at hand. */
  ghost predicate CollisionFree(h: Hash, leaves: set<F2>, pairs: set<Pair>) {
    && (forall p, q :: p in pairs && q in pairs && h.node(p.0, p.1) == h.node(q.0, q.1) ==> p == q)
    && (forall v, w :: v in leaves && w in leaves && h.leaf(v) == h.leaf(w) ==> v == w)
    && (forall v, p :: v in leaves && p in pairs ==> h.leaf(v) != h.node(p.0, p.1))
  }

  function PairsOf(level: seq<Digest>, m: nat): set<Pair>
    requires |level| == 2 * m
  {
    set i | 0 <= i < m :: (level[2 * i], level[2 * i + 1])
  }

  /** The inputs of the node hashes inside the tree. */
  function TreePairs(h: Hash, level: seq<Digest>, d: nat): set<Pair>
    requires |level| == Two(d)
    decreases d
  {
    if d == 0 then {} else PairsOf(level, Two(d - 1)) + TreePairs(h, Up(h, level, Two(d - 1)), d - 1)
  }

  function JoinPair(cur: Digest, i: nat, sibling: Digest): Pair {
    if i % 2 == 0 then (cur, sibling) else (sibling, cur)
  }

  /** The inputs of the node hashes on a climb. */
  function ClimbPairs(h: Hash, cur: Digest, i: nat, path: seq<Digest>): set<Pair>
    decreases |path|
  {
    if path == [] then {}
    else {JoinPair(cur, i, path[0])} + ClimbPairs(h, Join(h, cur, i, path[0]), i / 2, path[1..])
  }

  lemma {:induction false} TreePairsUp(h: Hash, level: seq<Digest>, d: nat, m: nat)
    requires |level| == Two(d) == 2 * m && d > 0 && m == Two(d - 1)
    ensures TreePairs(h, level, d) == PairsOf(level, m) + TreePairs(h, Up(h, level, m), d - 1)
  {
    hide Up, Two, PairsOf;
  }

  lemma {:induction false} ClimbPairsOne(h: Hash, cur: Digest, i: nat, path: seq<Digest>)
    requires path != []
    ensures ClimbPairs(h, cur, i, path)
         == {JoinPair(cur, i, path[0])} + ClimbPairs(h, Join(h, cur, i, path[0]), i / 2, path[1..])
    ensures Climb(h, cur, i, path) == Climb(h, Join(h, cur, i, path[0]), i / 2, path[1..])
  {
    hide Join, JoinPair;
  }

  /** If the inputs do not collide, equal parents have equal children. */
  lemma {:induction false} ParentsDetermine(h: Hash, level: seq<Digest>, m: nat, cur: Digest, i: nat, sibling: Digest,
                                            leaves: set<F2>, pairs: set<Pair>)
    requires |level| == 2 * m && i < |level| && CollisionFree(h, leaves, pairs)
    requires PairsOf(level, m) <= pairs && JoinPair(cur, i, sibling) in pairs
    requires Join(h, cur, i, sibling) == Up(h, level, m)[i / 2]
    ensures Sibling(i) < |level| && cur == level[i] && sibling == level[Sibling(i)]
  {
    var j := i / 2;
    var p := (level[2 * j], level[2 * j + 1]);
    assert p in PairsOf(level, m);
    assert h.node(p.0, p.1) == Up(h, level, m)[j];
  }

  lemma {:induction false} OnlyOpeningClimbs(h: Hash, level: seq<Digest>, d: nat, cur: Digest, i: nat,
                                             path: seq<Digest>, leaves: set<F2>, pairs: set<Pair>)
    requires CollisionFree(h, leaves, pairs) && |level| == Two(d) && i < |level|
    requires TreePairs(h, level, d) <= pairs && ClimbPairs(h, cur, i, path) <= pairs
    requires |path| == d && Climb(h, cur, i, path) == Root(h, level, d)
    ensures cur == level[i] && path == Open(h, level, d, i)
    decreases d
  {
    hide *;
    if d == 0 {
      SingleLeaf(h, level, i);
      ClimbNone(h, cur, i);
    } else {
      var m := Two(d - 1);
      HalfSize(|level|, d, i);
      RootUp(h, level, d, m);
      OpenUp(h, level, d, m, i);
      TreePairsUp(h, level, d, m);
      ClimbPairsOne(h, cur, i, path);
      OnlyOpeningClimbs(h, Up(h, level, m), d - 1, Join(h, cur, i, path[0]), i / 2, path[1..], leaves, pairs);
      ParentsDetermine(h, level, m, cur, i, path[0], leaves, pairs);
      assert path == [path[0]] + path[1..];
    }
  }

  /** The slot after k steps up. */
  function Ancestor(i: nat, k: nat): nat
    decreases k
  {
    if k == 0 then i else Ancestor(i / 2, k - 1)
  }

  /** A climb ends with one join. */
  lemma {:induction false} ClimbLast(h: Hash, cur: Digest, i: nat, path: seq<Digest>)
    requires path != []
    ensures var (k, all) := (|path| - 1, ClimbPairs(h, cur, i, path));
            var below := Climb(h, cur, i, path[..k]);
            && Climb(h, cur, i, path) == Join(h, below, Ancestor(i, k), path[k])
            && JoinPair(below, Ancestor(i, k), path[k]) in all && ClimbPairs(h, cur, i, path[..k]) <= all
    decreases |path|
  {
    hide Join, JoinPair;
    var k := |path| - 1;
    if k > 0 {
      ClimbLast(h, Join(h, cur, i, path[0]), i / 2, path[1..]);
      assert path[1..][..k - 1] == path[..k][1..];
    }
  }

  /** The root over two halves is the node over their roots, and their trees are parts of its tree. */
  lemma {:induction false} RootSplit(h: Hash, left: seq<Digest>, right: seq<Digest>, d: nat)
    requires |left| == |right| == Two(d)
    ensures var (l, r, all) := (Root(h, left, d), Root(h, right, d), TreePairs(h, left + right, d + 1));
            && Root(h, left + right, d + 1) == h.node(l, r) && (l, r) in all
            && TreePairs(h, left, d) <= all && TreePairs(h, right, d) <= all
    decreases d
  {
    var n := Two(d);
    var all := left + right;
    if d == 0 {
      assert PairsOf(all, 1) == {(all[0], all[1])} by { assert (all[2 * 0], all[2 * 0 + 1]) in PairsOf(all, 1); }
    } else {
      var m := Two(d - 1);
      var (l, r) := (Up(h, left, m), Up(h, right, m));
      assert Up(h, all, n) == l + r;
      PairsSplit(left, right, m);
      hide Up, PairsOf;
      RootSplit(h, l, r, d - 1);
    }
  }

  lemma {:induction false} PairsSplit(left: seq<Digest>, right: seq<Digest>, m: nat)
    requires |left| == |right| == 2 * m
    ensures PairsOf(left, m) <= PairsOf(left + right, 2 * m) && PairsOf(right, m) <= PairsOf(left + right, 2 * m)
  {
    var all := left + right;
    forall p | p in PairsOf(left, m)
      ensures p in PairsOf(all, 2 * m)
    {
      var i :| 0 <= i < m && p == (left[2 * i], left[2 * i + 1]);
      assert p == (all[2 * i], all[2 * i + 1]);
    }
    forall p | p in PairsOf(right, m)
      ensures p in PairsOf(all, 2 * m)
    {
      var i :| 0 <= i < m && p == (right[2 * i], right[2 * i + 1]);
      assert p == (all[2 * (i + m)], all[2 * (i + m) + 1]);
    }
  }

  function ValueSet(vals: seq<F2>): set<F2> { set i | 0 <= i < |vals| :: vals[i] }

  lemma {:induction false} LeavesSplit(h: Hash, vals: seq<F2>, m: nat)
    requires |vals| == 2 * m
    ensures Leaves(h, vals) == Leaves(h, vals[..m]) + Leaves(h, vals[m..])
    ensures ValueSet(vals[..m]) <= ValueSet(vals) && ValueSet(vals[m..]) <= ValueSet(vals)
  {
    forall i | 0 <= i < m
      ensures vals[m..][i] in ValueSet(vals)
    {
      assert vals[m..][i] == vals[m + i];
    }
  }

  /** A path that climbs from a leaf to the root of a tree of leaves is as long as the tree is deep. */
  lemma {:induction false} PathLength(h: Hash, vals: seq<F2>, d: nat, v: F2, i: nat, path: seq<Digest>,
                                      leaves: set<F2>, pairs: set<Pair>)
    requires CollisionFree(h, leaves, pairs) && |vals| == Two(d) && v in leaves && ValueSet(vals) <= leaves
    requires TreePairs(h, Leaves(h, vals), d) <= pairs && ClimbPairs(h, h.leaf(v), i, path) <= pairs
    requires Climb(h, h.leaf(v), i, path) == Root(h, Leaves(h, vals), d)
    ensures |path| == d
    decreases d
  {
    hide Up, TreePairs, ClimbPairs, Root, Climb, ValueSet, Leaves, Two;
    if path == [] {
      ClimbNone(h, h.leaf(v), i);
    } else {
      ClimbLast(h, h.leaf(v), i, path);
    }
    if d == 0 {
      LoneLeaf(h, vals);
    } else {
      var m := Two(d - 1);
      HalfSize(|vals|, d, 0);
      var (l, r) := (vals[..m], vals[m..]);
      LeavesSplit(h, vals, m);
      RootSplit(h, Leaves(h, l), Leaves(h, r), d - 1);
      if path != [] {
        var k := |path| - 1;
        PathLength(h, if Ancestor(i, k) % 2 == 0 then l else r, d - 1, v, i, path[..k], leaves, pairs);
      }
    }
  }

  lemma {:induction false} LoneLeaf(h: Hash, vals: seq<F2>)
    requires |vals| == Two(0)
    ensures |vals| == 1 && Root(h, Leaves(h, vals), 0) == h.leaf(vals[0]) && vals[0] in ValueSet(vals)
  {
  }

  /** A tree with room to spare: the empty place holds 32 zero bytes. */
  lemma {:induction false} RootOfThree(h: Hash, a: F2, b: F2, c: F2)
    ensures RootOf(h, [a]) == h.leaf(a)
    ensures RootOf(h, [a, b, c])
         == h.node(h.node(h.leaf(a), h.leaf(b)), h.node(h.leaf(c), Digest(seq(32, _ => 0))))
  {
    assert Depth(3) == 2 && Two(2) == 4;
    var level := Padded(h, [a, b, c]);
    assert level == [h.leaf(a), h.leaf(b), h.leaf(c), ZERO_DIGEST];
    var up := Up(h, level, 2);
    assert up == [h.node(level[0], level[1]), h.node(level[2], level[3])];
    assert Up(h, up, 1) == [h.node(up[0], up[1])];
    assert Padded(h, [a]) == [h.leaf(a)];
  }

  /** Binding: a value and a path of any length check at slot i exactly when they are the committed
      value and its opening, provided no collision occurs among the inputs hashed for the tree and on
      the climb. */
  lemma {:induction false} ChecksExactly(h: Hash, vals: seq<F2>, d: nat, v: F2, i: nat, path: seq<Digest>)
    requires |vals| == Two(d) && i < |vals|
    requires CollisionFree(h, ValueSet(vals) + {v},
                           TreePairs(h, Leaves(h, vals), d) + ClimbPairs(h, h.leaf(v), i, path))
    ensures Checks(h, v, i, path, RootOf(h, vals)) <==> v == vals[i] && path == OpeningOf(h, vals, i)
  {
    DepthOfTwo(d);
    var level := Leaves(h, vals);
    assert Padded(h, vals) == level;
    assert vals[i] in ValueSet(vals);
    hide Climb, Root, Open, Depth, Two, Padded, TreePairs, ClimbPairs, ValueSet;
    var (leaves, pairs) := (ValueSet(vals) + {v}, TreePairs(h, level, d) + ClimbPairs(h, h.leaf(v), i, path));
    if Checks(h, v, i, path, RootOf(h, vals)) {
      PathLength(h, vals, d, v, i, path, leaves, pairs);
      OnlyOpeningClimbs(h, level, d, h.leaf(v), i, path, leaves, pairs);
    }
    ClimbOpening(h, level, d, i);
  }

  /** Climbing along an opening hashes nothing the tree has not hashed. */
  lemma {:induction false} OpeningPairs(h: Hash, level: seq<Digest>, d: nat, i: nat)
    requires |level| == Two(d) && i < |level|
    ensures ClimbPairs(h, level[i], i, Open(h, level, d, i)) <= TreePairs(h, level, d)
    decreases d
  {
    hide *;
    if d == 0 {
      SingleLeaf(h, level, i);
      NoClimbPairs(h, level[i], i);
    } else {
      var m := Two(d - 1);
      HalfSize(|level|, d, i);
      var path := Open(h, level, d, i);
      OpenUp(h, level, d, m, i);
      TreePairsUp(h, level, d, m);
      ClimbPairsOne(h, level[i], i, path);
      ParentJoins(h, level, m, i);
      JoinsPair(level, m, i);
      assert path[1..] == Open(h, Up(h, level, m), d - 1, i / 2);
      OpeningPairs(h, Up(h, level, m), d - 1, i / 2);
    }
  }

  lemma {:induction false} NoClimbPairs(h: Hash, cur: Digest, i: nat)
    ensures ClimbPairs(h, cur, i, []) == {}
  {
  }

  lemma {:induction false} JoinsPair(level: seq<Digest>, m: nat, i: nat)
    requires |level| == 2 * m && i < |level|
    ensures Sibling(i) < |level| && JoinPair(level[i], i, level[Sibling(i)]) in PairsOf(level, m)
  {
    var j := i / 2;
    assert (level[2 * j], level[2 * j + 1]) in PairsOf(level, m);
  }

  /** No collision occurs while hashing the two trees over these values. */
  ghost predicate TreesCollisionFree(h: Hash, vals: seq<F2>, others: seq<F2>, d: nat)
    requires |vals| == |others| == Two(d)
  {
    CollisionFree(h, ValueSet(vals) + ValueSet(others),
                  TreePairs(h, Leaves(h, vals), d) + TreePairs(h, Leaves(h, others), d))
  }

  lemma {:induction false} FewerInputs(h: Hash, leaves: set<F2>, pairs: set<Pair>, leaves': set<F2>, pairs': set<Pair>)
    requires CollisionFree(h, leaves, pairs) && leaves' <= leaves && pairs' <= pairs
    ensures CollisionFree(h, leaves', pairs')
  {
  }

  /** The root determines the values, unless hashing them collides. */
  lemma {:induction false} RootDetermines(h: Hash, vals: seq<F2>, others: seq<F2>, d: nat)
    requires |vals| == |others| == Two(d) && TreesCollisionFree(h, vals, others, d)
    requires RootOf(h, vals) == RootOf(h, others)
    ensures vals == others
  {
    DepthOfTwo(d);
    assert Padded(h, others) == Leaves(h, others);
    hide CollisionFree, RootOf, TreePairs, ClimbPairs, Leaves, Open, Depth, Two, Padded, Checks;
    forall i | 0 <= i < |vals|
      ensures vals[i] == others[i]
    {
      var v := others[i];
      assert v in ValueSet(others);
      var path := OpeningOf(h, others, i);
      OpeningChecks(h, others, i);
      LeafAt(h, others, i);
      OpeningPairs(h, Leaves(h, others), d, i);
      FewerInputs(h, ValueSet(vals) + ValueSet(others),
                  TreePairs(h, Leaves(h, vals), d) + TreePairs(h, Leaves(h, others), d),
                  ValueSet(vals) + {v}, TreePairs(h, Leaves(h, vals), d) + ClimbPairs(h, h.leaf(v), i, path));
      ChecksExactly(h, vals, d, v, i, path);
    }
  }

  lemma {:induction false} LeafAt(h: Hash, vals: seq<F2>, i: nat)
    requires i < |vals|
    ensures Leaves(h, vals)[i] == h.leaf(vals[i])
  {
  }

  // ---------------------------------------------------------------- the loops

  /** Empty input gives the zero digest and no levels. */
  method MerkleRoot(h: Hash, vals: seq<F2>) returns (root: Digest, layers: seq<seq<Digest>>)
    ensures vals == [] ==> root == ZERO_DIGEST && layers == []
    ensures vals != [] ==> root == RootOf(h, vals) && layers == Levels(h, Padded(h, vals), Depth(|vals|))
  {
    hide Root, Levels, Depth, Two;
    var level := Leaves(h, vals);
    if level == [] {
      return ZERO_DIGEST, [];
    }
    level := Pad(level);
    assert level == Padded(h, vals);
    layers := BuildLevels(h, level, Depth(|vals|));
    root := layers[|layers| - 1][0];
  }

  method Pad(start: seq<Digest>) returns (level: seq<Digest>)
    requires start != []
    ensures level == start + seq(Two(Depth(|start|)) - |start|, _ => ZERO_DIGEST)
  {
    ghost var target := Two(Depth(|start|));
    level := start;
    PowersAreTwos(|level|);
    while !PowerOfTwo(|level|)
      invariant |start| <= |level| <= target
      invariant level == start + seq(|level| - |start|, _ => ZERO_DIGEST)
      invariant Two(Depth(|level|)) == target && (PowerOfTwo(|level|) <==> |level| == target)
      decreases target - |level|
    {
      hide Two, Depth, PowerOfTwo;
      NoPowerBetween(|level|);
      level := level + [ZERO_DIGEST];
      PowersAreTwos(|level|);
    }
  }

  /** Between a number that is no power of two and its successor the next power stays the same. */
  lemma {:induction false} NoPowerBetween(n: nat)
    requires n > 0 && n < Two(Depth(n))
    ensures Depth(n + 1) == Depth(n)
  {
    if n > 1 && n % 2 == 0 {
      assert (n + 1) / 2 == n / 2 && (n + 2) / 2 == n / 2 + 1;
      NoPowerBetween(n / 2);
    }
  }

  method BuildLevels(h: Hash, level: seq<Digest>, ghost d: nat) returns (layers: seq<seq<Digest>>)
    requires |level| == Two(d)
    ensures layers == Levels(h, level, d)
    ensures layers != [] && |layers[|layers| - 1]| == 1 && layers[|layers| - 1][0] == Root(h, level, d)
  {
    hide Up, Levels, Root, Two;
    layers := [];
    var prev := level;
    ghost var k := d;
    while |prev| > 1
      invariant |prev| == Two(k)
      invariant Levels(h, level, d) == layers + Levels(h, prev, k)
      invariant Root(h, level, d) == Root(h, prev, k)
      decreases k
    {
      Larger(k);
      HalfSize(|prev|, k, 0);
      RootUp(h, prev, k, Two(k - 1));
      LevelsUp(h, prev, k, Two(k - 1));
      var next := HashPairs(h, prev, |prev| / 2);
      layers := layers + [prev];
      prev := next;
      k := k - 1;
    }
    Larger(k);
    SingleLeaf(h, prev, 0);
    layers := layers + [prev];
  }

  lemma {:induction false} Larger(d: nat)
    ensures Two(d) > 1 <==> d > 0
  {
  }

  method HashPairs(h: Hash, prev: seq<Digest>, m: nat) returns (next: seq<Digest>)
    requires |prev| == 2 * m
    ensures next == Up(h, prev, m)
  {
    next := [];
    var i := 0;
    while i < |prev|
      invariant 0 <= i <= |prev| && i == 2 * |next|
      invariant forall k :: 0 <= k < |next| ==> next[k] == h.node(prev[2 * k], prev[2 * k + 1])
    {
      next := next + [h.node(prev[i], prev[i + 1])];
      i := i + 2;
    }
  }

  method MerkleOpen(h: Hash, layers: seq<seq<Digest>>, index: nat, ghost level: seq<Digest>, ghost d: nat)
    returns (path: seq<Digest>)
    requires |level| == Two(d) && layers == Levels(h, level, d) && index < |level|
    ensures path == Open(h, level, d, index)
  {
    hide Up, Levels, Open, Two;
    path := [];
    var i: nat := index;
    ghost var rest := level;
    var lvl := 0;
    while lvl < |layers| - 1
      invariant 0 <= lvl <= d && |rest| == Two(d - lvl) && i < |rest|
      invariant layers[lvl..] == Levels(h, rest, d - lvl)
      invariant Open(h, level, d, index) == path + Open(h, rest, d - lvl, i)
    {
      HalfSize(|rest|, d - lvl, i);
      LevelsUp(h, rest, d - lvl, Two(d - lvl - 1));
      OpenUp(h, rest, d - lvl, Two(d - lvl - 1), i);
      assert layers[lvl..] == [layers[lvl]] + layers[lvl + 1..];
      path := path + [layers[lvl][Sibling(i)]];
      i := i / 2;
      rest := Up(h, rest, Two(d - lvl - 1));
      lvl := lvl + 1;
    }
    SingleLeaf(h, rest, i);
  }

  method MerkleCheck(h: Hash, leaf: F2, index: nat, path: seq<Digest>, root: Digest) returns (ok: bool)
    ensures ok <==> Checks(h, leaf, index, path, root)
  {
    var cur := h.leaf(leaf);
    var i: nat, k := index, 0;
    while k < |path|
      invariant 0 <= k <= |path|
      invariant Climb(h, h.leaf(leaf), index, path) == Climb(h, cur, i, path[k..])
    {
      if i % 2 == 0 {
        cur := h.node(cur, path[k]);
      } else {
        cur := h.node(path[k], cur);
      }
      i := i / 2;
      k := k + 1;
    }
    ok := cur == root;
  }
}
