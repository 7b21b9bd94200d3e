/**
 Binary Merkle trees over a level of digests, as both the roll-up and the spine build them: neighbours
 are joined two by two, an odd last node is joined with itself, until one node is left.

 A `Scheme` says how two child digests become the string that is hashed. The roll-up joins
 left and right in order, the spine joins the smaller and the larger; everything here serves both.
 */
module Merkle {
  import opened ByteCodec
  import opened Hashing

  datatype Scheme = Scheme(sha: Sha, join: (Digest, Digest) -> bytes) {
    function Node(l: Digest, r: Digest): Digest { sha(join(l, r)) }
  }

  // ----- levels

  function Halve(n: nat): nat { (n + 1) / 2 }

  /** The level above: the parents of the chunks of two. */
  function Up(s: Scheme, level: seq<Digest>): (up: seq<Digest>)
    ensures |up| == Halve(|level|)
  {
    if |level| == 0 then []
    else if |level| == 1 then [s.Node(level[0], level[0])]
    else [s.Node(level[0], level[1])] + Up(s, level[2..])
  }

  function Root(s: Scheme, level: seq<Digest>): Digest
    requires level != []
    decreases |level|
  {
    if |level| == 1 then level[0] else Root(s, Up(s, level))
  }

  /** Where the right half of pair i sits among n nodes: the odd node stands in for itself. */
  function RightIndex(n: nat, i: nat): nat {
    if 2 * i + 1 < n then 2 * i + 1 else 2 * i
  }

  lemma {:induction false} UpAt(s: Scheme, level: seq<Digest>, i: nat)
    requires i < Halve(|level|)
    ensures Up(s, level)[i] == s.Node(level[2 * i], level[RightIndex(|level|, i)])
  {
    if i > 0 {
      UpAt(s, level[2..], i - 1);
    }
  }

  /** Number of levels above the leaves: the least h with n <= 2^h (see HeightIsCeilLog2). */
  function Height(n: nat): nat {
    if n <= 1 then 0 else 1 + Height(Halve(n))
  }

  function Pow2(k: nat): (p: nat)
    ensures p > 0
  {
    if k == 0 then 1 else 2 * Pow2(k - 1)
  }

  lemma {:induction false} HeightIsCeilLog2(n: nat)
    requires n > 0
    ensures n <= Pow2(Height(n))
    ensures Height(n) > 0 ==> Pow2(Height(n) - 1) < n
  {
    if n > 1 {
      HeightIsCeilLog2(Halve(n));
    }
  }

  // ----- paths

  /** The other half of the pair that position idx belongs to, or the odd node itself. */
  function Sibling(level: seq<Digest>, idx: nat): Digest
    requires idx < |level|
  {
    if idx % 2 == 0 then (if idx + 1 < |level| then level[idx + 1] else level[idx]) else level[idx - 1]
  }

  /** The sibling path of position idx, leaf to root. */
  function Path(s: Scheme, level: seq<Digest>, idx: nat): (path: seq<Digest>)
    requires idx < |level|
    ensures |path| == Height(|level|)
    decreases |level|
  {
    if |level| == 1 then [] else [Sibling(level, idx)] + Path(s, Up(s, level), idx / 2)
  }

  /** What has been collected of a path and what is still to come make up the same whole. */
  lemma {:induction false} PathStep(s: Scheme, collected: seq<Digest>, level: seq<Digest>, idx: nat)
    requires idx < |level| && |level| > 1
    ensures idx / 2 < |Up(s, level)|
    ensures var path := Path(s, level, idx);
            && path != [] && path[1..] == Path(s, Up(s, level), idx / 2)
            && collected + path == (collected + [Sibling(level, idx)]) + path[1..]
  {}

  lemma {:induction false} SeqAssoc(a: seq<Digest>, b: seq<Digest>, c: seq<Digest>)
    ensures (a + b) + c == a + (b + c)
  {}

  /** An index after k halvings. */
  function Shift(idx: nat, k: nat): nat {
    if k == 0 then idx else Shift(idx, k - 1) / 2
  }

  lemma {:induction false} ShiftFromHalf(idx: nat, k: nat)
    ensures Shift(idx, k + 1) == Shift(idx / 2, k)
  {
    if k > 0 {
      ShiftFromHalf(idx, k - 1);
    }
  }

  /** The string hashed for a node and its sibling; the node is the left one if its position is even. */
  function StepString(s: Scheme, node: Digest, idx: nat, sibling: Digest): bytes {
    if idx % 2 == 0 then s.join(node, sibling) else s.join(sibling, node)
  }

  /** Fold a digest through a sibling path, left or right by the bits of idx. */
  function Climb(s: Scheme, node: Digest, idx: nat, path: seq<Digest>): Digest
    decreases |path|, 1
  {
    if path == [] then node else s.sha(LastString(s, node, idx, path))
  }

  /** The last string hashed by a climb. */
  function LastString(s: Scheme, node: Digest, idx: nat, path: seq<Digest>): bytes
    requires path != []
    decreases |path|, 0
  {
    var k := |path| - 1;
    StepString(s, Climb(s, node, idx, path[..k]), Shift(idx, k), path[k])
  }

  lemma {:induction false} ClimbSnoc(s: Scheme, node: Digest, idx: nat, path: seq<Digest>, x: Digest)
    ensures Climb(s, node, idx, path + [x]) ==
            s.sha(StepString(s, Climb(s, node, idx, path), Shift(idx, |path|), x))
  {
    assert (path + [x])[..|path|] == path;
  }

  lemma {:induction false} ClimbCons(s: Scheme, node: Digest, idx: nat, x: Digest, path: seq<Digest>)
    ensures Climb(s, node, idx, [x] + path) == Climb(s, s.sha(StepString(s, node, idx, x)), idx / 2, path)
  {
    if path == [] {
      ClimbSnoc(s, node, idx, [], x);
      assert [x] + path == [] + [x];
    } else {
      var k := |path| - 1;
      assert [x] + path == ([x] + path[..k]) + [path[k]] && path == path[..k] + [path[k]];
      ClimbSnoc(s, node, idx, [x] + path[..k], path[k]);
      ClimbCons(s, node, idx, x, path[..k]);
      ShiftFromHalf(idx, k);
    }
  }

  lemma {:induction false} UpJoinsSiblings(s: Scheme, level: seq<Digest>, idx: nat)
    requires idx < |level|
    ensures idx / 2 < |Up(s, level)|
    ensures Up(s, level)[idx / 2] == s.sha(StepString(s, level[idx], idx, Sibling(level, idx)))
  {
    UpAt(s, level, idx / 2);
  }

  /** Completeness: the path of every leaf leads to the root. */
  lemma {:induction false} PathLeadsToRoot(s: Scheme, level: seq<Digest>, idx: nat)
    requires idx < |level|
    ensures Climb(s, level[idx], idx, Path(s, level, idx)) == Root(s, level)
    decreases |level|
  {
    if |level| > 1 {
      var up := Up(s, level);
      UpJoinsSiblings(s, level, idx);
      PathLeadsToRoot(s, up, idx / 2);
      ClimbCons(s, level[idx], idx, Sibling(level, idx), Path(s, up, idx / 2));
    }
  }

  // ----- the loops that build roots and paths

  /** One level: push the parent of every chunk of two. */
  method PairLevel(s: Scheme, level: seq<Digest>) returns (next: seq<Digest>)
    ensures next == Up(s, level)
  {
    next := [];
    var i := 0;
    ghost var rest := Up(s, level);
    while i < |level|
      invariant 0 <= i <= |level| + 1 && (i > |level| ==> rest == [])
      invariant i <= |level| ==> rest == Up(s, level[i..])
      invariant next + rest == Up(s, level)
    {
      var l := level[i];
      var r := if i + 1 < |level| then level[i + 1] else l;
      assert i + 2 <= |level| ==> level[i..][2..] == level[i + 2..];
      SeqAssoc(next, [s.Node(l, r)], rest[1..]);
      next := next + [s.Node(l, r)];
      rest := rest[1..];
      i := i + 2;
    }
  }

  method BuildRoot(s: Scheme, leaves: seq<Digest>) returns (root: Digest)
    requires leaves != []
    ensures root == Root(s, leaves)
  {
    var level := leaves;
    while |level| > 1
      invariant level != [] && Root(s, level) == Root(s, leaves)
      decreases |level|
    {
      level := PairLevel(s, level);
    }
    root := level[0];
  }

  /** Collect the sibling at each level while the index is halved. */
  method BuildPath(s: Scheme, leaves: seq<Digest>, index: nat) returns (path: seq<Digest>)
    requires index < |leaves|
    ensures path == Path(s, leaves, index)
  {
    var level, idx: nat := leaves, index;
    path := [];
    ghost var whole := Path(s, leaves, index);
    ghost var rest := whole;
    while |level| > 1
      invariant idx < |level| && rest == Path(s, level, idx)
      invariant path + rest == whole
      decreases |level|
    {
      PathStep(s, path, level, idx);
      path := path + [Sibling(level, idx)];
      rest := rest[1..];
      level := PairLevel(s, level);
      idx := idx / 2;
    }
  }

  // ----- the tree behind the levels

  /** A joined node with everything below it, down to the strings hashed into leaves. */
  datatype Tree = Leaf(x: bytes) | Branch(l: Tree, r: Tree) {
    predicate HasDepth(h: nat) {
      match this
      case Leaf(_) => h == 0
      case Branch(l, r) => h > 0 && l.HasDepth(h - 1) && r.HasDepth(h - 1)
    }

    function Leaves(): set<bytes> {
      match this
      case Leaf(x) => {x}
      case Branch(l, r) => l.Leaves() + r.Leaves()
    }

    /** The leaf that the low h bits of idx select, highest bit first. */
    function Selected(idx: nat, h: nat): bytes
      requires HasDepth(h)
    {
      match this
      case Leaf(x) => x
      case Branch(l, r) => if Shift(idx, h - 1) % 2 == 0 then l.Selected(idx, h - 1) else r.Selected(idx, h - 1)
    }
  }

  function HashOf(s: Scheme, t: Tree): Digest {
    match t
    case Leaf(x) => s.sha(x)
    case Branch(l, r) => s.Node(HashOf(s, l), HashOf(s, r))
  }

  /** Every string that is hashed on the way to the digest of t. */
  function Hashed(s: Scheme, t: Tree): set<bytes> {
    match t
    case Leaf(x) => {x}
    case Branch(l, r) => Hashed(s, l) + Hashed(s, r) + {s.join(HashOf(s, l), HashOf(s, r))}
  }

  function LeafTrees(xs: seq<bytes>): (ts: seq<Tree>)
    ensures |ts| == |xs|
    ensures forall i :: 0 <= i < |ts| ==> ts[i] == Leaf(xs[i])
  {
    if xs == [] then [] else [Leaf(xs[0])] + LeafTrees(xs[1..])
  }

  function UpTrees(ts: seq<Tree>): (up: seq<Tree>)
    ensures |up| == Halve(|ts|)
  {
    if |ts| == 0 then []
    else if |ts| == 1 then [Branch(ts[0], ts[0])]
    else [Branch(ts[0], ts[1])] + UpTrees(ts[2..])
  }

  function Grow(ts: seq<Tree>): Tree
    requires ts != []
    decreases |ts|
  {
    if |ts| == 1 then ts[0] else Grow(UpTrees(ts))
  }

  /** The tree over the given leaf strings. */
  function TreeOf(xs: seq<bytes>): Tree
    requires xs != []
  {
    Grow(LeafTrees(xs))
  }

  lemma {:induction false} UpTreesAt(ts: seq<Tree>, i: nat)
    requires i < Halve(|ts|)
    ensures UpTrees(ts)[i] == Branch(ts[2 * i], ts[RightIndex(|ts|, i)])
  {
    if i > 0 {
      UpTreesAt(ts[2..], i - 1);
    }
  }

  function Hashes(s: Scheme, ts: seq<Tree>): (ds: seq<Digest>)
    ensures |ds| == |ts|
    ensures forall i :: 0 <= i < |ts| ==> ds[i] == HashOf(s, ts[i])
  {
    if ts == [] then [] else [HashOf(s, ts[0])] + Hashes(s, ts[1..])
  }

  lemma {:induction false} UpOfHashes(s: Scheme, ts: seq<Tree>)
    ensures Up(s, Hashes(s, ts)) == Hashes(s, UpTrees(ts))
  {
    forall i | 0 <= i < Halve(|ts|) ensures Up(s, Hashes(s, ts))[i] == Hashes(s, UpTrees(ts))[i] {
      UpAt(s, Hashes(s, ts), i);
      UpTreesAt(ts, i);
    }
  }

  lemma {:induction false} RootOfHashes(s: Scheme, ts: seq<Tree>)
    requires ts != []
    ensures Root(s, Hashes(s, ts)) == HashOf(s, Grow(ts))
    decreases |ts|
  {
    if |ts| > 1 {
      UpOfHashes(s, ts);
      RootOfHashes(s, UpTrees(ts));
    }
  }

  /** The leaf digests of a list of strings. */
  function Digests(s: Scheme, xs: seq<bytes>): (ds: seq<Digest>)
    ensures |ds| == |xs|
    ensures forall i :: 0 <= i < |xs| ==> ds[i] == s.sha(xs[i])
  {
    Hashes(s, LeafTrees(xs))
  }

  ghost predicate AllDepth(ts: seq<Tree>, d: nat) {
    forall i :: 0 <= i < |ts| ==> ts[i].HasDepth(d)
  }

  lemma {:induction false} UpTreesDepth(ts: seq<Tree>, d: nat)
    requires AllDepth(ts, d)
    ensures AllDepth(UpTrees(ts), d + 1)
  {
    forall i | 0 <= i < Halve(|ts|) ensures UpTrees(ts)[i].HasDepth(d + 1) {
      UpTreesAt(ts, i);
    }
  }

  lemma {:induction false} GrowDepth(ts: seq<Tree>, d: nat)
    requires ts != [] && AllDepth(ts, d)
    ensures Grow(ts).HasDepth(d + Height(|ts|))
    decreases |ts|
  {
    if |ts| > 1 {
      UpTreesDepth(ts, d);
      GrowDepth(UpTrees(ts), d + 1);
    }
  }

  lemma {:induction false} TreeDepth(xs: seq<bytes>)
    requires xs != []
    ensures TreeOf(xs).HasDepth(Height(|xs|))
  {
    GrowDepth(LeafTrees(xs), 0);
  }

  lemma {:induction false} GrowLeaves(ts: seq<Tree>, allowed: set<bytes>)
    requires ts != [] && forall i :: 0 <= i < |ts| ==> ts[i].Leaves() <= allowed
    ensures Grow(ts).Leaves() <= allowed
    decreases |ts|
  {
    if |ts| > 1 {
      forall i | 0 <= i < Halve(|ts|) ensures UpTrees(ts)[i].Leaves() <= allowed {
        UpTreesAt(ts, i);
      }
      GrowLeaves(UpTrees(ts), allowed);
    }
  }

  lemma {:induction false} TreeLeaves(xs: seq<bytes>)
    requires xs != []
    ensures forall x :: x in TreeOf(xs).Leaves() ==> x in xs
  {
    GrowLeaves(LeafTrees(xs), set x | x in xs);
  }

  // ----- which leaf an index selects

  /** The leaf, among n, that an index, in range or not, leads to. */
  function EffectiveIndex(n: nat, idx: nat): (leaf: nat)
    requires n > 0
    ensures leaf < n
    decreases n
  {
    if n == 1 then 0 else
      var pair := EffectiveIndex(Halve(n), idx / 2);
      if idx % 2 == 1 then RightIndex(n, pair) else 2 * pair
  }

  /** Exactly the indices in range lead to themselves. */
  lemma {:induction false} EffectiveIndexInRange(n: nat, idx: nat)
    requires n > 0
    ensures EffectiveIndex(n, idx) == idx <==> idx < n
    decreases n
  {
    if n > 1 {
      EffectiveIndexInRange(Halve(n), idx / 2);
    }
  }

  lemma {:induction false} GrowSelects(ts: seq<Tree>, d: nat, idx: nat)
    requires ts != [] && AllDepth(ts, d)
    ensures Grow(ts).HasDepth(d + Height(|ts|))
    ensures Grow(ts).Selected(idx, d + Height(|ts|)) == ts[EffectiveIndex(|ts|, Shift(idx, d))].Selected(idx, d)
    decreases |ts|
  {
    GrowDepth(ts, d);
    if |ts| > 1 {
      UpTreesDepth(ts, d);
      GrowSelects(UpTrees(ts), d + 1, idx);
      UpTreesAt(ts, EffectiveIndex(Halve(|ts|), Shift(idx, d + 1)));
    }
  }

  lemma {:induction false} TreeSelects(xs: seq<bytes>, idx: nat)
    requires xs != []
    ensures TreeOf(xs).HasDepth(Height(|xs|))
    ensures TreeOf(xs).Selected(idx, Height(|xs|)) == xs[EffectiveIndex(|xs|, idx)]
  {
    GrowSelects(LeafTrees(xs), 0, idx);
  }

  // ----- soundness

  /** No join can be taken for the string x: x belongs to another domain. */
  ghost predicate NotAJoin(s: Scheme, x: bytes) {
    forall l: Digest, r: Digest :: s.join(l, r) != x
  }

  ghost predicate NoneAJoin(s: Scheme, xs: seq<bytes>) {
    forall i :: 0 <= i < |xs| ==> NotAJoin(s, xs[i])
  }

  /** A join tells which two digests were joined, up to order. */
  ghost predicate JoinsPairs(s: Scheme) {
    forall a: Digest, b: Digest, c: Digest, d: Digest ::
      s.join(a, b) == s.join(c, d) ==> (a == c && b == d) || (a == d && b == c)
  }

  /** A join tells which two digests were joined, in order. */
  ghost predicate JoinsInOrder(s: Scheme) {
    forall a: Digest, b: Digest, c: Digest, d: Digest :: s.join(a, b) == s.join(c, d) ==> a == c && b == d
  }

  /** The strings hashed by folding a path. */
  function ClimbHashed(s: Scheme, node: Digest, idx: nat, path: seq<Digest>): set<bytes> {
    if path == [] then {} else
      ClimbHashed(s, node, idx, path[..|path| - 1]) + {LastString(s, node, idx, path)}
  }

  /** A climb that arrives at a joined node came through one of its halves. */
  lemma {:induction false} CameThrough(
    s: Scheme, node: Digest, idx: nat, path: seq<Digest>, l: Digest, r: Digest, hashed: set<bytes>)
    requires JoinsPairs(s) && CollisionFree(s.sha, hashed)
    requires path != [] && ClimbHashed(s, node, idx, path) <= hashed && s.join(l, r) in hashed
    requires Climb(s, node, idx, path) == s.Node(l, r)
    ensures var below := Climb(s, node, idx, path[..|path| - 1]); below == l || below == r
    ensures JoinsInOrder(s) ==>
              var k := |path| - 1;
              Climb(s, node, idx, path[..k]) == if Shift(idx, k) % 2 == 0 then l else r
  {
    assert LastString(s, node, idx, path) in ClimbHashed(s, node, idx, path);
    assert LastString(s, node, idx, path) == s.join(l, r);
  }

  lemma {:induction false} ClimbIsNoLeaf(s: Scheme, node: Digest, idx: nat, path: seq<Digest>, x: bytes, hashed: set<bytes>)
    requires NotAJoin(s, x) && CollisionFree(s.sha, hashed)
    requires path != [] && ClimbHashed(s, node, idx, path) <= hashed && x in hashed
    ensures Climb(s, node, idx, path) != s.sha(x)
  {
    assert LastString(s, node, idx, path) in ClimbHashed(s, node, idx, path);
  }

  /**
   A climb that arrives at the digest of a tree took as many steps as the tree is deep and started at one of
   its leaves; if left and right are joined in order, at the very leaf that the index selects. So no
   path of another length, and no foreign start, reaches the tree.
   */
  lemma {:induction false} ClimbStartsAtLeaf(
    s: Scheme, t: Tree, h: nat, x: bytes, idx: nat, path: seq<Digest>, hashed: set<bytes>)
    requires JoinsPairs(s) && NotAJoin(s, x) && forall y :: y in t.Leaves() ==> NotAJoin(s, y)
    requires CollisionFree(s.sha, hashed) && Hashed(s, t) <= hashed && x in hashed
    requires ClimbHashed(s, s.sha(x), idx, path) <= hashed
    requires t.HasDepth(h) && Climb(s, s.sha(x), idx, path) == HashOf(s, t)
    ensures |path| == h && x in t.Leaves()
    ensures JoinsInOrder(s) ==> x == t.Selected(idx, h)
    decreases t
  {
    match t
    case Leaf(y) =>
      if path != [] {
        ClimbIsNoLeaf(s, s.sha(x), idx, path, y, hashed);
      }
    case Branch(l, r) =>
      var a, b := HashOf(s, l), HashOf(s, r);
      assert s.join(a, b) in Hashed(s, t);
      if path != [] {
        CameThrough(s, s.sha(x), idx, path, a, b, hashed);
        var shorter := path[..|path| - 1];
        var below := Climb(s, s.sha(x), idx, shorter);
        var child := if Shift(idx, |shorter|) % 2 == 0 then (if below == a then l else r) else (if below == b then r else l);
        ClimbStartsAtLeaf(s, child, h - 1, x, idx, shorter, hashed);
      }
  }

  /** Whatever climbs to the root of a tree over xs is one of xs. */
  lemma {:induction false} ClimbToRoot(s: Scheme, xs: seq<bytes>, x: bytes, idx: nat, path: seq<Digest>)
    requires JoinsPairs(s) && xs != [] && NotAJoin(s, x) && NoneAJoin(s, xs)
    requires CollisionFree(s.sha, Hashed(s, TreeOf(xs)) + {x} + ClimbHashed(s, s.sha(x), idx, path))
    requires Climb(s, s.sha(x), idx, path) == Root(s, Digests(s, xs))
    ensures |path| == Height(|xs|) && x in xs
    ensures JoinsInOrder(s) ==> x == xs[EffectiveIndex(|xs|, idx)]
  {
    var h, t := Height(|xs|), TreeOf(xs);
    RootOfHashes(s, LeafTrees(xs));
    TreeLeaves(xs);
    TreeSelects(xs, idx);
    ClimbStartsAtLeaf(s, t, h, x, idx, path, Hashed(s, t) + {x} + ClimbHashed(s, s.sha(x), idx, path));
  }

  /** Every index, in range or not, has a path by which the leaf it leads to climbs to the root. */
  lemma {:induction false} PathFromEffectiveIndex(s: Scheme, level: seq<Digest>, idx: nat)
    returns (path: seq<Digest>)
    requires level != []
    ensures |path| == Height(|level|)
    ensures Climb(s, level[EffectiveIndex(|level|, idx)], idx, path) == Root(s, level)
    decreases |level|
  {
    if |level| == 1 {
      path := [];
    } else {
      var up := Up(s, level);
      var rest := PathFromEffectiveIndex(s, up, idx / 2);
      var pair := EffectiveIndex(|up|, idx / 2);
      UpAt(s, level, pair);
      var other := if idx % 2 == 1 then level[2 * pair] else level[RightIndex(|level|, pair)];
      path := [other] + rest;
      ClimbCons(s, level[EffectiveIndex(|level|, idx)], idx, other, rest);
    }
  }

  // ----- the root determines the leaves

  lemma {:induction false} LeafIsNoBranch(s: Scheme, x: bytes, l: Tree, r: Tree, hashed: set<bytes>)
    requires NotAJoin(s, x) && CollisionFree(s.sha, hashed)
    requires x in hashed && Hashed(s, Branch(l, r)) <= hashed
    ensures s.sha(x) != HashOf(s, Branch(l, r))
  {
    assert s.join(HashOf(s, l), HashOf(s, r)) in Hashed(s, Branch(l, r));
  }

  lemma {:induction false} BranchesEqual(s: Scheme, l: Tree, r: Tree, l': Tree, r': Tree, hashed: set<bytes>)
    requires JoinsInOrder(s) && CollisionFree(s.sha, hashed)
    requires Hashed(s, Branch(l, r)) <= hashed && Hashed(s, Branch(l', r')) <= hashed
    ensures HashOf(s, Branch(l, r)) == HashOf(s, Branch(l', r')) ==>
              HashOf(s, l) == HashOf(s, l') && HashOf(s, r) == HashOf(s, r')
  {
    assert s.join(HashOf(s, l), HashOf(s, r)) in Hashed(s, Branch(l, r));
    assert s.join(HashOf(s, l'), HashOf(s, r')) in Hashed(s, Branch(l', r'));
  }

  /** Equal digests, equal trees. */
  lemma {:induction false} HashFixesTree(s: Scheme, t: Tree, u: Tree, hashed: set<bytes>)
    requires JoinsInOrder(s) && CollisionFree(s.sha, hashed)
    requires Hashed(s, t) <= hashed && Hashed(s, u) <= hashed
    requires forall x :: x in t.Leaves() ==> NotAJoin(s, x)
    requires forall x :: x in u.Leaves() ==> NotAJoin(s, x)
    ensures HashOf(s, t) == HashOf(s, u) ==> t == u
  {
    match (t, u)
    case (Leaf(x), Leaf(y)) =>
    case (Branch(l, r), Branch(l', r')) =>
      BranchesEqual(s, l, r, l', r', hashed);
      HashFixesTree(s, l, l', hashed);
      HashFixesTree(s, r, r', hashed);
    case (Leaf(x), Branch(l, r)) =>
      LeafIsNoBranch(s, x, l, r, hashed);
    case (Branch(l, r), Leaf(x)) =>
      LeafIsNoBranch(s, x, l, r, hashed);
  }

  ghost predicate Distinct(xs: seq<bytes>) {
    forall i, j :: 0 <= i < j < |xs| ==> xs[i] != xs[j]
  }

  lemma {:induction false} DepthUnique(t: Tree, h: nat, g: nat)
    requires t.HasDepth(h) && t.HasDepth(g)
    ensures h == g
  {
    if t.Branch? {
      DepthUnique(t.l, h - 1, g - 1);
    }
  }

  /** Equal trees over distinct leaves: the shorter list is a prefix of the longer one, and nothing is missing. */
  lemma {:induction false} TreeFixesLeaves(xs: seq<bytes>, ys: seq<bytes>)
    requires xs != [] && ys != [] && Distinct(xs) && Distinct(ys)
    requires TreeOf(xs) == TreeOf(ys) && |xs| <= |ys|
    ensures xs == ys
  {
    TreeDepth(xs);
    TreeDepth(ys);
    DepthUnique(TreeOf(xs), Height(|xs|), Height(|ys|));
    forall i | 0 <= i < |xs| ensures xs[i] == ys[i] {
      TreeSelects(xs, i);
      TreeSelects(ys, i);
      EffectiveIndexInRange(|xs|, i);
      EffectiveIndexInRange(|ys|, i);
    }
    if |xs| < |ys| {
      TreeSelects(xs, |xs|);
      TreeSelects(ys, |xs|);
      EffectiveIndexInRange(|ys|, |xs|);
    }
  }

  /** The root determines how many leaves there are and each of them, provided no leaf occurs twice. */
  lemma {:induction false} RootInjective(s: Scheme, xs: seq<bytes>, ys: seq<bytes>)
    requires JoinsInOrder(s) && xs != [] && ys != [] && NoneAJoin(s, xs) && NoneAJoin(s, ys)
    requires CollisionFree(s.sha, Hashed(s, TreeOf(xs)) + Hashed(s, TreeOf(ys)))
    requires Distinct(xs) && Distinct(ys)
    requires Root(s, Digests(s, xs)) == Root(s, Digests(s, ys))
    ensures xs == ys
  {
    RootOfHashes(s, LeafTrees(xs));
    RootOfHashes(s, LeafTrees(ys));
    TreeLeaves(xs);
    TreeLeaves(ys);
    HashFixesTree(s, TreeOf(xs), TreeOf(ys), Hashed(s, TreeOf(xs)) + Hashed(s, TreeOf(ys)));
    if |xs| <= |ys| {
      TreeFixesLeaves(xs, ys);
    } else {
      TreeFixesLeaves(ys, xs);
    }
  }

  /**
   Why a repeated leaf has to be refused: from an odd level of three or more, repeating the last
   node yields the same root.
   */
  lemma {:induction false} RepeatedTailSameRoot(s: Scheme, level: seq<Digest>)
    requires |level| >= 3 && |level| % 2 == 1
    ensures Root(s, level + [level[|level| - 1]]) == Root(s, level)
  {
    UpOfRepeatedTail(s, level);
  }

  lemma {:induction false} UpOfRepeatedTail(s: Scheme, level: seq<Digest>)
    requires |level| % 2 == 1
    ensures Up(s, level + [level[|level| - 1]]) == Up(s, level)
  {
    if |level| > 1 {
      UpOfRepeatedTail(s, level[2..]);
      var last := [level[|level| - 1]];
      assert (level + last)[2..] == level[2..] + last;
    }
  }
}
