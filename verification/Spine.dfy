/**
 The commitment spine (crates/grid/src/spine.rs): one root over every segment's state commitment, with
 pairs joined in sorted order so that a proof needs no positions.
 */
module Spine {
  import opened Wrappers
  import opened ByteCodec
  import opened Hashing
  import opened OrderedMap
  import Domain
  import Lexicographic
  import Merkle
  import Utf8

  function MinOf(a: Digest, b: Digest): Digest {
    if Lexicographic.Le(a, b) then a else b
  }

  function MaxOf(a: Digest, b: Digest): Digest {
    if Lexicographic.Lt(b, a) then a else b
  }

  /** The string hashed for the pair (l, r) as `hpair` receives it. */
  function PairString(l: Digest, r: Digest): bytes {
    Domain.Preimage(Domain.SPINE_NODE, [l, r])
  }

  function HPair(sha: Sha, l: Digest, r: Digest): Digest {
    sha(PairString(l, r))
  }

  function LeafString(segment: string, commitment: Digest): bytes {
    Domain.Preimage(Domain.SPINE_LEAF, [Utf8.Encode(segment), commitment])
  }

  function LeafHash(sha: Sha, segment: string, commitment: Digest): Digest {
    sha(LeafString(segment, commitment))
  }

  /** Sorted joining. */
  function SortedScheme(sha: Sha): Merkle.Scheme {
    Merkle.Scheme(sha, (l: Digest, r: Digest) => PairString(MinOf(l, r), MaxOf(l, r)))
  }

  type Commitments = OrderedMap<Digest>

  function LeafStrings(m: seq<Entry<Digest>>): (xs: seq<bytes>)
    ensures |xs| == |m|
    ensures forall i :: 0 <= i < |m| ==> xs[i] == LeafString(m[i].key, m[i].value)
  {
    if m == [] then [] else
      assert forall i :: 0 < i < |m| ==> m[i] == m[1..][i - 1];
      [LeafString(m[0].key, m[0].value)] + LeafStrings(m[1..])
  }

  function LeafDigests(sha: Sha, m: seq<Entry<Digest>>): seq<Digest> {
    Merkle.Digests(SortedScheme(sha), LeafStrings(m))
  }

  /** The root over a commitment map; 32 zero bytes over the empty one. */
  function RootOf(sha: Sha, m: seq<Entry<Digest>>): Digest {
    if m == [] then ZERO else Merkle.Root(SortedScheme(sha), LeafDigests(sha, m))
  }

  datatype SpineProof = SpineProof(segmentId: string, commitment: Digest, root: Digest, siblings: seq<Digest>)
  {
    /** What `verifies_against` accepts: the leaf, folded with the siblings in sorted order, is the root. */
    predicate Accepts(sha: Sha, root: Digest) {
      && Merkle.Climb(SortedScheme(sha), LeafHash(sha, segmentId, commitment), 0, siblings) == root
      && this.root == root
    }

    method VerifiesAgainst(sha: Sha, root: Digest) returns (ok: bool)
      ensures ok == Accepts(sha, root)
    {
      var node := LeafHash(sha, segmentId, commitment);
      var s := SortedScheme(sha);
      for k := 0 to |siblings|
        invariant node == Merkle.Climb(s, LeafHash(sha, segmentId, commitment), 0, siblings[..k])
      {
        var sib := siblings[k];
        assert siblings[..k + 1] == siblings[..k] + [sib];
        Merkle.ClimbSnoc(s, LeafHash(sha, segmentId, commitment), 0, siblings[..k], sib);
        ShiftZero(k);
        SortedPair(sha, node, sib);
        node := if Lexicographic.Le(node, sib) then HPair(sha, node, sib) else HPair(sha, sib, node);
      }
      assert siblings[..|siblings|] == siblings;
      ok := node == root && this.root == root;
    }

    /** Every string hashed while the proof is checked. */
    function Hashed(sha: Sha): set<bytes> {
      {LeafString(segmentId, commitment)}
      + Merkle.ClimbHashed(SortedScheme(sha), LeafHash(sha, segmentId, commitment), 0, siblings)
    }
  }

  datatype Spine = Spine(version: nat, commitments: Commitments, root: Digest) {
    predicate ProvesPrefix(prior: Spine) {
      && version >= prior.version
      && forall i :: 0 <= i < |prior.commitments| ==>
          Get(commitments, prior.commitments[i].key) == Some(prior.commitments[i].value)
    }

    /** The sibling path of a segment; none for a segment that the spine does not hold. */
    method Proof(sha: Sha, segmentId: string) returns (proof: Option<SpineProof>)
      ensures proof.None? <==> Get(commitments, segmentId).None?
      ensures proof.Some? ==>
                && proof.value.segmentId == segmentId
                && Get(commitments, segmentId) == Some(proof.value.commitment)
                && proof.value.root == root
                && proof.value.siblings == SiblingsOf(sha, commitments, segmentId)
    {
      var position := Position(commitments, segmentId);
      if position.None? {
        return None;
      }
      var path := Merkle.BuildPath(SortedScheme(sha), LeafDigests(sha, commitments), position.value);
      return Some(SpineProof(segmentId, commitments[position.value].value, root, path));
    }
  }

  method MerkleRoot(sha: Sha, leaves: seq<Digest>) returns (root: Digest)
    ensures root == if leaves == [] then ZERO else Merkle.Root(SortedScheme(sha), leaves)
  {
    if leaves == [] {
      return ZERO;
    }
    root := Merkle.BuildRoot(SortedScheme(sha), leaves);
  }

  method Over(sha: Sha, version: nat, commitments: Commitments) returns (spine: Spine)
    ensures spine == Spine(version, commitments, RootOf(sha, commitments))
  {
    var root := MerkleRoot(sha, LeafDigests(sha, commitments));
    spine := Spine(version, commitments, root);
  }

  function SiblingsOf(sha: Sha, m: seq<Entry<Digest>>, segment: string): seq<Digest>
    requires Get(m, segment).Some?
  {
    Merkle.Path(SortedScheme(sha), LeafDigests(sha, m), Position(m, segment).value)
  }

  // ----- sorted pairing

  lemma {:induction false} ShiftZero(k: nat)
    ensures Merkle.Shift(0, k) == 0
  {
    if k > 0 {
      ShiftZero(k - 1);
    }
  }

  lemma {:induction false} SortedPair(sha: Sha, a: Digest, b: Digest)
    ensures SortedScheme(sha).Node(a, b) == SortedScheme(sha).Node(b, a)
    ensures SortedScheme(sha).Node(a, b) == if Lexicographic.Le(a, b) then HPair(sha, a, b) else HPair(sha, b, a)
  {
    Lexicographic.LeTotal(a, b);
    if Lexicographic.Le(a, b) && Lexicographic.Le(b, a) {
      Lexicographic.LeAntisymmetric(a, b);
    }
  }

  lemma {:induction false} PairStringInjective(a: Digest, b: Digest, c: Digest, d: Digest)
    requires PairString(a, b) == PairString(c, d)
    ensures a == c && b == d
  {
    PowersOf256();
    Domain.PreimageInjective(Domain.SPINE_NODE, [a, b], Domain.SPINE_NODE, [c, d]);
    assert [a, b][0] == [c, d][0] && [a, b][1] == [c, d][1];
  }

  lemma {:induction false} MinAndMax(a: Digest, b: Digest)
    ensures (MinOf(a, b) == a && MaxOf(a, b) == b) || (MinOf(a, b) == b && MaxOf(a, b) == a)
  {
    Lexicographic.LeTotal(a, b);
    Lexicographic.LeTotal(a, a);
    if Lexicographic.Le(a, b) && Lexicographic.Le(b, a) {
      Lexicographic.LeAntisymmetric(a, b);
    }
  }

  lemma {:induction false} SortedSchemeJoinsPairs(sha: Sha)
    ensures Merkle.JoinsPairs(SortedScheme(sha))
  {
    var s := SortedScheme(sha);
    forall a: Digest, b: Digest, c: Digest, d: Digest | s.join(a, b) == s.join(c, d)
      ensures (a == c && b == d) || (a == d && b == c)
    {
      PairStringInjective(MinOf(a, b), MaxOf(a, b), MinOf(c, d), MaxOf(c, d));
      MinAndMax(a, b);
      MinAndMax(c, d);
    }
  }

  lemma {:induction false} LeafStringNotAJoin(sha: Sha, segment: string, commitment: Digest)
    ensures Merkle.NotAJoin(SortedScheme(sha), LeafString(segment, commitment))
  {
    forall l: Digest, r: Digest ensures SortedScheme(sha).join(l, r) != LeafString(segment, commitment) {
      Domain.LeafIsNoNode(FrameAll([MinOf(l, r), MaxOf(l, r)], 4), FrameAll([Utf8.Encode(segment), commitment], 4));
    }
  }

  /** The index is irrelevant when pairs are sorted. */
  lemma {:induction false} ClimbAnyIndex(sha: Sha, node: Digest, idx: nat, path: seq<Digest>)
    ensures Merkle.Climb(SortedScheme(sha), node, idx, path) == Merkle.Climb(SortedScheme(sha), node, 0, path)
  {
    if path != [] {
      var k := |path| - 1;
      ClimbAnyIndex(sha, node, idx, path[..k]);
      SortedPair(sha, Merkle.Climb(SortedScheme(sha), node, 0, path[..k]), path[k]);
    }
  }

  /** Segment and commitment can be read back from what is hashed into a leaf, however long the id is. */
  lemma {:induction false} LeafStringInjective(id: string, c: Digest, id': string, c': Digest)
    requires LeafString(id, c) == LeafString(id', c')
    ensures id == id' && c == c'
  {
    var u, v := Utf8.Encode(id), Utf8.Encode(id');
    var x, y := FrameAll([u, c], 4), FrameAll([v, c'], 4);
    Domain.TagEndsAtNul(Domain.SPINE_LEAF, Domain.SPINE_LEAF, x, y);
    TwoParts(u, c);
    TwoParts(v, c');
    Utf8.EncodeInjective(id, id');
  }

  lemma {:induction false} TwoParts(u: bytes, c: bytes)
    ensures var x := FrameAll([u, c], 4);
      |x| == 8 + |u| + |c| && x[4..4 + |u|] == u && x[8 + |u|..] == c
  {
    assert [u, c][1..] == [c] && [c][1..] == [];
    assert FrameAll([c], 4) == Frame(c, 4) + FrameAll([], 4);
  }

  // ----- main results

  /** Every segment of a spine has a proof, and it verifies. */
  lemma {:induction false} ProofsVerify(sha: Sha, m: Commitments, id: string)
    requires Get(m, id).Some?
    ensures SpineProof(id, Get(m, id).value, RootOf(sha, m), SiblingsOf(sha, m, id)).Accepts(sha, RootOf(sha, m))
    ensures |SiblingsOf(sha, m, id)| == Merkle.Height(|m|)
  {
    var s, i := SortedScheme(sha), Position(m, id).value;
    Merkle.PathLeadsToRoot(s, LeafDigests(sha, m), i);
    ClimbAnyIndex(sha, LeafHash(sha, id, m[i].value), i, SiblingsOf(sha, m, id));
  }

  /** Every string hashed while a root is computed. */
  function HashedByRoot(sha: Sha, m: seq<Entry<Digest>>): set<bytes> {
    if m == [] then {} else Merkle.Hashed(SortedScheme(sha), Merkle.TreeOf(LeafStrings(m)))
  }

  lemma {:induction false} LeafStringsNotJoins(sha: Sha, m: seq<Entry<Digest>>)
    ensures Merkle.NoneAJoin(SortedScheme(sha), LeafStrings(m))
  {
    forall i | 0 <= i < |m| ensures Merkle.NotAJoin(SortedScheme(sha), LeafStrings(m)[i]) {
      LeafStringNotAJoin(sha, m[i].key, m[i].value);
    }
  }

  lemma {:induction false} VerifiedIsALeaf(sha: Sha, m: Commitments, p: SpineProof)
    requires CollisionFree(sha, HashedByRoot(sha, m) + p.Hashed(sha))
    requires m != [] && p.Accepts(sha, RootOf(sha, m))
    ensures LeafString(p.segmentId, p.commitment) in LeafStrings(m)
    ensures |p.siblings| == Merkle.Height(|m|)
  {
    var s, x := SortedScheme(sha), LeafString(p.segmentId, p.commitment);
    SortedSchemeJoinsPairs(sha);
    LeafStringNotAJoin(sha, p.segmentId, p.commitment);
    LeafStringsNotJoins(sha, m);
    assert HashedByRoot(sha, m) + p.Hashed(sha) ==
           Merkle.Hashed(s, Merkle.TreeOf(LeafStrings(m))) + {x} + Merkle.ClimbHashed(s, sha(x), 0, p.siblings);
    Merkle.ClimbToRoot(s, LeafStrings(m), x, 0, p.siblings);
  }

  /**
   A proof that verifies against the root of a spine names a segment of that spine with its commitment:
   forged commitments, spliced paths and paths of another length are all refused. Over the empty spine,
   whose root is all zeros, this asks in addition that nothing hashes to zeros.
   */
  lemma {:induction false} VerifiedIsHeld(sha: Sha, m: Commitments, p: SpineProof)
    requires CollisionFree(sha, HashedByRoot(sha, m) + p.Hashed(sha))
    requires m == [] ==> forall x :: x in p.Hashed(sha) ==> sha(x) != ZERO
    ensures p.Accepts(sha, RootOf(sha, m)) ==>
              && Get(m, p.segmentId) == Some(p.commitment) && |p.siblings| == Merkle.Height(|m|)
              && p.root == RootOf(sha, m)
  {
    if m == [] {
      EmptyRootUnreached(sha, p);
    } else if p.Accepts(sha, RootOf(sha, m)) {
      VerifiedIsALeaf(sha, m, p);
      var i :| 0 <= i < |m| && LeafStrings(m)[i] == LeafString(p.segmentId, p.commitment);
      LeafStringInjective(p.segmentId, p.commitment, m[i].key, m[i].value);
      GetEntry(m, i);
    }
  }

  lemma {:induction false} EmptyRootUnreached(sha: Sha, p: SpineProof)
    requires forall x :: x in p.Hashed(sha) ==> sha(x) != ZERO
    ensures !p.Accepts(sha, ZERO)
  {
    var s, node := SortedScheme(sha), LeafHash(sha, p.segmentId, p.commitment);
    assert LeafString(p.segmentId, p.commitment) in p.Hashed(sha);
    if p.siblings != [] {
      assert Merkle.LastString(s, node, 0, p.siblings) in Merkle.ClimbHashed(s, node, 0, p.siblings);
    }
  }

  ghost predicate Computed(sha: Sha, spine: Spine) {
    spine.root == RootOf(sha, spine.commitments)
  }

  /** Growth, on what is held: the version is not lower, and every entry is still there, unchanged. */
  lemma {:induction false} ProvesPrefixExactly(prior: Spine, now: Spine)
    ensures now.ProvesPrefix(prior) <==>
            now.version >= prior.version && forall e :: e in prior.commitments ==> e in now.commitments
  {
    hide Get, Position;
    forall e | e in prior.commitments ensures Get(now.commitments, e.key) == Some(e.value) <==> e in now.commitments {
      HeldExactly(now.commitments, e);
    }
  }

  lemma {:induction false} HeldExactly(m: Commitments, e: Entry<Digest>)
    ensures Get(m, e.key) == Some(e.value) <==> e in m
  {
    hide Position;
    var p := Position(m, e.key);
    if p.Some? {
      assert m[p.value] in m;
      assert m[p.value].key == e.key;
      if m[p.value].value == e.value {
        assert m[p.value] == e;
      }
    }
    if e in m {
      var i :| 0 <= i < |m| && m[i] == e;
      GetEntry(m, i);
    }
  }

  lemma {:induction false} StillThere(m: seq<Entry<Digest>>, n: seq<Entry<Digest>>, i: nat, e: Entry<Digest>)
    requires i <= |m| && n == m[..i] + [e] + m[i..]
    ensures forall f :: f in m ==> f in n
  {
    forall j | 0 <= j < |m| ensures m[j] in n {
      assert n[if j < i then j else j + 1] == m[j];
    }
  }

  /** A segment added, wherever its key belongs, keeps the proof. */
  lemma {:induction false} GrowthProves(prior: Spine, now: Spine, i: nat, e: Entry<Digest>)
    requires i <= |prior.commitments| && now.version >= prior.version
    requires now.commitments == prior.commitments[..i] + [e] + prior.commitments[i..]
    ensures now.ProvesPrefix(prior)
  {
    hide Get, KeyBefore;
    ProvesPrefixExactly(prior, now);
    StillThere(prior.commitments, now.commitments, i, e);
  }

  /** A commitment that is changed or removed loses it. */
  lemma {:induction false} RewindIsSeen(prior: Spine, now: Spine, i: nat)
    requires i < |prior.commitments|
    requires forall e :: e in now.commitments && e.key == prior.commitments[i].key ==> e.value != prior.commitments[i].value
    ensures !now.ProvesPrefix(prior)
  {
    ProvesPrefixExactly(prior, now);
    assert prior.commitments[i] in prior.commitments;
  }

  /** Whatever a prior spine commits to still has a verifying proof in every spine that proves the prior one. */
  lemma {:induction false} PrefixKeepsProofs(sha: Sha, prior: Spine, now: Spine, i: nat)
    requires Computed(sha, now) && now.ProvesPrefix(prior) && i < |prior.commitments|
    ensures var e := prior.commitments[i];
      && Get(now.commitments, e.key) == Some(e.value)
      && SpineProof(e.key, e.value, now.root, SiblingsOf(sha, now.commitments, e.key)).Accepts(sha, now.root)
  {
    ProofsVerify(sha, now.commitments, prior.commitments[i].key);
  }

  lemma {:induction false} ProvesPrefixTransitive(a: Spine, b: Spine, c: Spine)
    requires b.ProvesPrefix(a) && c.ProvesPrefix(b)
    ensures c.ProvesPrefix(a)
  {
    forall i | 0 <= i < |a.commitments|
      ensures Get(c.commitments, a.commitments[i].key) == Some(a.commitments[i].value)
    {
      var j := Position(b.commitments, a.commitments[i].key).value;
      assert b.commitments[j] == a.commitments[i];
    }
  }

  /** Along any run of publications, each proving the one before, no segment ever rewinds. */
  lemma {:induction false} NoSegmentRewinds(sha: Sha, history: seq<Spine>, i: nat, j: nat)
    requires i <= j < |history|
    requires forall k :: 0 < k < |history| ==> history[k].ProvesPrefix(history[k - 1])
    ensures history[j].version >= history[i].version && history[j].ProvesPrefix(history[i])
  {
    if i == j {
      forall k | 0 <= k < |history[i].commitments|
        ensures Get(history[i].commitments, history[i].commitments[k].key) == Some(history[i].commitments[k].value)
      {
        GetEntry(history[i].commitments, k);
      }
    } else {
      NoSegmentRewinds(sha, history, i, j - 1);
      ProvesPrefixTransitive(history[i], history[j - 1], history[j]);
    }
  }

  // ----- the whole-object digest

  /** What `digest` buffers for each entry. */
  function EntryBytes(m: seq<Entry<Digest>>): bytes {
    if m == [] then [] else Frame(Utf8.Encode(m[0].key), 4) + m[0].value + EntryBytes(m[1..])
  }

  function DigestString(spine: Spine): bytes {
    Domain.Preimage(Domain.SPINE_DIGEST, [Buffer(spine)])
  }

  method DigestOf(sha: Sha, spine: Spine) returns (h: Digest)
    ensures h == sha(DigestString(spine))
  {
    var buf := BufferEntries(LeBytes(spine.version, 8) + spine.root, spine.commitments);
    h := Domain.HashIn(sha, Domain.SPINE_DIGEST, [buf]);
  }

  method BufferEntries(start: bytes, m: seq<Entry<Digest>>) returns (buf: bytes)
    ensures buf == start + EntryBytes(m)
  {
    buf := start;
    ghost var rest := EntryBytes(m);
    for i := 0 to |m|
      invariant rest == EntryBytes(m[i..]) && buf + rest == start + EntryBytes(m)
    {
      assert m[i..][1..] == m[i + 1..];
      ghost var entry := Frame(Utf8.Encode(m[i].key), 4) + m[i].value;
      rest := EntryBytes(m[i + 1..]);
      Assoc(buf, entry, rest);
      Assoc(buf, LeBytes(|Utf8.Encode(m[i].key)|, 4), Utf8.Encode(m[i].key));
      Assoc(buf, Frame(Utf8.Encode(m[i].key), 4), m[i].value);
      buf := buf + LeBytes(|Utf8.Encode(m[i].key)|, 4);
      buf := buf + Utf8.Encode(m[i].key);
      buf := buf + m[i].value;
    }
  }

  ghost predicate KeysFit(m: seq<Entry<Digest>>) {
    forall i :: 0 <= i < |m| ==> |Utf8.Encode(m[i].key)| < Pow256(4)
  }

  lemma {:induction false} EntryBytesInjective(m: seq<Entry<Digest>>, n: seq<Entry<Digest>>)
    requires KeysFit(m) && KeysFit(n) && EntryBytes(m) == EntryBytes(n)
    ensures m == n
  {
    if m != [] && n != [] {
      var p, q := Utf8.Encode(m[0].key), Utf8.Encode(n[0].key);
      var u, v := m[0].value + EntryBytes(m[1..]), n[0].value + EntryBytes(n[1..]);
      Assoc(Frame(p, 4), m[0].value, EntryBytes(m[1..]));
      Assoc(Frame(q, 4), n[0].value, EntryBytes(n[1..]));
      FrameIsPrefixCode(p, q, u, v, 4);
      assert m[0].value == u[..32] && n[0].value == v[..32];
      assert EntryBytes(m[1..]) == u[32..] && EntryBytes(n[1..]) == v[32..];
      Utf8.EncodeInjective(m[0].key, n[0].key);
      EntryBytesInjective(m[1..], n[1..]);
      assert m == [m[0]] + m[1..] && n == [n[0]] + n[1..];
    }
  }

  function Buffer(spine: Spine): bytes {
    LeBytes(spine.version, 8) + spine.root + EntryBytes(spine.commitments)
  }

  lemma {:induction false} BufferParts(spine: Spine)
    ensures var x := Buffer(spine);
      |x| >= 40 && x[..8] == LeBytes(spine.version, 8) && x[8..40] == spine.root && x[40..] == EntryBytes(spine.commitments)
  {}

  lemma {:induction false} DigestStringFixesBuffer(a: Spine, b: Spine)
    requires DigestString(a) == DigestString(b)
    ensures Buffer(a) == Buffer(b)
  {
    var x, y := Buffer(a), Buffer(b);
    Domain.TagEndsAtNul(Domain.SPINE_DIGEST, Domain.SPINE_DIGEST, FrameAll([x], 4), FrameAll([y], 4));
    assert x == FrameAll([x], 4)[4..] && y == FrameAll([y], 4)[4..];
  }

  /** The digest of a spine fixes its version, its root and every commitment. */
  lemma {:induction false} DigestFixesSpine(sha: Sha, a: Spine, b: Spine)
    requires CollisionFree(sha, {DigestString(a), DigestString(b)})
    requires a.version < Pow256(8) && b.version < Pow256(8) && KeysFit(a.commitments) && KeysFit(b.commitments)
    requires sha(DigestString(a)) == sha(DigestString(b))
    ensures a == b
  {
    DigestStringFixesBuffer(a, b);
    BufferParts(a);
    BufferParts(b);
    LeInjective(a.version, b.version, 8);
    EntryBytesInjective(a.commitments, b.commitments);
  }
}
