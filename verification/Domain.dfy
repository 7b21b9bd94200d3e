/** Domain-separated hashing (crates/grid/src/domain.rs): tag, a zero byte, then the framed parts. */
module Domain {
  import opened ByteCodec
  import opened Hashing
  import opened CanonicalCodec

  /** The bytes of an ASCII literal. */
  function Ascii(s: string): (b: bytes)
    requires forall i :: 0 <= i < |s| ==> 0 < s[i] as int < 0x80
    ensures |b| == |s| && NulFree(b)
  {
    seq(|s|, i requires 0 <= i < |s| => s[i] as int)
  }

  ghost predicate NulFree(b: bytes) {
    forall i :: 0 <= i < |b| ==> b[i] != 0
  }

  const SEGMENT_COMMITMENT: bytes := Ascii("UNIDPP-GRID/SEGMENT-COMMITMENT")
  const SPINE_LEAF: bytes := Ascii("UNIDPP-GRID/SPINE-LEAF")
  const SPINE_NODE: bytes := Ascii("UNIDPP-GRID/SPINE-NODE")
  const SPINE_DIGEST: bytes := Ascii("UNIDPP-GRID/SPINE-DIGEST")

  /** The string that is hashed for `parts` in a domain. */
  function Preimage(domain: bytes, parts: seq<bytes>): bytes {
    domain + [0] + FrameAll(parts, 4)
  }

  method HashIn(sha: Sha, domain: bytes, parts: seq<bytes>) returns (h: Digest)
    ensures h == sha(Preimage(domain, parts))
  {
    var w := new CanonicalWriter();
    for i := 0 to |parts|
      invariant w.buf == FrameAll(parts[..i], 4)
    {
      assert parts[..i + 1] == parts[..i] + [parts[i]];
      FrameAllAppend(parts[..i], [parts[i]], 4);
      assert FrameAll([parts[i]], 4) == Frame(parts[i], 4);
      w.WriteBytes(parts[i]);
    }
    assert parts[..|parts|] == parts;
    h := sha(domain + [0] + w.buf);
  }

  lemma {:induction false} FirstNul(d: bytes, u: bytes)
    requires NulFree(d)
    ensures var x := d + [0] + u; x[|d|] == 0 && (forall i :: 0 <= i < |d| ==> x[i] != 0)
    ensures var x := d + [0] + u; x[..|d|] == d && x[|d| + 1..] == u
  {
    var x := d + [0] + u;
    assert forall i :: 0 <= i < |d| ==> x[i] == d[i];
  }

  /** A tag without zero bytes ends at the first zero byte. */
  lemma {:induction false} TagEndsAtNul(d: bytes, e: bytes, u: bytes, v: bytes)
    requires NulFree(d) && NulFree(e)
    requires d + [0] + u == e + [0] + v
    ensures d == e && u == v
  {
    FirstNul(d, u);
    FirstNul(e, v);
    assert |d| == |e|;
  }

  /** What is hashed determines the domain and every part: no value of one domain can be read in another. */
  lemma {:induction false} PreimageInjective(d: bytes, ps: seq<bytes>, e: bytes, qs: seq<bytes>)
    requires NulFree(d) && NulFree(e) && Fits(ps, 4) && Fits(qs, 4)
    requires Preimage(d, ps) == Preimage(e, qs)
    ensures d == e && ps == qs
  {
    TagEndsAtNul(d, e, FrameAll(ps, 4), FrameAll(qs, 4));
    FrameAllInjective(ps, qs, 4);
  }

  /** The four domains are different. */
  lemma {:induction false} TagsDiffer()
    ensures |{SEGMENT_COMMITMENT, SPINE_LEAF, SPINE_NODE, SPINE_DIGEST}| == 4
  {
    assert SPINE_LEAF[18] == 'L' as int && SPINE_NODE[18] == 'N' as int;
  }

  lemma {:induction false} LeafIsNoNode(u: bytes, v: bytes)
    ensures SPINE_NODE + [0] + u != SPINE_LEAF + [0] + v
  {
    assert SPINE_LEAF[18] == 'L' as int && SPINE_NODE[18] == 'N' as int;
    assert (SPINE_NODE + [0] + u)[18] == SPINE_NODE[18] && (SPINE_LEAF + [0] + v)[18] == SPINE_LEAF[18];
  }
}
