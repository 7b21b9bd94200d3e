/**
 Roll-up traversal sets: canonical leaves, canonical order, the positional Merkle root and inclusion proofs
 (crates/transform/src/rollup.rs).
 */
module Rollups {
  import opened Wrappers
  import opened ByteCodec
  import opened Hashing
  import opened Identifiers
  import opened OrderedMap
  import opened Quantities
  import opened RustInt
  import DecimalText
  import Decimals
  import Domain
  import Lexicographic
  import Merkle
  import Utf8

  datatype TraversalMember = TraversalMember(
    passport: PassportId,
    version: nat,
    stateHash: Digest,
    quantities: OrderedMap<Quantity>)

  type Members = seq<TraversalMember>

  // ----- leaves

  function QuantityParts(qs: seq<Entry<Quantity>>): (parts: seq<bytes>)
    ensures |parts| == 3 * |qs|
  {
    if qs == [] then [] else
      [ Utf8.Encode(qs[0].key), Utf8.Encode(DecimalText.Print(qs[0].value.amount)), Utf8.Encode(qs[0].value.unit.uom) ]
      + QuantityParts(qs[1..])
  }

  /** What is written for a member; the version as eight bytes. */
  function LeafParts(m: TraversalMember): seq<bytes> {
    [Utf8.Encode(m.passport), LeBytes(m.version, 8), m.stateHash] + QuantityParts(m.quantities)
  }

  /** The canonical leaf bytes: every part behind its 64-bit length. */
  function LeafBytes(m: TraversalMember): bytes {
    FrameAll(LeafParts(m), 8)
  }

  lemma {:induction false} FramesOfFour(a: bytes, b: bytes, c: bytes, rest: seq<bytes>)
    ensures FrameAll([a, b, c] + rest, 8) == Frame(a, 8) + Frame(b, 8) + Frame(c, 8) + FrameAll(rest, 8)
  {
    hide Frame;
    var xs := [a, b, c] + rest;
    assert xs[1..] == [b, c] + rest && xs[1..][1..] == [c] + rest && xs[1..][1..][1..] == rest;
    assert FrameAll(xs, 8) == Frame(a, 8) + FrameAll(xs[1..], 8);
    assert FrameAll(xs[1..], 8) == Frame(b, 8) + FrameAll(xs[1..][1..], 8);
    assert FrameAll(xs[1..][1..], 8) == Frame(c, 8) + FrameAll(rest, 8);
    Assoc(Frame(b, 8), Frame(c, 8), FrameAll(rest, 8));
    Assoc(Frame(a, 8), Frame(b, 8), Frame(c, 8) + FrameAll(rest, 8));
    Assoc(Frame(a, 8) + Frame(b, 8), Frame(c, 8), FrameAll(rest, 8));
  }

  /** No amount has the least i128 as mantissa, of which the printer cannot take the absolute value. */
  predicate CanPrint(qs: seq<Entry<Quantity>>) {
    forall i :: 0 <= i < |qs| ==> qs[i].value.amount.mant != I128_MIN
  }

  predicate CanPrintAll(ms: Members) {
    forall i :: 0 <= i < |ms| ==> CanPrint(ms[i].quantities)
  }

  method WriteLeaf(m: TraversalMember) returns (r: Result<bytes, Decimals.ModelError>)
    ensures r == if CanPrint(m.quantities) then Ok(LeafBytes(m)) else Err(Decimals.ArithmeticPanic)
  {
    hide Frame, FrameAll, Utf8.Encode, DecimalText.Print, LeBytes, CanPrint;
    FramesOfFour(Utf8.Encode(m.passport), LeBytes(m.version, 8), m.stateHash, QuantityParts(m.quantities));
    var buf := Frame(Utf8.Encode(m.passport), 8);
    buf := buf + Frame(LeBytes(m.version, 8), 8);
    buf := buf + Frame(m.stateHash, 8);
    r := WriteQuantities(buf, m.quantities);
  }

  /** The loop over the labelled quantities. */
  method WriteQuantities(start: bytes, qs: seq<Entry<Quantity>>) returns (r: Result<bytes, Decimals.ModelError>)
    ensures r == if CanPrint(qs) then Ok(start + FrameAll(QuantityParts(qs), 8)) else Err(Decimals.ArithmeticPanic)
  {
    hide Frame, Utf8.Encode, DecimalText.Print;
    var buf := start;
    ghost var whole := start + FrameAll(QuantityParts(qs), 8);
    for i := 0 to |qs|
      invariant buf + FrameAll(QuantityParts(qs[i..]), 8) == whole
      invariant CanPrint(qs[..i])
    {
      var name := Utf8.Encode(qs[i].key);
      var text :- DecimalText.Display(qs[i].value.amount);
      var amount := Utf8.Encode(text);
      var uom := Utf8.Encode(qs[i].value.unit.uom);
      ghost var rest := FrameAll(QuantityParts(qs[i + 1..]), 8);
      assert qs[i..][1..] == qs[i + 1..];
      FramesOfFour(name, amount, uom, QuantityParts(qs[i + 1..]));
      ThreeMore(buf, Frame(name, 8), Frame(amount, 8), Frame(uom, 8), rest);
      buf := buf + Frame(name, 8);
      buf := buf + Frame(amount, 8);
      buf := buf + Frame(uom, 8);
    }
    assert qs[|qs|..] == [] && FrameAll(QuantityParts([]), 8) == [];
    assert buf + [] == buf;
    assert qs[..|qs|] == qs;
    return Ok(buf);
  }

  lemma {:induction false} ThreeMore(buf: bytes, a: bytes, b: bytes, c: bytes, rest: bytes)
    ensures buf + (a + b + c + rest) == buf + a + b + c + rest
  {}

  function LeafString(m: TraversalMember): bytes {
    Domain.Ascii("UNIDPP/ROLLUP/LEAF|") + LeafBytes(m)
  }

  function LeafStrings(ms: Members): (xs: seq<bytes>)
    ensures |xs| == |ms| && forall i :: 0 <= i < |ms| ==> xs[i] == LeafString(ms[i])
  {
    if ms == [] then [] else [LeafString(ms[0])] + LeafStrings(ms[1..])
  }

  // ----- the positional tree

  function JoinString(l: Digest, r: Digest): bytes {
    Domain.Ascii("UNIDPP/ROLLUP/NODE|") + l + r
  }

  /** Left and right are joined in order. */
  function OrderedScheme(sha: Sha): Merkle.Scheme {
    Merkle.Scheme(sha, (l: Digest, r: Digest) => JoinString(l, r))
  }

  lemma {:induction false} JoinStringParts(a: Digest, b: Digest, c: Digest, d: Digest)
    requires JoinString(a, b) == JoinString(c, d)
    ensures a == c && b == d
  {
    var t := Domain.Ascii("UNIDPP/ROLLUP/NODE|");
    assert JoinString(a, b)[|t|..|t| + 32] == a && JoinString(a, b)[|t| + 32..] == b;
    assert JoinString(c, d)[|t|..|t| + 32] == c && JoinString(c, d)[|t| + 32..] == d;
  }

  lemma {:induction false} SchemeJoinsInOrder(sha: Sha)
    ensures Merkle.JoinsInOrder(OrderedScheme(sha)) && Merkle.JoinsPairs(OrderedScheme(sha))
  {
    var s := OrderedScheme(sha);
    forall a: Digest, b: Digest, c: Digest, d: Digest | s.join(a, b) == s.join(c, d) ensures a == c && b == d {
      JoinStringParts(a, b, c, d);
    }
  }

  lemma {:induction false} LeafIsNoJoin(sha: Sha, m: TraversalMember)
    ensures Merkle.NotAJoin(OrderedScheme(sha), LeafString(m))
  {
    hide LeafBytes;
    var leaf, node := Domain.Ascii("UNIDPP/ROLLUP/LEAF|"), Domain.Ascii("UNIDPP/ROLLUP/NODE|");
    assert leaf[14] == 'L' as int && node[14] == 'N' as int;
    forall l: Digest, r: Digest ensures OrderedScheme(sha).join(l, r) != LeafString(m) {
      assert JoinString(l, r)[14] == node[14] && LeafString(m)[14] == leaf[14];
    }
  }

  lemma {:induction false} LeavesAreNoJoins(sha: Sha, ms: Members)
    ensures Merkle.NoneAJoin(OrderedScheme(sha), LeafStrings(ms))
  {
    hide Merkle.NotAJoin, LeafString;
    forall i | 0 <= i < |ms| ensures Merkle.NotAJoin(OrderedScheme(sha), LeafStrings(ms)[i]) {
      LeafIsNoJoin(sha, ms[i]);
    }
  }

  function LeafDigests(sha: Sha, ms: Members): (ds: seq<Digest>)
    ensures |ds| == |ms| && forall i :: 0 <= i < |ms| ==> ds[i] == sha(LeafString(ms[i]))
  {
    Merkle.Digests(OrderedScheme(sha), LeafStrings(ms))
  }

  /** `root`; over no members the source panics. */
  function RootOf(sha: Sha, ms: Members): Digest
    requires ms != []
  {
    Merkle.Root(OrderedScheme(sha), LeafDigests(sha, ms))
  }

  /** The leaves of all members, each hashed. */
  method HashLeaves(sha: Sha, ms: Members) returns (r: Result<seq<Digest>, Decimals.ModelError>)
    ensures r == if CanPrintAll(ms) then Ok(LeafDigests(sha, ms)) else Err(Decimals.ArithmeticPanic)
  {
    hide LeafString, LeafBytes, LeafDigests, CanPrint, CanPrintAll, Domain.Ascii;
    var level: seq<Digest> := [];
    NothingToPrint();
    for i := 0 to |ms|
      invariant CanPrintAll(ms[..i]) && |level| == i
      invariant forall k :: 0 <= k < i ==> level[k] == sha(LeafString(ms[k]))
    {
      PrintOneMore(ms, i);
      var leaf :- WriteLeaf(ms[i]);
      LeafStringOf(ms[i]);
      level := level + [sha(Domain.Ascii("UNIDPP/ROLLUP/LEAF|") + leaf)];
    }
    assert ms[..|ms|] == ms;
    AreLeafDigests(sha, ms, level);
    return Ok(level);
  }

  lemma {:induction false} NothingToPrint()
    ensures forall ms: Members :: CanPrintAll(ms[..0])
  {}

  lemma {:induction false} PrintOneMore(ms: Members, i: nat)
    requires i < |ms|
    ensures CanPrintAll(ms[..i + 1]) <==> CanPrintAll(ms[..i]) && CanPrint(ms[i].quantities)
    ensures CanPrintAll(ms) ==> CanPrint(ms[i].quantities)
  {
    hide CanPrint;
    assert ms[..i + 1] == ms[..i] + [ms[i]];
    assert forall k :: 0 <= k < i ==> ms[..i + 1][k] == ms[..i][k];
    assert ms[..i + 1][i] == ms[i];
  }

  lemma {:induction false} AreLeafDigests(sha: Sha, ms: Members, level: seq<Digest>)
    requires |level| == |ms| && forall k :: 0 <= k < |ms| ==> level[k] == sha(LeafString(ms[k]))
    ensures level == LeafDigests(sha, ms)
  {
    hide LeafString, LeafDigests;
  }

  lemma {:induction false} LeafStringOf(m: TraversalMember)
    ensures LeafString(m) == Domain.Ascii("UNIDPP/ROLLUP/LEAF|") + LeafBytes(m)
  {}

  method Root(sha: Sha, ms: Members) returns (r: Result<Digest, Decimals.ModelError>)
    requires ms != []
    ensures r == if CanPrintAll(ms) then Ok(RootOf(sha, ms)) else Err(Decimals.ArithmeticPanic)
  {
    hide CanPrintAll, LeafDigests;
    var level :- HashLeaves(sha, ms);
    var root := Merkle.BuildRoot(OrderedScheme(sha), level);
    return Ok(root);
  }

  /** The sibling path of a member; none for an index out of range. */
  method InclusionProof(sha: Sha, ms: Members, index: nat) 
    returns (r: Result<Option<seq<Digest>>, Decimals.ModelError>)
    ensures r ==
      if index >= |ms| then Ok(None)
      else if CanPrintAll(ms) then Ok(Some(Merkle.Path(OrderedScheme(sha), LeafDigests(sha, ms), index)))
      else Err(Decimals.ArithmeticPanic)
  {
    hide CanPrintAll, LeafDigests;
    if index >= |ms| {
      return Ok(None);
    }
    var level :- HashLeaves(sha, ms);
    var path := Merkle.BuildPath(OrderedScheme(sha), level, index);
    return Ok(Some(path));
  }

  /** A set size after k levels. */
  function SizeAfter(n: nat, k: nat): nat {
    if k == 0 then n else Merkle.Halve(SizeAfter(n, k - 1))
  }

  /** What `verify_inclusion` accepts. */
  predicate Included(sha: Sha, m: TraversalMember, index: nat, setSize: nat, proof: seq<Digest>, root: Digest) {
    && SizeAfter(setSize, |proof|) == 1
    && Merkle.Climb(OrderedScheme(sha), sha(LeafString(m)), index, proof) == root
  }

  method VerifyInclusion(sha: Sha, m: TraversalMember, index: nat, setSize: nat, proof: seq<Digest>, root: Digest)
    returns (r: Result<bool, Decimals.ModelError>)
    ensures r ==
      if CanPrint(m.quantities) then Ok(Included(sha, m, index, setSize, proof, root)) else Err(Decimals.ArithmeticPanic)
  {
    hide CanPrint;
    var leaf :- WriteLeaf(m);
    ghost var s, start := OrderedScheme(sha), sha(LeafString(m));
    var node := sha(Domain.Ascii("UNIDPP/ROLLUP/LEAF|") + leaf);
    assert node == start;
    var idx, size := index, setSize;
    FoldStart(sha, start, index, proof, setSize);
    hide *;
    for k := 0 to |proof|
      invariant node == Merkle.Climb(s, start, index, proof[..k])
      invariant idx == Merkle.Shift(index, k) && size == SizeAfter(setSize, k)
    {
      var sibling := proof[k];
      FoldStep(sha, start, index, proof, k, setSize);
      node := if idx % 2 == 0 then sha(JoinString(node, sibling)) else sha(JoinString(sibling, node));
      idx := idx / 2;
      size := (size + 1) / 2;
    }
    assert proof[..|proof|] == proof;
    IncludedMeans(sha, m, index, setSize, proof, root);
    return Ok(size == 1 && node == root);
  }

  lemma {:induction false} IncludedMeans(
    sha: Sha, m: TraversalMember, index: nat, setSize: nat, proof: seq<Digest>, root: Digest)
    ensures Included(sha, m, index, setSize, proof, root) <==>
            && SizeAfter(setSize, |proof|) == 1
            && Merkle.Climb(OrderedScheme(sha), sha(LeafString(m)), index, proof) == root
  {}

  /** One turn of the fold. */
  lemma {:induction false} FoldStep(sha: Sha, start: Digest, index: nat, proof: seq<Digest>, k: nat, setSize: nat)
    requires k < |proof|
    ensures var s := OrderedScheme(sha);
      var node := Merkle.Climb(s, start, index, proof[..k]);
      && Merkle.Climb(s, start, index, proof[..k + 1]) ==
         (if Merkle.Shift(index, k) % 2 == 0 then sha(JoinString(node, proof[k])) else sha(JoinString(proof[k], node)))
      && Merkle.Shift(index, k + 1) == Merkle.Shift(index, k) / 2
      && SizeAfter(setSize, k + 1) == (SizeAfter(setSize, k) + 1) / 2
  {
    hide JoinString, Merkle.Climb;
    assert proof[..k + 1] == proof[..k] + [proof[k]];
    Merkle.ClimbSnoc(OrderedScheme(sha), start, index, proof[..k], proof[k]);
  }

  lemma {:induction false} FoldStart(sha: Sha, start: Digest, index: nat, proof: seq<Digest>, setSize: nat)
    ensures Merkle.Climb(OrderedScheme(sha), start, index, proof[..0]) == start
    ensures Merkle.Shift(index, 0) == index && SizeAfter(setSize, 0) == setSize
  {}

  // ----- canonical order

  function KeyOf(m: TraversalMember): bytes {
    Utf8.Encode(m.passport)
  }

  function InsertMember(m: TraversalMember, sorted: Members): Members {
    if sorted == [] || Lexicographic.Le(KeyOf(m), KeyOf(sorted[0])) then [m] + sorted
    else [sorted[0]] + InsertMember(m, sorted[1..])
  }

  /** The stable sort by passport. */
  function SortMembers(ms: Members): Members {
    if ms == [] then [] else InsertMember(ms[0], SortMembers(ms[1..]))
  }

  ghost predicate InOrder(ms: Members) {
    forall i, j :: 0 <= i < j < |ms| ==> Lexicographic.Le(KeyOf(ms[i]), KeyOf(ms[j]))
  }

  ghost predicate InStrictOrder(ms: Members) {
    forall i, j :: 0 <= i < j < |ms| ==> Lexicographic.Lt(KeyOf(ms[i]), KeyOf(ms[j]))
  }

  ghost predicate DistinctPassports(ms: Members) {
    forall i, j :: 0 <= i < j < |ms| ==> ms[i].passport != ms[j].passport
  }

  /** The first passport that occurs twice in a row. */
  function FirstDuplicate(ms: Members): Option<PassportId> {
    if |ms| < 2 then None
    else if ms[0].passport == ms[1].passport then Some(ms[0].passport)
    else FirstDuplicate(ms[1..])
  }

  function NewSet(ms: Members): Result<Members, TransformError> {
    if ms == [] then Err(Empty) else
      match FirstDuplicate(SortMembers(ms))
      case Some(p) => Err(TransformError.Provenance(p))
      case None => Ok(SortMembers(ms))
  }

  method NewTraversalSet(ms: Members) returns (r: Result<Members, TransformError>)
    ensures r == NewSet(ms)
  {
    if ms == [] {
      return Err(Empty);
    }
    var sorted := SortMembers(ms);
    var i := 0;
    while i + 1 < |sorted|
      invariant 0 <= i <= |sorted|
      invariant FirstDuplicate(sorted[i..]) == FirstDuplicate(sorted)
    {
      assert sorted[i..][1..] == sorted[i + 1..];
      if sorted[i].passport == sorted[i + 1].passport {
        return Err(TransformError.Provenance(sorted[i].passport));
      }
      i := i + 1;
    }
    return Ok(sorted);
  }

  lemma {:induction false} InsertKeeps(m: TraversalMember, ms: Members)
    requires InOrder(ms)
    ensures multiset(InsertMember(m, ms)) == multiset(ms) + multiset{m}
    ensures InOrder(InsertMember(m, ms))
    decreases |ms|
  {
    hide KeyOf, Lexicographic.Le, InOrder;
    if ms == [] {
      OneIsInOrder(m);
      assert InsertMember(m, ms) == [m];
    } else if Lexicographic.Le(KeyOf(m), KeyOf(ms[0])) {
      assert multiset([m] + ms) == multiset{m} + multiset(ms);
      FirstThenRest(m, ms);
    } else {
      Lexicographic.LeTotal(KeyOf(m), KeyOf(ms[0]));
      var rest := InsertMember(m, ms[1..]);
      OrderOfRest(ms);
      InsertKeeps(m, ms[1..]);
      assert ms == [ms[0]] + ms[1..];
      forall i | 0 <= i < |rest| ensures Lexicographic.Le(KeyOf(ms[0]), KeyOf(rest[i])) {
        assert rest[i] in multiset(rest);
        OneOfThem(rest[i], m, ms[1..]);
      }
      PrependInOrder(ms[0], rest);
    }
  }

  lemma {:induction false} OneIsInOrder(m: TraversalMember)
    ensures InOrder([m])
  {}

  lemma {:induction false} OrderOfRest(ms: Members)
    requires ms != [] && InOrder(ms)
    ensures InOrder(ms[1..]) && forall i :: 0 <= i < |ms[1..]| ==> Lexicographic.Le(KeyOf(ms[0]), KeyOf(ms[1..][i]))
  {
    hide KeyOf, Lexicographic.Le;
  }

  lemma {:induction false} PrependInOrder(m: TraversalMember, ms: Members)
    requires InOrder(ms) && forall i :: 0 <= i < |ms| ==> Lexicographic.Le(KeyOf(m), KeyOf(ms[i]))
    ensures InOrder([m] + ms)
  {
    hide KeyOf, Lexicographic.Le;
  }

  lemma {:induction false} FirstThenRest(m: TraversalMember, ms: Members)
    requires ms != [] && InOrder(ms) && Lexicographic.Le(KeyOf(m), KeyOf(ms[0]))
    ensures InOrder([m] + ms)
  {
    hide KeyOf, Lexicographic.Le;
    forall i | 0 <= i < |ms| ensures Lexicographic.Le(KeyOf(m), KeyOf(ms[i])) {
      if i > 0 {
        Lexicographic.LeTransitive(KeyOf(m), KeyOf(ms[0]), KeyOf(ms[i]));
      }
    }
    PrependInOrder(m, ms);
  }

  lemma {:induction false} OneOfThem(x: TraversalMember, m: TraversalMember, ms: Members)
    requires x in multiset(ms) + multiset{m}
    ensures x == m || exists i :: 0 <= i < |ms| && ms[i] == x
  {}

  lemma {:induction false} SortSorts(ms: Members)
    ensures multiset(SortMembers(ms)) == multiset(ms) && InOrder(SortMembers(ms))
  {
    hide InsertMember, InOrder;
    if ms == [] {
      SortedNothing();
    } else {
      SortSorts(ms[1..]);
      InsertKeeps(ms[0], SortMembers(ms[1..]));
      assert ms == [ms[0]] + ms[1..];
    }
  }

  lemma {:induction false} SortedNothing()
    ensures InOrder([])
  {}

  lemma {:induction false} KeyIsPassport(a: TraversalMember, b: TraversalMember)
    ensures KeyOf(a) == KeyOf(b) <==> a.passport == b.passport
  {
    hide Utf8.Encode;
    if KeyOf(a) == KeyOf(b) {
      Utf8.EncodeInjective(a.passport, b.passport);
    }
  }

  /** In a sorted list, equal passports are neighbours somewhere. */
  lemma {:induction false} NoNeighboursNoDuplicates(ms: Members)
    requires InOrder(ms)
    ensures FirstDuplicate(ms).None? <==> DistinctPassports(ms)
    ensures DistinctPassports(ms) <==> InStrictOrder(ms)
    decreases |ms|
  {
    hide KeyOf, Lexicographic.Le;
    forall i, j | 0 <= i < j < |ms|
      ensures ms[i].passport != ms[j].passport <==> Lexicographic.Lt(KeyOf(ms[i]), KeyOf(ms[j]))
    {
      KeyIsPassport(ms[i], ms[j]);
    }
    if |ms| >= 2 {
      NoNeighboursNoDuplicates(ms[1..]);
      if ms[0].passport != ms[1].passport && DistinctPassports(ms[1..]) {
        forall j | 1 <= j < |ms| ensures ms[0].passport != ms[j].passport {
          KeyIsPassport(ms[0], ms[j]);
          KeyIsPassport(ms[0], ms[1]);
          if KeyOf(ms[0]) == KeyOf(ms[j]) && j > 1 {
            Lexicographic.LeAntisymmetric(KeyOf(ms[0]), KeyOf(ms[1]));
          }
        }
        assert forall j :: 1 <= j < |ms| ==> ms[j] == ms[1..][j - 1];
      }
    }
  }

  lemma {:induction false} TwiceIsTwoPlaces(ms: Members, x: TraversalMember)
    requires multiset(ms)[x] >= 2
    ensures exists i, j :: 0 <= i < j < |ms| && ms[i] == x && ms[j] == x
    decreases |ms|
  {
    assert ms == [ms[0]] + ms[1..];
    if ms[0] == x {
      assert x in multiset(ms[1..]);
      var j :| 0 <= j < |ms[1..]| && ms[1..][j] == x;
      assert ms[0] == x && ms[j + 1] == x;
    } else {
      TwiceIsTwoPlaces(ms[1..], x);
      var i, j :| 0 <= i < j < |ms[1..]| && ms[1..][i] == x && ms[1..][j] == x;
      assert ms[i + 1] == x && ms[j + 1] == x;
    }
  }

  lemma {:induction false} TwoPlacesIsTwice(ms: Members, i: nat, j: nat)
    requires i < j < |ms| && ms[i] == ms[j]
    ensures multiset(ms)[ms[i]] >= 2
  {
    var x := ms[i];
    assert ms == ms[..j] + [x] + ms[j + 1..];
    assert multiset(ms) == multiset(ms[..j]) + multiset{x} + multiset(ms[j + 1..]);
    assert ms[..j][i] == x && x in multiset(ms[..j]);
  }

  /** Distinctness does not depend on the order. */
  lemma {:induction false} DistinctAnyOrder(ms: Members, ns: Members)
    requires multiset(ms) == multiset(ns) && DistinctPassports(ms)
    ensures DistinctPassports(ns)
  {
    forall i, j | 0 <= i < j < |ns| ensures ns[i].passport != ns[j].passport {
      if ns[i] == ns[j] {
        TwoPlacesIsTwice(ns, i, j);
        TwiceIsTwoPlaces(ms, ns[i]);
        assert false;
      }
      assert ns[i] in multiset(ms) && ns[j] in multiset(ms);
      var a :| 0 <= a < |ms| && ms[a] == ns[i];
      var b :| 0 <= b < |ms| && ms[b] == ns[j];
    }
  }

  /** A strictly sorted list is determined by what is in it. */
  lemma {:induction false} OneSortedOrder(ms: Members, ns: Members)
    requires InStrictOrder(ms) && InStrictOrder(ns) && multiset(ms) == multiset(ns)
    ensures ms == ns
    decreases |ms|
  {
    hide InStrictOrder, KeyOf;
    assert |ms| == |multiset(ms)| == |multiset(ns)| == |ns|;
    if ms != [] {
      var a := PlaceOf(ms[0], ns);
      var b := PlaceOf(ns[0], ms);
      FirstIsFirst(ms, ns, a, b);
      RestOf(ms);
      RestOf(ns);
      OneSortedOrder(ms[1..], ns[1..]);
      assert ms == [ms[0]] + ms[1..] && ns == [ns[0]] + ns[1..];
    }
  }

  lemma {:induction false} PlaceOf(m: TraversalMember, ms: Members) returns (i: nat)
    requires m in multiset(ms)
    ensures i < |ms| && ms[i] == m
  {
    i :| 0 <= i < |ms| && ms[i] == m;
  }

  lemma {:induction false} RestOf(ms: Members)
    requires ms != []
    ensures multiset(ms[1..]) == multiset(ms) - multiset{ms[0]}
    ensures InStrictOrder(ms) ==> InStrictOrder(ms[1..])
  {
    hide KeyOf;
    assert ms == [ms[0]] + ms[1..];
  }

  lemma {:induction false} FirstIsFirst(ms: Members, ns: Members, a: nat, b: nat)
    requires InStrictOrder(ms) && InStrictOrder(ns) && a < |ns| && b < |ms|
    requires ns[a] == ms[0] && ms[b] == ns[0]
    ensures ms[0] == ns[0]
  {
    hide KeyOf;
    if a > 0 && b > 0 {
      Lexicographic.LtTransitive(KeyOf(ms[0]), KeyOf(ms[b]), KeyOf(ns[a]));
    }
  }

  /** A set is made exactly of members with distinct passports; it holds all of them, in strict order. */
  lemma {:induction false} NewSetExactly(ms: Members)
    ensures NewSet(ms).Ok? <==> ms != [] && DistinctPassports(ms)
    ensures NewSet(ms).Ok? ==>
              var made := NewSet(ms).value; multiset(made) == multiset(ms) && InStrictOrder(made) && made != []
  {
    hide SortMembers, FirstDuplicate, InOrder, InStrictOrder, DistinctPassports;
    var sorted := SortMembers(ms);
    SortSorts(ms);
    NoNeighboursNoDuplicates(sorted);
    assert |sorted| == |multiset(sorted)| == |multiset(ms)| == |ms|;
    if DistinctPassports(sorted) {
      DistinctAnyOrder(sorted, ms);
    }
    if DistinctPassports(ms) {
      DistinctAnyOrder(ms, sorted);
    }
  }

  /** The passport is listed twice. */
  ghost predicate ListedTwice(ms: Members, p: PassportId) {
    exists i, j :: 0 <= i < j < |ms| && ms[i].passport == p && ms[j].passport == p
  }

  lemma {:induction false} ListedTwiceAnyOrder(ms: Members, ns: Members, i: nat, j: nat)
    requires multiset(ms) == multiset(ns) && i < j < |ms| && ms[i].passport == ms[j].passport
    ensures ListedTwice(ns, ms[i].passport)
  {
    if ms[i] == ms[j] {
      TwoPlacesIsTwice(ms, i, j);
      TwiceIsTwoPlaces(ns, ms[i]);
    } else {
      assert ms[i] in multiset(ms) && ms[j] in multiset(ms);
      var a := PlaceOf(ms[i], ns);
      var b := PlaceOf(ms[j], ns);
      assert a < b || b < a;
    }
  }

  lemma {:induction false} FirstDuplicateAt(ms: Members) returns (i: nat)
    requires FirstDuplicate(ms).Some?
    ensures i + 1 < |ms| && ms[i].passport == ms[i + 1].passport == FirstDuplicate(ms).value
    decreases |ms|
  {
    if ms[0].passport == ms[1].passport {
      i := 0;
    } else {
      var k := FirstDuplicateAt(ms[1..]);
      i := k + 1;
    }
  }

  /** No members are refused as such; else a refusal names a passport that is listed twice. */
  lemma {:induction false} RefusedSetNamesDuplicate(ms: Members)
    ensures ms == [] ==> NewSet(ms) == Err(Empty)
    ensures ms != [] && NewSet(ms).Err? ==>
              exists p: PassportId :: NewSet(ms) == Err(TransformError.Provenance(p)) && ListedTwice(ms, p)
  {
    hide SortMembers, FirstDuplicate, InOrder;
    var sorted := SortMembers(ms);
    SortSorts(ms);
    if ms != [] && NewSet(ms).Err? {
      var i := FirstDuplicateAt(sorted);
      ListedTwiceAnyOrder(sorted, ms, i, i + 1);
      assert NewSet(ms) == Err(TransformError.Provenance(sorted[i].passport));
    }
  }

  /** Whoever lists the same members, in any order, gets the same set. */
  lemma {:induction false} AnyOrderOneSet(ms: Members, ns: Members)
    requires multiset(ms) == multiset(ns)
    ensures NewSet(ms).Ok? <==> NewSet(ns).Ok?
    ensures NewSet(ms).Ok? ==> NewSet(ms) == NewSet(ns)
  {
    hide NewSet, InStrictOrder, DistinctPassports;
    NewSetExactly(ms);
    NewSetExactly(ns);
    assert |ms| == |multiset(ms)| == |multiset(ns)| == |ns|;
    if DistinctPassports(ms) {
      DistinctAnyOrder(ms, ns);
    }
    if DistinctPassports(ns) {
      DistinctAnyOrder(ns, ms);
    }
    if NewSet(ms).Ok? {
      OneSortedOrder(NewSet(ms).value, NewSet(ns).value);
    }
  }

  // ----- what a leaf fixes

  /** All lengths and the version fit 64 bits, as they do in memory. */
  ghost predicate MemberFits(m: TraversalMember) {
    m.version < Pow256(8) && Fits(LeafParts(m), 8)
  }

  /** The same member, up to how its amounts are written and where its units are registered. */
  ghost predicate SameContent(m: TraversalMember, n: TraversalMember) {
    && m.passport == n.passport && m.version == n.version && m.stateHash == n.stateHash
    && SameQuantities(m.quantities, n.quantities)
  }

  ghost predicate SameQuantities(qs: seq<Entry<Quantity>>, rs: seq<Entry<Quantity>>) {
    && |qs| == |rs|
    && forall i :: 0 <= i < |qs| ==>
         && qs[i].key == rs[i].key && qs[i].value.unit.uom == rs[i].value.unit.uom
         && Decimals.Value(qs[i].value.amount) == Decimals.Value(rs[i].value.amount)
  }

  lemma {:induction false} QuantityPartsFix(qs: seq<Entry<Quantity>>, rs: seq<Entry<Quantity>>)
    requires QuantityParts(qs) == QuantityParts(rs)
    ensures SameQuantities(qs, rs)
    decreases |qs|
  {
    hide Utf8.Encode, DecimalText.Print, Decimals.Value;
    var ps, ts := QuantityParts(qs), QuantityParts(rs);
    assert 3 * |qs| == 3 * |rs|;
    if qs != [] {
      assert ps[0] == ts[0] && ps[1] == ts[1] && ps[2] == ts[2];
      Utf8.EncodeInjective(qs[0].key, rs[0].key);
      Utf8.EncodeInjective(DecimalText.Print(qs[0].value.amount), DecimalText.Print(rs[0].value.amount));
      DecimalText.PrintInjective(qs[0].value.amount, rs[0].value.amount);
      Utf8.EncodeInjective(qs[0].value.unit.uom, rs[0].value.unit.uom);
      assert QuantityParts(qs[1..]) == ps[3..] && QuantityParts(rs[1..]) == ts[3..];
      QuantityPartsFix(qs[1..], rs[1..]);
      assert forall i :: 1 <= i < |qs| ==> qs[i] == qs[1..][i - 1] && rs[i] == rs[1..][i - 1];
    }
  }

  /** No field of a leaf can bleed into the next: the bytes fix the member's content. */
  lemma {:induction false} LeafFixesMember(m: TraversalMember, n: TraversalMember)
    requires MemberFits(m) && MemberFits(n) && LeafString(m) == LeafString(n)
    ensures SameContent(m, n)
  {
    hide QuantityParts, Utf8.Encode, FrameAll, LeBytes, SameQuantities;
    var t := Domain.Ascii("UNIDPP/ROLLUP/LEAF|");
    assert LeafString(m)[|t|..] == LeafBytes(m) && LeafString(n)[|t|..] == LeafBytes(n);
    FrameAllInjective(LeafParts(m), LeafParts(n), 8);
    var ps, qs := LeafParts(m), LeafParts(n);
    assert ps[0] == qs[0] && ps[1] == qs[1] && ps[2] == qs[2];
    Utf8.EncodeInjective(m.passport, n.passport);
    LeInjective(m.version, n.version, 8);
    assert ps[3..] == QuantityParts(m.quantities) && qs[3..] == QuantityParts(n.quantities);
    QuantityPartsFix(m.quantities, n.quantities);
  }

  /** Members of different passports have different leaves. */
  lemma {:induction false} PassportInLeaf(m: TraversalMember, n: TraversalMember)
    requires LeafString(m) == LeafString(n)
    ensures m.passport == n.passport
  {
    hide QuantityParts, Utf8.Encode, LeBytes, Frame;
    var t := Domain.Ascii("UNIDPP/ROLLUP/LEAF|");
    assert LeafString(m)[|t|..] == LeafBytes(m) && LeafString(n)[|t|..] == LeafBytes(n);
    var ps, qs := LeafParts(m), LeafParts(n);
    PassportIsShort(m.passport);
    PassportIsShort(n.passport);
    FrameIsPrefixCode(ps[0], qs[0], FrameAll(ps[1..], 8), FrameAll(qs[1..], 8), 8);
    Utf8.EncodeInjective(m.passport, n.passport);
  }

  lemma {:induction false} PassportIsShort(p: PassportId)
    ensures |Utf8.Encode(p)| < Pow256(8)
  {
    PowersOf256();
    Utf8.EncodeAscii(p);
  }

  // ----- main results

  /** Every string hashed while the root is computed. */
  function HashedByRoot(sha: Sha, ms: Members): set<bytes>
    requires ms != []
  {
    Merkle.Hashed(OrderedScheme(sha), Merkle.TreeOf(LeafStrings(ms)))
  }

  /** Every string hashed while a member is checked. */
  function HashedByCheck(sha: Sha, m: TraversalMember, index: nat, proof: seq<Digest>): set<bytes> {
    {LeafString(m)} + Merkle.ClimbHashed(OrderedScheme(sha), sha(LeafString(m)), index, proof)
  }

  /** The size check passes once the path is at least as long as a tree over that many members is high. */
  lemma {:induction false} SizeReachesOne(n: nat, k: nat)
    ensures SizeAfter(n, k) == 1 <==> n >= 1 && k >= Merkle.Height(n)
    decreases k
  {
    if k > 0 {
      SizeAfterHalf(n, k - 1);
      SizeReachesOne(Merkle.Halve(n), k - 1);
    }
  }

  lemma {:induction false} SizeAfterHalf(n: nat, k: nat)
    ensures SizeAfter(n, k + 1) == SizeAfter(Merkle.Halve(n), k)
  {
    if k > 0 {
      SizeAfterHalf(n, k - 1);
    }
  }

  /** Complete: the proof of every member has the height of the tree and is accepted. */
  lemma {:induction false} ProofsAreAccepted(sha: Sha, ms: Members, index: nat)
    requires index < |ms|
    ensures var proof := Merkle.Path(OrderedScheme(sha), LeafDigests(sha, ms), index);
      |proof| == Merkle.Height(|ms|) && Included(sha, ms[index], index, |ms|, proof, RootOf(sha, ms))
  {
    hide LeafString, LeafDigests;
    Merkle.PathLeadsToRoot(OrderedScheme(sha), LeafDigests(sha, ms), index);
    SizeReachesOne(|ms|, Merkle.Height(|ms|));
  }

  /**
   Sound: whatever is accepted against the root of a set, with a proof of any length and a claimed set size of any
   value, is the leaf of the member that the index leads to; the proof is as long as the tree is high, and the
   claimed size makes no higher tree.
   */
  lemma {:induction false} AcceptedIsMember(
    sha: Sha, ms: Members, m: TraversalMember, index: nat, setSize: nat, proof: seq<Digest>)
    requires ms != [] && CollisionFree(sha, HashedByRoot(sha, ms) + HashedByCheck(sha, m, index, proof))
    ensures Included(sha, m, index, setSize, proof, RootOf(sha, ms)) ==>
              && LeafString(m) == LeafString(ms[Merkle.EffectiveIndex(|ms|, index)])
              && |proof| == Merkle.Height(|ms|)
              && setSize >= 1 && Merkle.Height(setSize) <= Merkle.Height(|ms|)
  {
    hide LeafString;
    if Included(sha, m, index, setSize, proof, RootOf(sha, ms)) {
      var s, x := OrderedScheme(sha), LeafString(m);
      SchemeJoinsInOrder(sha);
      LeafIsNoJoin(sha, m);
      LeavesAreNoJoins(sha, ms);
      assert HashedByRoot(sha, ms) + HashedByCheck(sha, m, index, proof) ==
             Merkle.Hashed(s, Merkle.TreeOf(LeafStrings(ms))) + {x} + Merkle.ClimbHashed(s, sha(x), index, proof);
      Merkle.ClimbToRoot(s, LeafStrings(ms), x, index, proof);
      SizeReachesOne(setSize, |proof|);
    }
  }

  /** And each such claim has a proof that is accepted. */
  lemma {:induction false} MemberIsAccepted(sha: Sha, ms: Members, m: TraversalMember, index: nat, setSize: nat)
    returns (proof: seq<Digest>)
    requires ms != [] && LeafString(m) == LeafString(ms[Merkle.EffectiveIndex(|ms|, index)])
    requires setSize >= 1 && Merkle.Height(setSize) <= Merkle.Height(|ms|)
    ensures Included(sha, m, index, setSize, proof, RootOf(sha, ms))
  {
    hide LeafString, LeafDigests;
    proof := Merkle.PathFromEffectiveIndex(OrderedScheme(sha), LeafDigests(sha, ms), index);
    SizeReachesOne(setSize, |proof|);
  }

  /** With an index within the set, nothing but that very member is accepted. */
  lemma {:induction false} OnlyThatMember(
    sha: Sha, ms: Members, m: TraversalMember, index: nat, setSize: nat, proof: seq<Digest>)
    requires index < |ms| && MemberFits(m) && MemberFits(ms[index])
    requires CollisionFree(sha, HashedByRoot(sha, ms) + HashedByCheck(sha, m, index, proof))
    ensures Included(sha, m, index, setSize, proof, RootOf(sha, ms)) ==> SameContent(m, ms[index])
  {
    hide LeafString, Included, MemberFits, SameContent;
    AcceptedIsMember(sha, ms, m, index, setSize, proof);
    Merkle.EffectiveIndexInRange(|ms|, index);
    if Included(sha, m, index, setSize, proof, RootOf(sha, ms)) {
      LeafFixesMember(m, ms[index]);
    }
  }

  /** The index is not checked against the set size: every index beyond the set is accepted for some member. */
  lemma {:induction false} IndexBeyondSetAccepted(sha: Sha, ms: Members, index: nat) returns (proof: seq<Digest>)
    requires ms != [] && index >= |ms|
    ensures var i := Merkle.EffectiveIndex(|ms|, index);
      i != index && Included(sha, ms[i], index, |ms|, proof, RootOf(sha, ms))
  {
    hide LeafString, Included;
    Merkle.EffectiveIndexInRange(|ms|, index);
    proof := MemberIsAccepted(sha, ms, ms[Merkle.EffectiveIndex(|ms|, index)], index, |ms|);
  }

  lemma {:induction false} DistinctLeaves(ms: Members)
    requires DistinctPassports(ms)
    ensures Merkle.Distinct(LeafStrings(ms))
  {
    hide LeafString;
    forall i, j | 0 <= i < j < |ms| ensures LeafStrings(ms)[i] != LeafStrings(ms)[j] {
      if LeafString(ms[i]) == LeafString(ms[j]) {
        PassportInLeaf(ms[i], ms[j]);
      }
    }
  }

  ghost predicate SameLeaves(ms: Members, ns: Members) {
    |ms| == |ns| && forall i :: 0 <= i < |ms| ==> LeafString(ms[i]) == LeafString(ns[i])
  }

  /** Sets made of any members, in any order, with one root have the same leaves: the root commits to length and content. */
  lemma {:induction false} RootFixesSet(sha: Sha, ms: Members, ns: Members)
    requires NewSet(ms).Ok? && NewSet(ns).Ok? && NewSet(ms).value != [] && NewSet(ns).value != []
    requires CollisionFree(sha, HashedByRoot(sha, NewSet(ms).value) + HashedByRoot(sha, NewSet(ns).value))
    ensures RootOf(sha, NewSet(ms).value) == RootOf(sha, NewSet(ns).value)
            <==> SameLeaves(NewSet(ms).value, NewSet(ns).value)
  {
    hide NewSet, LeafString, InStrictOrder, DistinctPassports, InOrder;
    var a, b := NewSet(ms).value, NewSet(ns).value;
    NewSetExactly(ms);
    NewSetExactly(ns);
    DistinctAnyOrder(ms, a);
    DistinctAnyOrder(ns, b);
    DistinctLeaves(a);
    DistinctLeaves(b);
    SchemeJoinsInOrder(sha);
    LeavesAreNoJoins(sha, a);
    LeavesAreNoJoins(sha, b);
    if RootOf(sha, a) == RootOf(sha, b) {
      Merkle.RootInjective(OrderedScheme(sha), LeafStrings(a), LeafStrings(b));
    }
    LeavesListed(a, b);
  }

  lemma {:induction false} LeavesListed(a: Members, b: Members)
    ensures LeafStrings(a) == LeafStrings(b) <==> SameLeaves(a, b)
  {
    hide LeafString;
    assert forall i :: 0 <= i < |a| ==> LeafString(a[i]) == LeafStrings(a)[i];
    assert forall i :: 0 <= i < |b| ==> LeafString(b[i]) == LeafStrings(b)[i];
  }
}
