/**
 Roll-up attestations: the aggregates over a traversal set, the signed body, and structural verification
 (crates/transform/src/rollup.rs).
 */
module Attestations {
  import opened Wrappers
  import opened ByteCodec
  import opened Hashing
  import opened Identifiers
  import opened OrderedMap
  import opened Quantities
  import opened RustInt
  import opened Rollups
  import opened Timestamps
  import opened Tokens
  import opened Digits
  import DecimalText
  import Decimals
  import Lexicographic
  import Utf8

  /** A label and its sum. */
  type AggregateValue = Entry<Quantity>

  datatype Attestation = Attestation(
    subject: PassportId,
    root: Digest,
    memberCount: nat,
    aggregates: seq<AggregateValue>,
    methodRef: string,
    attester: string,
    signedAt: Timestamp,
    signature: SigSlot)

  // ----- the labels of a set

  /** `BTreeSet::insert`. */
  function InsertKey(key: string, keys: seq<string>): seq<string> {
    if keys == [] || KeyBefore(key, keys[0]) then [key] + keys
    else if keys[0] == key then keys
    else [keys[0]] + InsertKey(key, keys[1..])
  }

  function ExtendKeys(keys: seq<string>, qs: seq<Entry<Quantity>>): seq<string>
    decreases |qs|
  {
    if qs == [] then keys else ExtendKeys(InsertKey(qs[0].key, keys), qs[1..])
  }

  function ExtendLabels(keys: seq<string>, ms: Members): seq<string>
    decreases |ms|
  {
    if ms == [] then keys else ExtendLabels(ExtendKeys(keys, ms[0].quantities), ms[1..])
  }

  /** The sorted set of every label that any member carries. */
  function LabelsOf(ms: Members): seq<string> {
    ExtendLabels([], ms)
  }

  ghost predicate KeysSorted(keys: seq<string>) {
    forall i, j :: 0 <= i < j < |keys| ==> KeyBefore(keys[i], keys[j])
  }

  ghost predicate KeyIn(qs: seq<Entry<Quantity>>, key: string) {
    exists i :: 0 <= i < |qs| && qs[i].key == key
  }

  ghost predicate Carries(m: TraversalMember, key: string) {
    KeyIn(m.quantities, key)
  }

  lemma {:induction false} KeyOrder(a: string, b: string)
    ensures a == b || KeyBefore(a, b) || KeyBefore(b, a)
    ensures !(a == b && KeyBefore(a, b)) && !(KeyBefore(a, b) && KeyBefore(b, a))
  {
    hide Utf8.Encode, Lexicographic.Le;
    var x, y := Utf8.Encode(a), Utf8.Encode(b);
    Lexicographic.LeTotal(x, y);
    if x == y {
      Utf8.EncodeInjective(a, b);
    }
    if Lexicographic.Le(x, y) && Lexicographic.Le(y, x) {
      Lexicographic.LeAntisymmetric(x, y);
    }
  }

  lemma {:induction false} KeyOrderTransitive(a: string, b: string, c: string)
    requires KeyBefore(a, b) && KeyBefore(b, c)
    ensures KeyBefore(a, c)
  {
    hide Utf8.Encode, Lexicographic.Lt;
    Lexicographic.LtTransitive(Utf8.Encode(a), Utf8.Encode(b), Utf8.Encode(c));
  }

  lemma {:induction false} InsertKeyKeeps(key: string, keys: seq<string>)
    requires KeysSorted(keys)
    ensures KeysSorted(InsertKey(key, keys))
    ensures forall k :: k in InsertKey(key, keys) <==> k == key || k in keys
    decreases |keys|
  {
    hide KeyBefore;
    if keys == [] {
    } else if KeyBefore(key, keys[0]) {
      forall j | 0 <= j < |keys| ensures KeyBefore(key, keys[j]) {
        if j > 0 {
          KeyOrderTransitive(key, keys[0], keys[j]);
        }
      }
    } else if keys[0] != key {
      KeyOrder(key, keys[0]);
      InsertKeyKeeps(key, keys[1..]);
      var rest := InsertKey(key, keys[1..]);
      forall j | 0 <= j < |rest| ensures KeyBefore(keys[0], rest[j]) {
        assert rest[j] in rest;
        if rest[j] != key {
          KeyIsLater(keys, rest[j]);
        }
      }
    }
  }

  lemma {:induction false} KeyIsLater(keys: seq<string>, k: string)
    requires KeysSorted(keys) && keys != [] && k in keys[1..]
    ensures KeyBefore(keys[0], k)
  {
    hide KeyBefore;
    var i :| 0 <= i < |keys[1..]| && keys[1..][i] == k;
    assert keys[i + 1] == k;
  }

  lemma {:induction false} ExtendKeysKeeps(keys: seq<string>, qs: seq<Entry<Quantity>>)
    requires KeysSorted(keys)
    ensures KeysSorted(ExtendKeys(keys, qs))
    ensures forall k :: k in ExtendKeys(keys, qs) <==> k in keys || KeyIn(qs, k)
    decreases |qs|
  {
    hide InsertKey, KeysSorted, KeyIn;
    if qs == [] {
      NoKeyInNothing();
    } else {
      InsertKeyKeeps(qs[0].key, keys);
      ExtendKeysKeeps(InsertKey(qs[0].key, keys), qs[1..]);
      forall k ensures KeyIn(qs, k) <==> qs[0].key == k || KeyIn(qs[1..], k) {
        KeyInFirstOrRest(qs, k);
      }
    }
  }

  lemma {:induction false} NoKeyInNothing()
    ensures forall k :: !KeyIn([], k)
  {}

  lemma {:induction false} KeyInFirstOrRest(qs: seq<Entry<Quantity>>, k: string)
    requires qs != []
    ensures KeyIn(qs, k) <==> qs[0].key == k || KeyIn(qs[1..], k)
  {
    if KeyIn(qs, k) && qs[0].key != k {
      var i :| 0 <= i < |qs| && qs[i].key == k;
      assert qs[1..][i - 1].key == k;
    }
    if KeyIn(qs[1..], k) {
      var i :| 0 <= i < |qs[1..]| && qs[1..][i].key == k;
      assert qs[i + 1].key == k;
    }
  }

  ghost predicate SomeCarries(ms: Members, key: string) {
    exists i :: 0 <= i < |ms| && Carries(ms[i], key)
  }

  lemma {:induction false} ExtendLabelsKeeps(keys: seq<string>, ms: Members)
    requires KeysSorted(keys)
    ensures KeysSorted(ExtendLabels(keys, ms))
    ensures forall k :: k in ExtendLabels(keys, ms) <==> k in keys || SomeCarries(ms, k)
    decreases |ms|
  {
    hide ExtendKeys, KeysSorted, KeyIn;
    if ms != [] {
      ExtendKeysKeeps(keys, ms[0].quantities);
      ExtendLabelsKeeps(ExtendKeys(keys, ms[0].quantities), ms[1..]);
      forall k ensures SomeCarries(ms, k) <==> Carries(ms[0], k) || SomeCarries(ms[1..], k) {
        CarriedByFirstOrRest(ms, k);
      }
    }
  }

  lemma {:induction false} CarriedByFirstOrRest(ms: Members, k: string)
    requires ms != []
    ensures SomeCarries(ms, k) <==> Carries(ms[0], k) || SomeCarries(ms[1..], k)
  {
    hide Carries;
    if SomeCarries(ms, k) && !Carries(ms[0], k) {
      var i :| 0 <= i < |ms| && Carries(ms[i], k);
      assert Carries(ms[1..][i - 1], k);
    }
    if SomeCarries(ms[1..], k) {
      var i :| 0 <= i < |ms[1..]| && Carries(ms[1..][i], k);
      assert Carries(ms[i + 1], k);
    }
  }

  /** Each label of the set once, in order, and no other. */
  lemma {:induction false} LabelsExactly(ms: Members)
    ensures KeysSorted(LabelsOf(ms))
    ensures forall k :: k in LabelsOf(ms) <==> SomeCarries(ms, k)
  {
    hide ExtendLabels, SomeCarries;
    ExtendLabelsKeeps([], ms);
  }

  lemma {:induction false} CarriesIffFound(m: TraversalMember, key: string)
    ensures Carries(m, key) <==> Get(m.quantities, key).Some?
  {}

  // ----- aggregation

  /** The total over the members still to come. */
  function TotalFrom(total: Option<Quantity>, ms: Members, key: string, reg: Registry)
    : Result<Option<Quantity>, TransformError>
    decreases |ms|
  {
    if ms == [] then Ok(total) else
      match Get(ms[0].quantities, key)
      case None => TotalFrom(total, ms[1..], key, reg)
      case Some(q) =>
        if total.None? then TotalFrom(Some(q), ms[1..], key, reg) else
          var next := AddQuantities(total.value, q, reg);
          if next.Err? then Err(next.error) else TotalFrom(Some(next.value), ms[1..], key, reg)
  }

  /** The aggregates of the labels still to come. */
  function AggregatesFrom(out: seq<AggregateValue>, keys: seq<string>, ms: Members, reg: Registry)
    : Result<seq<AggregateValue>, TransformError>
    decreases |keys|
  {
    if keys == [] then Ok(out) else
      var total := TotalFrom(None, ms, keys[0], reg);
      if total.Err? then Err(total.error)
      else if total.value.None? then Err(TransformError.Provenance(keys[0]))
      else AggregatesFrom(out + [Entry(keys[0], total.value.value)], keys[1..], ms, reg)
  }

  function AggregateSet(ms: Members, reg: Registry): Result<seq<AggregateValue>, TransformError> {
    AggregatesFrom([], LabelsOf(ms), ms, reg)
  }

  method Labels(ms: Members) returns (keys: seq<string>)
    ensures keys == LabelsOf(ms)
  {
    hide InsertKey;
    keys := [];
    for i := 0 to |ms|
      invariant ExtendLabels(keys, ms[i..]) == LabelsOf(ms)
    {
      assert ms[i..][1..] == ms[i + 1..];
      var qs := ms[i].quantities;
      ghost var before := keys;
      for j := 0 to |qs|
        invariant ExtendKeys(keys, qs[j..]) == ExtendKeys(before, qs)
      {
        assert qs[j..][1..] == qs[j + 1..];
        keys := InsertKey(qs[j].key, keys);
      }
    }
  }

  method Aggregate(ms: Members, reg: Registry) returns (r: Result<seq<AggregateValue>, TransformError>)
    ensures r == AggregateSet(ms, reg)
  {
    hide TotalFrom, LabelsOf;
    var keys := Labels(ms);
    var out: seq<AggregateValue> := [];
    for i := 0 to |keys|
      invariant AggregatesFrom(out, keys[i..], ms, reg) == AggregateSet(ms, reg)
    {
      assert keys[i..][1..] == keys[i + 1..];
      var total := TotalOf(ms, keys[i], reg);
      if total.Err? {
        return Err(total.error);
      }
      if total.value.None? {
        return Err(TransformError.Provenance(keys[i]));
      }
      out := out + [Entry(keys[i], total.value.value)];
    }
    return Ok(out);
  }

  method TotalOf(ms: Members, key: string, reg: Registry) returns (r: Result<Option<Quantity>, TransformError>)
    ensures r == TotalFrom(None, ms, key, reg)
  {
    hide AddQuantities, Get;
    var total: Option<Quantity> := None;
    for i := 0 to |ms|
      invariant TotalFrom(total, ms[i..], key, reg) == TotalFrom(None, ms, key, reg)
    {
      assert ms[i..][1..] == ms[i + 1..];
      var q := Get(ms[i].quantities, key);
      if q.Some? {
        if total.None? {
          total := q;
        } else {
          var next := AddQuantities(total.value, q.value, reg);
          if next.Err? {
            return Err(next.error);
          }
          total := Some(next.value);
        }
      }
    }
    return Ok(total);
  }

  /** The quantities the members carry under a label, in the order of the set. */
  function Contributions(ms: Members, key: string): seq<Quantity> {
    if ms == [] then [] else
      match Get(ms[0].quantities, key)
      case None => Contributions(ms[1..], key)
      case Some(q) => [q] + Contributions(ms[1..], key)
  }

  lemma {:induction false} TotalIsSum(acc: Quantity, ms: Members, key: string, reg: Registry)
    ensures var r := TotalFrom(Some(acc), ms, key, reg);
      var s := SumQuantitiesFrom(acc, Contributions(ms, key), reg);
      r.Ok? == s.Ok? && (r.Ok? ==> r.value == Some(s.value)) && (r.Err? ==> r.error == s.error)
    decreases |ms|
  {
    hide AddQuantities, Get;
    if ms != [] {
      match Get(ms[0].quantities, key)
      case None => TotalIsSum(acc, ms[1..], key, reg);
      case Some(q) =>
        assert ([q] + Contributions(ms[1..], key))[1..] == Contributions(ms[1..], key);
        var next := AddQuantities(acc, q, reg);
        if next.Ok? {
          TotalIsSum(next.value, ms[1..], key, reg);
        }
    }
  }

  /** The loop with an optional total is the sum of the contributions. */
  lemma {:induction false} TotalIsSumOfContributions(ms: Members, key: string, reg: Registry)
    ensures var r := TotalFrom(None, ms, key, reg);
      var qs := Contributions(ms, key);
      if qs == [] then r == Ok(None) else
        var s := SumQuantities(qs, reg);
        r.Ok? == s.Ok? && (r.Ok? ==> r.value == Some(s.value)) && (r.Err? ==> r.error == s.error)
    decreases |ms|
  {
    hide AddQuantities, Get, SumQuantitiesFrom;
    if ms != [] {
      match Get(ms[0].quantities, key)
      case None => TotalIsSumOfContributions(ms[1..], key, reg);
      case Some(q) =>
        assert ([q] + Contributions(ms[1..], key))[1..] == Contributions(ms[1..], key);
        TotalIsSum(q, ms[1..], key, reg);
    }
  }

  lemma {:induction false} ContributesIffCarried(ms: Members, key: string)
    ensures Contributions(ms, key) != [] <==> SomeCarries(ms, key)
    decreases |ms|
  {
    hide Get, Carries;
    if ms != [] {
      CarriesIffFound(ms[0], key);
      CarriedByFirstOrRest(ms, key);
      ContributesIffCarried(ms[1..], key);
    }
  }

  /**
   An aggregate as it should be: the exact sum of all that the set carries under its label, in the unit of the first. One
   contribution is the sum as it stands, whether its unit is registered or not; several are of one dimension.
   */
  ghost predicate IsExactSum(a: AggregateValue, ms: Members, reg: Registry) {
    var qs := Contributions(ms, a.key);
    && qs != [] && a.value.unit == qs[0].unit && Canon(a.value, reg) == TotalCanon(qs, reg)
    && (|qs| == 1 ==> Decimals.Value(a.value.amount) == Decimals.Value(qs[0].amount))
    && (|qs| >= 2 ==> forall i :: 0 <= i < |qs| ==> Commensurable(qs[i], qs[0], reg))
  }

  /** The computed aggregate: a single contribution is returned unchanged. */
  ghost predicate IsTheSum(a: AggregateValue, ms: Members, reg: Registry) {
    var qs := Contributions(ms, a.key);
    IsExactSum(a, ms, reg) && (|qs| == 1 ==> a.value == qs[0])
  }

  lemma {:induction false} AggregatesFromExactly(out: seq<AggregateValue>, keys: seq<string>, ms: Members, reg: Registry)
    requires WellFormed(reg) && forall i :: 0 <= i < |keys| ==> SomeCarries(ms, keys[i])
    ensures var r := AggregatesFrom(out, keys, ms, reg);
      r.Ok? ==>
        && |r.value| == |out| + |keys| && out <= r.value
        && forall j :: |out| <= j < |r.value| ==> r.value[j].key == keys[j - |out|] && IsTheSum(r.value[j], ms, reg)
    decreases |keys|
  {
    hide TotalFrom, SomeCarries, Contributions, Canon, TotalCanon, WellFormed, SumQuantities;
    if keys != [] {
      TotalIsSumOfContributions(ms, keys[0], reg);
      ContributesIffCarried(ms, keys[0]);
      var total := TotalFrom(None, ms, keys[0], reg);
      if total.Ok? {
        SumQuantitiesExact(Contributions(ms, keys[0]), reg);
        var a := Entry(keys[0], total.value.value);
        assert IsTheSum(a, ms, reg);
        hide IsTheSum, IsExactSum;
        AggregatesFromExactly(out + [a], keys[1..], ms, reg);
        var r := AggregatesFrom(out + [a], keys[1..], ms, reg);
        if r.Ok? {
          assert r.value[|out|] == (out + [a])[|out|] == a;
          forall j | |out| <= j < |r.value|
            ensures r.value[j].key == keys[j - |out|] && IsTheSum(r.value[j], ms, reg)
          {
            if j > |out| {
              assert keys[j - |out|] == keys[1..][j - |out + [a]|];
            }
          }
        }
      }
    }
  }

  /** One aggregate for each label of the set, each the exact sum over the set. */
  lemma {:induction false} AggregatesAreExact(ms: Members, reg: Registry)
    requires WellFormed(reg) && AggregateSet(ms, reg).Ok?
    ensures var sums := AggregateSet(ms, reg).value;
      && |sums| == |LabelsOf(ms)|
      && forall i :: 0 <= i < |sums| ==> sums[i].key == LabelsOf(ms)[i] && IsTheSum(sums[i], ms, reg)
  {
    hide *;
    LabelsAreCarried(ms);
    AggregatesFromExactly([], LabelsOf(ms), ms, reg);
    AggregatesFromNothing(ms, reg);
    var sums := AggregateSet(ms, reg).value;
    forall i | 0 <= i < |sums| ensures sums[i].key == LabelsOf(ms)[i] && IsTheSum(sums[i], ms, reg) {
    }
  }

  lemma {:induction false} AggregatesFromNothing(ms: Members, reg: Registry)
    ensures AggregateSet(ms, reg) == AggregatesFrom([], LabelsOf(ms), ms, reg)
  {}

  lemma {:induction false} LabelsAreCarried(ms: Members)
    ensures forall i :: 0 <= i < |LabelsOf(ms)| ==> SomeCarries(ms, LabelsOf(ms)[i])
  {
    hide LabelsOf, SomeCarries, KeysSorted;
    LabelsExactly(ms);
    assert forall i :: 0 <= i < |LabelsOf(ms)| ==> LabelsOf(ms)[i] in LabelsOf(ms);
  }

  lemma {:induction false} AggregatesFromSucceeds(out: seq<AggregateValue>, keys: seq<string>, ms: Members, reg: Registry)
    requires forall i :: 0 <= i < |keys| ==> SomeCarries(ms, keys[i])
    ensures AggregatesFrom(out, keys, ms, reg).Ok? <==>
            forall i :: 0 <= i < |keys| ==> CanSum(Contributions(ms, keys[i]), reg)
    decreases |keys|
  {
    hide TotalFrom, SomeCarries, Contributions, SumQuantities, CanSum;
    if keys != [] {
      TotalIsSumOfContributions(ms, keys[0], reg);
      ContributesIffCarried(ms, keys[0]);
      SumSucceedsExactly(Contributions(ms, keys[0]), reg);
      var total := TotalFrom(None, ms, keys[0], reg);
      if total.Ok? {
        AggregatesFromSucceeds(out + [Entry(keys[0], total.value.value)], keys[1..], ms, reg);
        assert forall i :: 1 <= i < |keys| ==> keys[i] == keys[1..][i - 1];
      }
    }
  }

  /** When a set can be aggregated: under every label, what the members carry can be added up in the order of the set. */
  lemma {:induction false} AggregateSucceedsExactly(ms: Members, reg: Registry)
    ensures AggregateSet(ms, reg).Ok? <==>
            forall key :: key in LabelsOf(ms) ==> CanSum(Contributions(ms, key), reg)
  {
    hide *;
    LabelsAreCarried(ms);
    AggregatesFromNothing(ms, reg);
    AggregatesFromSucceeds([], LabelsOf(ms), ms, reg);
  }

  /** A label never vanishes during aggregation: summing fails only where the arithmetic does. */
  lemma {:induction false} NoLabelVanishes(ms: Members, key: string, reg: Registry)
    requires key in LabelsOf(ms)
    ensures TotalFrom(None, ms, key, reg) != Ok(None)
  {
    hide TotalFrom, LabelsOf, SomeCarries, KeysSorted, SumQuantities;
    LabelsExactly(ms);
    ContributesIffCarried(ms, key);
    TotalIsSumOfContributions(ms, key, reg);
  }

  // ----- the signed body

  function BodyParts(a: Attestation): seq<bytes> {
    [Utf8.Encode(a.subject), a.root, LeBytes(a.memberCount, 8)] + QuantityParts(a.aggregates)
    + [Utf8.Encode(a.methodRef), Utf8.Encode(a.attester), Utf8.Encode(Print(a.signedAt))]
  }

  function CanonicalBody(a: Attestation): bytes {
    FrameAll(BodyParts(a), 8)
  }

  method WriteBody(a: Attestation) returns (r: Result<bytes, Decimals.ModelError>)
    ensures r == if CanPrint(a.aggregates) then Ok(CanonicalBody(a)) else Err(Decimals.ArithmeticPanic)
  {
    hide Frame, FrameAll, Utf8.Encode, Print, LeBytes, QuantityParts, CanPrint;
    ghost var tail := [Utf8.Encode(a.methodRef), Utf8.Encode(a.attester), Utf8.Encode(Print(a.signedAt))];
    ghost var middle := QuantityParts(a.aggregates);
    BodyFrames(Utf8.Encode(a.subject), a.root, LeBytes(a.memberCount, 8), middle, tail[0], tail[1], tail[2]);
    var buf := Frame(Utf8.Encode(a.subject), 8);
    buf := buf + Frame(a.root, 8);
    buf := buf + Frame(LeBytes(a.memberCount, 8), 8);
    buf :- WriteQuantities(buf, a.aggregates);
    buf := buf + Frame(Utf8.Encode(a.methodRef), 8);
    buf := buf + Frame(Utf8.Encode(a.attester), 8);
    buf := buf + Frame(Utf8.Encode(Print(a.signedAt)), 8);
    return Ok(buf);
  }

  lemma {:induction false} BodyFrames(a: bytes, b: bytes, c: bytes, middle: seq<bytes>, x: bytes, y: bytes, z: bytes)
    ensures FrameAll([a, b, c] + middle + [x, y, z], 8)
            == Frame(a, 8) + Frame(b, 8) + Frame(c, 8) + FrameAll(middle, 8) + Frame(x, 8) + Frame(y, 8) + Frame(z, 8)
  {
    hide Frame, FrameAll;
    FrameAllAppend([a, b, c] + middle, [x, y, z], 8);
    FramesOfFour(a, b, c, middle);
    FramesOfThree(x, y, z);
    var head, f, g, h := FrameAll([a, b, c] + middle, 8), Frame(x, 8), Frame(y, 8), Frame(z, 8);
    Assoc(head, f + g, h);
    Assoc(head, f, g);
  }

  lemma {:induction false} FramesOfThree(x: bytes, y: bytes, z: bytes)
    ensures FrameAll([x, y, z], 8) == Frame(x, 8) + Frame(y, 8) + Frame(z, 8)
  {
    hide Frame;
    FramesOfFour(x, y, z, []);
    assert [x, y, z] + [] == [x, y, z];
    var all := Frame(x, 8) + Frame(y, 8) + Frame(z, 8);
    assert all + [] == all;
  }

  ghost predicate BodyFits(a: Attestation) {
    a.memberCount < Pow256(8) && Fits(BodyParts(a), 8)
  }

  /** The signed body tells attestations apart by every field it renders. */
  lemma {:induction false} BodyFixesAttestation(a: Attestation, b: Attestation)
    requires BodyFits(a) && BodyFits(b) && CanonicalBody(a) == CanonicalBody(b)
    ensures a.subject == b.subject && a.root == b.root && a.memberCount == b.memberCount
    ensures SameQuantities(a.aggregates, b.aggregates)
    ensures a.methodRef == b.methodRef && a.attester == b.attester && Print(a.signedAt) == Print(b.signedAt)
    ensures a.signedAt.nanos < 1_000_000_000 && b.signedAt.nanos < 1_000_000_000 ==> a.signedAt == b.signedAt
  {
    hide Utf8.Encode, Print, LeBytes, QuantityParts, FrameAll, SameQuantities;
    FrameAllInjective(BodyParts(a), BodyParts(b), 8);
    var ps, qs := BodyParts(a), BodyParts(b);
    var n := 3 * |a.aggregates|;
    assert |ps| == n + 6 && |qs| == 3 * |b.aggregates| + 6;
    assert ps[0] == qs[0] && ps[1] == qs[1] && ps[2] == qs[2];
    assert ps[3..n + 3] == QuantityParts(a.aggregates) && qs[3..n + 3] == QuantityParts(b.aggregates);
    assert ps[n + 3] == qs[n + 3] && ps[n + 4] == qs[n + 4] && ps[n + 5] == qs[n + 5];
    Utf8.EncodeInjective(a.subject, b.subject);
    LeInjective(a.memberCount, b.memberCount, 8);
    QuantityPartsFix(a.aggregates, b.aggregates);
    Utf8.EncodeInjective(a.methodRef, b.methodRef);
    Utf8.EncodeInjective(a.attester, b.attester);
    Utf8.EncodeInjective(Print(a.signedAt), Print(b.signedAt));
    if a.signedAt.nanos < 1_000_000_000 && b.signedAt.nanos < 1_000_000_000 {
      PrintInjective(a.signedAt, b.signedAt);
    }
  }

  // ----- building and verifying

  function Placeholder(): SigSlot {
    SigSlot(EcdsaP256, "unassigned", None)
  }

  /** `build`; the clock is a parameter. Leaves and body are printed, which fails for the least i128. */
  function Build(
    sha: Sha, subject: PassportId, ms: Members, methodRef: string, attester: string, reg: Registry, now: Timestamp)
    : Result<(Attestation, bytes), TransformError>
    requires ms != []
  {
    if DecimalText.Trim(methodRef) == "" || DecimalText.Trim(attester) == "" then Err(Empty) else
      var aggregates := AggregateSet(ms, reg);
      if aggregates.Err? then Err(aggregates.error)
      else if !CanPrintAll(ms) || !CanPrint(aggregates.value) then Err(Model(Decimals.ArithmeticPanic))
      else
        var a := Attestation(subject, RootOf(sha, ms), |ms|, aggregates.value, DecimalText.Trim(methodRef),
                             DecimalText.Trim(attester), now, Placeholder());
        Ok((a, CanonicalBody(a)))
  }

  /** What is shown for the computed side: a text, or the message of an error. */
  datatype Shown = Plain(text: string) | Message(error: TransformError)

  /** A mismatch with what was attested and what was computed. */
  datatype Mismatch = Mismatch(about: string, attested: string, computed: Shown)

  datatype Verdict =
    | Verified
    | RootMismatch
    | MemberCountMismatch(attested: nat, actual: nat)
    | AggregateMismatch(mismatch: Mismatch)
    | SignatureRejected(why: string)

  /** `==` on quantities: by value, then by unit. Comparing the smallest mantissa panics. */
  function EqualQuantities(a: Quantity, b: Quantity): Result<bool, Decimals.ModelError> {
    var order :- Decimals.CmpValue(a.amount, b.amount);
    Ok(order == Equal && a.unit == b.unit)
  }

  /** The zipped loop: the first mismatch, if any. */
  function FirstMismatch(attested: seq<AggregateValue>, computed: seq<AggregateValue>)
    : Result<Option<Mismatch>, Decimals.ModelError>
    decreases |attested|
  {
    if attested == [] || computed == [] then Ok(None)
    else if attested[0].key != computed[0].key then
      Ok(Some(Mismatch(attested[0].key, attested[0].key, Plain(computed[0].key))))
    else
      var same :- EqualQuantities(attested[0].value, computed[0].value);
      if same then FirstMismatch(attested[1..], computed[1..])
      else if attested[0].value.amount.mant == I128_MIN || computed[0].value.amount.mant == I128_MIN then
        Err(Decimals.ArithmeticPanic)
      else
        var texts := (DecimalText.Print(attested[0].value.amount), DecimalText.Print(computed[0].value.amount));
        Ok(Some(Mismatch(attested[0].key, texts.0, Plain(texts.1))))
  }

  type SignatureCheck = (SigSlot, bytes) -> Option<string>

  function RollupVerdict(sha: Sha, a: Attestation, ms: Members, reg: Registry, check: SignatureCheck)
    : Result<Verdict, Decimals.ModelError>
    requires ms != []
  {
    if !CanPrintAll(ms) then Err(Decimals.ArithmeticPanic)
    else if a.root != RootOf(sha, ms) then Ok(RootMismatch)
    else if a.memberCount != |ms| then Ok(MemberCountMismatch(a.memberCount, |ms|))
    else
      var computed := AggregateSet(ms, reg);
      if computed == Err(Model(Decimals.ArithmeticPanic)) then Err(Decimals.ArithmeticPanic)
      else if computed.Err? then Ok(AggregateMismatch(Mismatch("*", "n/a", Message(computed.error))))
      else if |a.aggregates| != |computed.value| then
        Ok(AggregateMismatch(Mismatch("*", ToText(|a.aggregates|), Plain(ToText(|computed.value|)))))
      else
        var mismatch :- FirstMismatch(a.aggregates, computed.value);
        if mismatch.Some? then Ok(AggregateMismatch(mismatch.value))
        else if !CanPrint(a.aggregates) then Err(Decimals.ArithmeticPanic)
        else
          match check(a.signature, CanonicalBody(a))
          case Some(why) => Ok(SignatureRejected(why))
          case None => Ok(Verified)
  }

  method VerifyRollup(sha: Sha, a: Attestation, ms: Members, reg: Registry, check: SignatureCheck)
    returns (r: Result<Verdict, Decimals.ModelError>)
    requires ms != []
    ensures r == RollupVerdict(sha, a, ms, reg, check)
  {
    hide CanonicalBody, AggregateSet, EqualQuantities, RootOf, DecimalText.Print, ToText, CanPrint, CanPrintAll;
    var root :- Root(sha, ms);
    if a.root != root {
      return Ok(RootMismatch);
    }
    if a.memberCount != |ms| {
      return Ok(MemberCountMismatch(a.memberCount, |ms|));
    }
    var computed := Aggregate(ms, reg);
    if computed == Err(Model(Decimals.ArithmeticPanic)) {
      return Err(Decimals.ArithmeticPanic);
    }
    if computed.Err? {
      return Ok(AggregateMismatch(Mismatch("*", "n/a", Message(computed.error))));
    }
    if |a.aggregates| != |computed.value| {
      return Ok(AggregateMismatch(Mismatch("*", ToText(|a.aggregates|), Plain(ToText(|computed.value|)))));
    }
    var wanted := computed.value;
    for i := 0 to |wanted|
      invariant FirstMismatch(a.aggregates[i..], wanted[i..]) == FirstMismatch(a.aggregates, wanted)
    {
      assert a.aggregates[i..][1..] == a.aggregates[i + 1..] && wanted[i..][1..] == wanted[i + 1..];
      var attested, want := a.aggregates[i], wanted[i];
      if attested.key != want.key {
        return Ok(AggregateMismatch(Mismatch(attested.key, attested.key, Plain(want.key))));
      }
      var same :- EqualQuantities(attested.value, want.value);
      if !same {
        var left :- DecimalText.Display(attested.value.amount);
        var right :- DecimalText.Display(want.value.amount);
        return Ok(AggregateMismatch(Mismatch(attested.key, left, Plain(right))));
      }
    }
    var body :- WriteBody(a);
    match check(a.signature, body)
    case Some(why) => return Ok(SignatureRejected(why));
    case None => return Ok(Verified);
  }

  // ----- main results

  /** The attested aggregate is the computed one: same label, same value, same unit. */
  ghost predicate Agrees(a: AggregateValue, b: AggregateValue) {
    && a.key == b.key && a.value.unit == b.value.unit
    && Decimals.Value(a.value.amount) == Decimals.Value(b.value.amount)
    && Decimals.Comparable(a.value.amount, b.value.amount)
  }

  lemma {:induction false} EqualIsAgreement(a: AggregateValue, b: AggregateValue)
    requires a.key == b.key
    ensures EqualQuantities(a.value, b.value) == Ok(true) <==> Agrees(a, b)
  {
    hide Decimals.Value, Decimals.CmpValue;
    Decimals.CmpValueIsNumeric(a.value.amount, b.value.amount);
  }

  lemma {:induction false} NoMismatchIsAgreement(attested: seq<AggregateValue>, computed: seq<AggregateValue>)
    requires |attested| == |computed|
    ensures FirstMismatch(attested, computed) == Ok(None)
            <==> forall i :: 0 <= i < |attested| ==> Agrees(attested[i], computed[i])
    decreases |attested|
  {
    hide EqualQuantities, Agrees;
    if attested != [] {
      NoMismatchIsAgreement(attested[1..], computed[1..]);
      AgreeFirstAndRest(attested, computed);
      if attested[0].key == computed[0].key {
        EqualIsAgreement(attested[0], computed[0]);
      } else {
        AgreeingKeys(attested[0], computed[0]);
      }
    }
  }

  lemma {:induction false} AgreeingKeys(a: AggregateValue, b: AggregateValue)
    ensures Agrees(a, b) ==> a.key == b.key
  {}

  lemma {:induction false} AgreeFirstAndRest(xs: seq<AggregateValue>, ys: seq<AggregateValue>)
    requires |xs| == |ys| && xs != []
    ensures (forall i :: 0 <= i < |xs| ==> Agrees(xs[i], ys[i]))
            <==> Agrees(xs[0], ys[0]) && forall i :: 0 <= i < |xs[1..]| ==> Agrees(xs[1..][i], ys[1..][i])
  {
    hide Agrees;
    assert forall i :: 1 <= i < |xs| ==> xs[i] == xs[1..][i - 1] && ys[i] == ys[1..][i - 1];
  }

  /** Verified means: root, count, every aggregate and the signature over the body all hold, and nothing less. */
  lemma {:induction false} VerifiedExactly(sha: Sha, a: Attestation, ms: Members, reg: Registry, check: SignatureCheck)
    requires ms != []
    ensures RollupVerdict(sha, a, ms, reg, check) == Ok(Verified) <==>
            && CanPrintAll(ms) && a.root == RootOf(sha, ms) && a.memberCount == |ms|
            && AggregateSet(ms, reg).Ok? && |a.aggregates| == |AggregateSet(ms, reg).value|
            && (forall i :: 0 <= i < |a.aggregates| ==> Agrees(a.aggregates[i], AggregateSet(ms, reg).value[i]))
            && check(a.signature, CanonicalBody(a)) == None
  {
    hide RootOf, AggregateSet, FirstMismatch, Agrees, CanonicalBody, CanPrint, CanPrintAll;
    var computed := AggregateSet(ms, reg);
    if computed.Ok? && |a.aggregates| == |computed.value| {
      NoMismatchIsAgreement(a.aggregates, computed.value);
      AgreeingCanPrint(a.aggregates, computed.value);
    }
  }

  /** These are shown as the first mismatch: two labels, or two amounts under one label. */
  ghost predicate ShownAs(m: Mismatch, a: AggregateValue, b: AggregateValue) {
    if a.key != b.key then m == Mismatch(a.key, a.key, Plain(b.key))
    else
      && (Decimals.Value(a.value.amount) != Decimals.Value(b.value.amount) || a.value.unit != b.value.unit)
      && HasText(a.value.amount) && HasText(b.value.amount)
      && m == Mismatch(a.key, DecimalText.Print(a.value.amount), Plain(DecimalText.Print(b.value.amount)))
  }

  ghost predicate HasText(d: Decimals.Decimal) {
    d.mant != I128_MIN
  }

  /** All before place i agree, and what is at place i is shown. */
  ghost predicate FirstShown(m: Mismatch, attested: seq<AggregateValue>, computed: seq<AggregateValue>, i: nat) {
    && i < |attested| && i < |computed| && ShownAs(m, attested[i], computed[i])
    && forall j :: 0 <= j < i ==> Agrees(attested[j], computed[j])
  }

  lemma {:induction false} UnequalIsShown(m: Mismatch, a: AggregateValue, b: AggregateValue)
    requires a.key == b.key
    ensures ShownAs(m, a, b) ==> EqualQuantities(a.value, b.value) == Ok(false)
    ensures EqualQuantities(a.value, b.value) == Ok(false) && HasText(a.value.amount) && HasText(b.value.amount) ==>
              ShownAs(Mismatch(a.key, DecimalText.Print(a.value.amount), Plain(DecimalText.Print(b.value.amount))), a, b)
  {
    hide Decimals.Value, Decimals.CmpValue, DecimalText.Print;
    Decimals.CmpValueIsNumeric(a.value.amount, b.value.amount);
  }

  lemma {:induction false} ShownIsFirst(m: Mismatch, attested: seq<AggregateValue>, computed: seq<AggregateValue>)
    ensures FirstMismatch(attested, computed) == Ok(Some(m)) <==> exists i: nat :: FirstShown(m, attested, computed, i)
    decreases |attested|
  {
    hide EqualQuantities, Agrees, ShownAs;
    if attested != [] && computed != [] {
      var x, y := attested[0], computed[0];
      ShownIsFirst(m, attested[1..], computed[1..]);
      if x.key != y.key {
        DifferentLabels(m, x, y);
        AgreeingKeys(x, y);
        if FirstMismatch(attested, computed) == Ok(Some(m)) {
          assert FirstShown(m, attested, computed, 0);
        }
      } else {
        EqualIsAgreement(x, y);
        UnequalIsShown(m, x, y);
        ShownAmounts(m, x, y);
        if EqualQuantities(x.value, y.value) == Ok(true) {
          ShownBehindFirst(m, attested, computed);
        } else if FirstMismatch(attested, computed) == Ok(Some(m)) {
          assert FirstShown(m, attested, computed, 0);
        }
      }
    }
  }

  lemma {:induction false} DifferentLabels(m: Mismatch, a: AggregateValue, b: AggregateValue)
    requires a.key != b.key
    ensures ShownAs(m, a, b) <==> m == Mismatch(a.key, a.key, Plain(b.key))
  {}

  lemma {:induction false} ShownAmounts(m: Mismatch, a: AggregateValue, b: AggregateValue)
    requires a.key == b.key
    ensures ShownAs(m, a, b) ==>
              && HasText(a.value.amount) && HasText(b.value.amount)
              && m == Mismatch(a.key, DecimalText.Print(a.value.amount), Plain(DecimalText.Print(b.value.amount)))
  {}

  lemma {:induction false} ShownBehindFirst(m: Mismatch, attested: seq<AggregateValue>, computed: seq<AggregateValue>)
    requires attested != [] && computed != [] && Agrees(attested[0], computed[0]) && !ShownAs(m, attested[0], computed[0])
    ensures (exists i: nat :: FirstShown(m, attested, computed, i))
            <==> exists i: nat :: FirstShown(m, attested[1..], computed[1..], i)
  {
    hide Agrees, ShownAs;
    var xs, ys := attested[1..], computed[1..];
    if i: nat :| FirstShown(m, attested, computed, i) {
      assert i > 0;
      assert forall j :: 0 <= j < i - 1 ==> xs[j] == attested[j + 1] && ys[j] == computed[j + 1];
      assert FirstShown(m, xs, ys, i - 1);
    }
    if i: nat :| FirstShown(m, xs, ys, i) {
      assert forall j :: 1 <= j <= i + 1 && j < |attested| && j < |computed| ==>
          attested[j] == xs[j - 1] && computed[j] == ys[j - 1];
      assert FirstShown(m, attested, computed, i + 1);
    }
  }

  /** Root and member count hold. */
  ghost predicate SetHolds(sha: Sha, a: Attestation, ms: Members)
    requires ms != []
  {
    CanPrintAll(ms) && a.root == RootOf(sha, ms) && a.memberCount == |ms|
  }

  /** An aggregate mismatch is about the whole, or it is the first place at which attested and computed do not agree. */
  ghost predicate IsAggregateMismatch(m: Mismatch, a: Attestation, ms: Members, reg: Registry) {
    match AggregateSet(ms, reg)
    case Err(e) => e != Model(Decimals.ArithmeticPanic) && m == Mismatch("*", "n/a", Message(e))
    case Ok(computed) =>
      if |a.aggregates| != |computed| then m == Mismatch("*", ToText(|a.aggregates|), Plain(ToText(|computed|)))
      else exists i: nat :: FirstShown(m, a.aggregates, computed, i)
  }

  lemma {:induction false} AggregateMismatchExactly(
    sha: Sha, a: Attestation, ms: Members, reg: Registry, check: SignatureCheck, m: Mismatch)
    requires ms != []
    ensures RollupVerdict(sha, a, ms, reg, check) == Ok(AggregateMismatch(m))
            <==> SetHolds(sha, a, ms) && IsAggregateMismatch(m, a, ms, reg)
  {
    hide RootOf, AggregateSet, FirstMismatch, FirstShown, CanonicalBody, CanPrint, CanPrintAll, ToText;
    var computed := AggregateSet(ms, reg);
    if computed.Ok? && |a.aggregates| == |computed.value| {
      ShownIsFirst(m, a.aggregates, computed.value);
    }
  }

  /** Which refusal is reported, exactly, each only where those before it do not apply. */
  lemma {:induction false} RefusedExactly(sha: Sha, a: Attestation, ms: Members, reg: Registry, check: SignatureCheck)
    requires ms != []
    ensures var v := RollupVerdict(sha, a, ms, reg, check);
      && (v == Ok(RootMismatch) <==> CanPrintAll(ms) && a.root != RootOf(sha, ms))
      && (forall x, y :: v == Ok(MemberCountMismatch(x, y)) <==>
            CanPrintAll(ms) && a.root == RootOf(sha, ms) && a.memberCount == x != y == |ms|)
      && (forall why :: v == Ok(SignatureRejected(why)) <==>
            && SetHolds(sha, a, ms) && AggregateSet(ms, reg).Ok? && |a.aggregates| == |AggregateSet(ms, reg).value|
            && (forall i :: 0 <= i < |a.aggregates| ==> Agrees(a.aggregates[i], AggregateSet(ms, reg).value[i]))
            && check(a.signature, CanonicalBody(a)) == Some(why))
    ensures forall m :: RollupVerdict(sha, a, ms, reg, check) == Ok(AggregateMismatch(m)) <==>
                        SetHolds(sha, a, ms) && IsAggregateMismatch(m, a, ms, reg)
  {
    hide RootOf, AggregateSet, FirstMismatch, Agrees, IsAggregateMismatch, CanonicalBody, CanPrint, CanPrintAll, ToText;
    var computed := AggregateSet(ms, reg);
    if computed.Ok? && |a.aggregates| == |computed.value| {
      NoMismatchIsAgreement(a.aggregates, computed.value);
      AgreeingCanPrint(a.aggregates, computed.value);
    }
    hide RollupVerdict, SetHolds;
    forall m ensures RollupVerdict(sha, a, ms, reg, check) == Ok(AggregateMismatch(m)) <==>
                     SetHolds(sha, a, ms) && IsAggregateMismatch(m, a, ms, reg)
    {
      AggregateMismatchExactly(sha, a, ms, reg, check, m);
    }
  }

  /** Nothing agrees with an amount that cannot be printed: the comparison fails first. */
  lemma {:induction false} AgreeingCanPrint(attested: seq<AggregateValue>, computed: seq<AggregateValue>)
    requires |attested| == |computed|
    ensures (forall i :: 0 <= i < |attested| ==> Agrees(attested[i], computed[i])) ==> CanPrint(attested)
  {
    forall i | 0 <= i < |attested| ensures Agrees(attested[i], computed[i]) ==> attested[i].value.amount.mant != I128_MIN {
      AgreeingMantissa(attested[i].value.amount, computed[i].value.amount);
    }
  }

  lemma {:induction false} AgreeingMantissa(a: Decimals.Decimal, b: Decimals.Decimal)
    ensures Decimals.Value(a) == Decimals.Value(b) && Decimals.Comparable(a, b) ==> a.mant != I128_MIN
  {
    hide Decimals.Scaled;
    Decimals.ScaledSign(a.mant, a.exp);
    Decimals.ScaledSign(b.mant, b.exp);
  }

  /** Every aggregate of a verified attestation is the exact sum over the set. */
  lemma {:induction false} VerifiedSumsAreExact(sha: Sha, a: Attestation, ms: Members, reg: Registry, check: SignatureCheck)
    requires ms != [] && WellFormed(reg) && RollupVerdict(sha, a, ms, reg, check) == Ok(Verified)
    ensures |a.aggregates| == |LabelsOf(ms)|
    ensures forall i :: 0 <= i < |a.aggregates| ==>
              a.aggregates[i].key == LabelsOf(ms)[i] && IsExactSum(a.aggregates[i], ms, reg)
  {
    hide RollupVerdict, RootOf, AggregateSet, CanonicalBody, LabelsOf, IsExactSum, IsTheSum, WellFormed, Agrees;
    VerifiedExactly(sha, a, ms, reg, check);
    AggregatesAreExact(ms, reg);
    forall i | 0 <= i < |a.aggregates|
      ensures a.aggregates[i].key == LabelsOf(ms)[i] && IsExactSum(a.aggregates[i], ms, reg)
    {
      assert Agrees(a.aggregates[i], AggregateSet(ms, reg).value[i]);
      AgreeingSumsAreExact(a.aggregates[i], AggregateSet(ms, reg).value[i], ms, reg);
    }
  }

  lemma {:induction false} AgreeingSumsAreExact(a: AggregateValue, b: AggregateValue, ms: Members, reg: Registry)
    requires Agrees(a, b) && IsTheSum(b, ms, reg)
    ensures a.key == b.key && IsExactSum(a, ms, reg)
  {
    hide Decimals.Value, Ratio, Contributions, TotalCanon;
  }

  /** The signature slot is not part of what is signed. */
  lemma {:induction false} BodyIgnoresSignature(a: Attestation, slot: SigSlot)
    ensures CanonicalBody(a.(signature := slot)) == CanonicalBody(a)
  {}

  /** When an attestation can be built, and what it says. */
  lemma {:induction false} BuiltExactly(
    sha: Sha, subject: PassportId, ms: Members, methodRef: string, attester: string, reg: Registry, now: Timestamp)
    requires ms != []
    ensures var r := Build(sha, subject, ms, methodRef, attester, reg, now);
      && (r.Ok? <==>
            && DecimalText.Trim(methodRef) != "" && DecimalText.Trim(attester) != "" && CanPrintAll(ms)
            && (forall key :: key in LabelsOf(ms) ==> CanSum(Contributions(ms, key), reg))
            && forall aggregates :: AggregateSet(ms, reg) == Ok(aggregates) ==> CanPrint(aggregates))
      && (r.Ok? ==>
            && r.value.0.subject == subject && r.value.0.root == RootOf(sha, ms) && r.value.0.memberCount == |ms|
            && AggregateSet(ms, reg) == Ok(r.value.0.aggregates) && r.value.0.signature.signature == None
            && r.value.0.methodRef == DecimalText.Trim(methodRef) && r.value.0.attester == DecimalText.Trim(attester)
            && r.value.0.signedAt == now && r.value.1 == CanonicalBody(r.value.0))
  {
    hide RootOf, AggregateSet, CanonicalBody, CanPrintAll, CanPrint, CanSum, Contributions, LabelsOf, DecimalText.Trim;
    AggregateSucceedsExactly(ms, reg);
  }

  /** What was built over a set, signed in whatever way the check accepts, verifies against that set. */
  lemma {:induction false} BuiltVerifies(
    sha: Sha, subject: PassportId, ms: Members, methodRef: string, attester: string, reg: Registry, now: Timestamp,
    slot: SigSlot, check: SignatureCheck)
    requires ms != [] && Build(sha, subject, ms, methodRef, attester, reg, now).Ok?
    requires check(slot, Build(sha, subject, ms, methodRef, attester, reg, now).value.1) == None
    ensures var a := Build(sha, subject, ms, methodRef, attester, reg, now).value.0.(signature := slot);
      RollupVerdict(sha, a, ms, reg, check) == Ok(Verified)
  {
    hide RollupVerdict, RootOf, AggregateSet, CanonicalBody, CanPrintAll, Decimals.Value;
    var built := Build(sha, subject, ms, methodRef, attester, reg, now).value;
    BodyIgnoresSignature(built.0, slot);
    VerifiedExactly(sha, built.0.(signature := slot), ms, reg, check);
    assert forall i :: 0 <= i < |built.0.aggregates| ==> Agrees(built.0.aggregates[i], built.0.aggregates[i]);
  }

  /** One attestation verifies for one set only: two sets it verifies for have the same leaves. */
  lemma {:induction false} OneSetPerAttestation(
    sha: Sha, a: Attestation, ms: Members, ns: Members, reg: Registry, check: SignatureCheck)
    requires NewSet(ms).Ok? && NewSet(ns).Ok? && NewSet(ms).value != [] && NewSet(ns).value != []
    requires CollisionFree(sha, HashedByRoot(sha, NewSet(ms).value) + HashedByRoot(sha, NewSet(ns).value))
    requires RollupVerdict(sha, a, NewSet(ms).value, reg, check) == Ok(Verified)
    requires RollupVerdict(sha, a, NewSet(ns).value, reg, check) == Ok(Verified)
    ensures SameLeaves(NewSet(ms).value, NewSet(ns).value)
  {
    hide RollupVerdict, RootOf, NewSet, SameLeaves, CanonicalBody, AggregateSet, HashedByRoot;
    VerifiedExactly(sha, a, NewSet(ms).value, reg, check);
    VerifiedExactly(sha, a, NewSet(ns).value, reg, check);
    RootFixesSet(sha, ms, ns);
  }
}
