/**
 What the Tier-A decoder accepts, and what it makes of it (crates/tier_a/src/packer.rs): the payload is a run of tagged
 fields in any order, the last field of a tag counts, and nothing else is accepted.
 */
module CarrierFields {
  import opened Wrappers
  import opened ByteCodec
  import opened Hashing
  import opened CanonicalCodec
  import opened Timestamps
  import opened Identifiers
  import opened Tokens
  import opened Packer
  import Utf8

  // ----- one field

  ghost predicate AllFit(fs: seq<Field>) {
    forall i :: 0 <= i < |fs| ==> FieldFits(fs[i])
  }

  /** The field at the start of the bytes, and what follows it. */
  function FieldAt(b: bytes): Option<(Field, bytes)> {
    var (tag, rest) := ReadTag(b);
    if tag.Err? then None
    else if IsTextTag(tag.value) then
      var (s, left) := ReadStr(rest);
      if s.Err? then None else Some((Text(tag.value, s.value), left))
    else if tag.value == VALIDITY_TO then
      var (s, left) := ReadOptStr(rest);
      if s.Err? then None else Some((OptText(VALIDITY_TO, s.value), left))
    else if tag.value == LOG_HEAD then
      var (h, left) := ReadOptHash(rest);
      if h.Err? then None else Some((OptDigest(LOG_HEAD, h.value), left))
    else if tag.value == SIG_COUNT then
      var (n, more) := ReadTag(rest);
      if n.Err? then None else
        var slots := ReadSlots([], more, n.value);
        if slots.Err? then None else Some((Slots(slots.value.0), slots.value.1))
    else None
  }

  lemma {:induction false} SlotWasWritten(rest: bytes)
    requires ReadSlot(rest).Ok?
    ensures var (s, left) := ReadSlot(rest).value;
      TextFits(s.keyId) && SlotReadsBack(s) && rest == SlotBytes(s) + left
  {
    hide ReadTag, ReadBytes, ReadUint, Take, Utf8.Decode, Utf8.Encode, Frame, LeBytes, SuiteCode;
    var (s, left) := ReadSlot(rest).value;
    var (tag, r1) := ReadTag(rest);
    var (code, r2) := ReadTag(r1);
    var (key, r3) := ReadBytes(r2);
    var (len, r4) := ReadUint(r3, 2);
    PowersOf256();
    TagExactly(rest, tag.value, r1);
    TagExactly(r1, code.value, r2);
    BytesExactly(r2, key.value, r3);
    Utf8.DecodesExactly(key.value, s.keyId);
    UintExactly(r3, 2, len.value, r4);
    if len.value != PLACEHOLDER {
      TakeExactly(r4, len.value, s.signature.value, left);
      SlotShape(s, left);
    } else {
      SlotShape(s, left);
      assert [] + left == left;
    }
  }

  lemma {:induction false} SlotsCons(s: SigSlot, slots: seq<SigSlot>)
    ensures SlotsBytes([s] + slots) == SlotBytes(s) + SlotsBytes(slots)
    decreases |slots|
  {
    hide SlotBytes;
    var all := [s] + slots;
    if slots == [] {
      assert all == [s] && all[..0] == [];
      assert SlotsBytes([]) == [];
    } else {
      var n := |slots| - 1;
      SlotsCons(s, slots[..n]);
      assert all[..n + 1] == [s] + slots[..n] && all[n + 1] == slots[n];
      Assoc(SlotBytes(s), SlotsBytes(slots[..n]), SlotBytes(slots[n]));
    }
  }

  lemma {:induction false} SlotsWereWritten(before: seq<SigSlot>, rest: bytes, n: nat) returns (slots: seq<SigSlot>)
    requires ReadSlots(before, rest, n).Ok?
    ensures ReadSlots(before, rest, n).value.0 == before + slots && |slots| == n
    ensures KeysFit(slots) && SlotsReadBack(slots) && rest == SlotsBytes(slots) + ReadSlots(before, rest, n).value.1
    decreases n
  {
    hide ReadSlot, SlotBytes, TextFits, SlotReadsBack;
    slots := [];
    if n > 0 {
      var (s, left) := ReadSlot(rest).value;
      SlotWasWritten(rest);
      var more := SlotsWereWritten(before + [s], left, n - 1);
      slots := [s] + more;
      SlotsCons(s, more);
      Assoc(SlotBytes(s), SlotsBytes(more), ReadSlots(before, rest, n).value.1);
      assert (before + [s]) + more == before + slots;
    } else {
      assert before + [] == before && [] + rest == rest;
    }
  }

  /** A field is read exactly where its bytes stand: no field is the beginning of another. */
  lemma {:induction false} FieldAtExactly(b: bytes, f: Field, left: bytes)
    ensures FieldAt(b) == Some((f, left)) <==> FieldFits(f) && b == FieldBytes(f) + left
  {
    hide FieldAt, FieldBytes, FieldFits;
    if FieldAt(b) == Some((f, left)) {
      FieldWasWritten(b);
    }
    if FieldFits(f) {
      FieldReadsBack(f, left);
    }
  }

  lemma {:induction false} FieldReadsBack(f: Field, rest: bytes)
    requires FieldFits(f)
    ensures FieldAt(FieldBytes(f) + rest) == Some((f, rest))
  {
    hide ReadStr, ReadOptStr, ReadOptHash, ReadTag, ReadSlots, OptStr, OptHash, SlotsBytes, Utf8.Encode, Frame, KeysFit,
      SlotsReadBack;
    match f
    case Text(tag, s) =>
      Assoc([tag], Frame(Utf8.Encode(s), 4), rest);
      TagReadsBack(tag, Frame(Utf8.Encode(s), 4) + rest);
      StrReadsBack(s, rest);
    case OptText(tag, s) =>
      Assoc([tag], OptStr(s), rest);
      TagReadsBack(tag, OptStr(s) + rest);
      OptStrReadsBack(s, rest);
    case OptDigest(tag, h) =>
      Assoc([tag], OptHash(h), rest);
      TagReadsBack(tag, OptHash(h) + rest);
      OptHashReadsBack(h, rest);
    case Slots(slots) =>
      Assoc([SIG_COUNT], [|slots|] + SlotsBytes(slots), rest);
      Assoc([|slots|], SlotsBytes(slots), rest);
      TagReadsBack(SIG_COUNT, [|slots|] + (SlotsBytes(slots) + rest));
      TagReadsBack(|slots|, SlotsBytes(slots) + rest);
      ReadSlotsBack([], slots, rest, 0);
      NoMoreSlots([] + slots, rest);
      assert [] + slots == slots;
  }

  lemma {:induction false} FieldWasWritten(b: bytes)
    requires FieldAt(b).Some?
    ensures var (f, left) := FieldAt(b).value; FieldFits(f) && b == FieldBytes(f) + left
  {
    hide ReadStr, ReadOptStr, ReadOptHash, ReadTag, ReadSlots, OptStr, OptHash, SlotsBytes, Utf8.Encode, Frame, KeysFit,
      SlotsReadBack;
    var (f, left) := FieldAt(b).value;
    var (tag, rest) := ReadTag(b);
    TagExactly(b, tag.value, rest);
    match f
    case Text(_, s) =>
      StrExactly(rest, s, left);
      Assoc([tag.value], Frame(Utf8.Encode(s), 4), left);
    case OptText(_, s) =>
      OptStrExactly(rest, s, left);
      Assoc([tag.value], OptStr(s), left);
    case OptDigest(_, h) =>
      OptHashExactly(rest, h, left);
      Assoc([tag.value], OptHash(h), left);
    case Slots(slots) =>
      var (n, more) := ReadTag(rest);
      TagExactly(rest, n.value, more);
      var read := SlotsWereWritten([], more, n.value);
      assert [] + read == read;
      Assoc([n.value], SlotsBytes(slots), left);
      Assoc([SIG_COUNT], [n.value] + SlotsBytes(slots), left);
  }

  // ----- the run of fields

  /** The loop body reads the field that stands there, and applies it. */
  lemma {:induction false} ReadsFieldAt<P>(codec: ProductCodec<P>, acc: Partial<P>, b: bytes)
    requires ReadTag(b).0.Ok?
    ensures var r := ReadField(codec, acc, ReadTag(b).0.value, ReadTag(b).1);
      && (r.Ok? <==> FieldAt(b).Some? && Apply(codec, acc, FieldAt(b).value.0).Ok?)
      && (r.Ok? ==> r.value == (Apply(codec, acc, FieldAt(b).value.0).value, FieldAt(b).value.1))
  {
    hide ReadStr, ReadOptStr, ReadOptHash, ReadTag, ReadSlots, PutText;
    var (tag, rest) := ReadTag(b);
    if tag.value == SIG_COUNT {
      var (n, more) := ReadTag(rest);
      if n.Ok? {
        SlotsBehind(acc.signatures, more, n.value);
      }
    }
  }

  /** Slots are read the same whatever came before them. */
  lemma {:induction false} SlotsBehind(before: seq<SigSlot>, rest: bytes, n: nat)
    ensures var r, s := ReadSlots(before, rest, n), ReadSlots([], rest, n);
      && (r.Ok? <==> s.Ok?)
      && (r.Ok? ==> r.value.0 == before + s.value.0 && r.value.1 == s.value.1)
  {
    SlotsAppended(before, [], rest, n);
    assert before + [] == before;
  }

  lemma {:induction false} SlotsAppended(before: seq<SigSlot>, slots: seq<SigSlot>, rest: bytes, n: nat)
    ensures var r, s := ReadSlots(before + slots, rest, n), ReadSlots(slots, rest, n);
      && (r.Ok? <==> s.Ok?)
      && (r.Ok? ==> r.value.0 == before + s.value.0 && r.value.1 == s.value.1)
    decreases n
  {
    hide ReadSlot;
    if n > 0 && ReadSlot(rest).Ok? {
      var (s, left) := ReadSlot(rest).value;
      assert before + slots + [s] == before + (slots + [s]);
      SlotsAppended(before, slots + [s], left, n - 1);
    }
  }

  /** Bytes are read to the end exactly if they are a run of fields, and then these are applied one by one. */
  lemma {:induction false} ReadIsRun<P>(codec: ProductCodec<P>, acc: Partial<P>, b: bytes) returns (fs: seq<Field>)
    requires ReadFields(codec, acc, b).Ok?
    ensures AllFit(fs) && b == FieldsBytes(fs) && ApplyAll(codec, acc, fs) == ReadFields(codec, acc, b)
    decreases |b|
  {
    hide ReadField, FieldAt, Apply, FieldBytes, FieldFits, ReadTag;
    fs := [];
    if b != [] {
      var tag := ReadTag(b).0;
      ReadsFieldAt(codec, acc, b);
      FieldWasWritten(b);
      var (f, left) := FieldAt(b).value;
      var next := Apply(codec, acc, f).value;
      var more := ReadIsRun(codec, next, left);
      fs := [f] + more;
      assert fs[1..] == more;
    }
  }

  lemma {:induction false} RunIsRead<P>(codec: ProductCodec<P>, acc: Partial<P>, fs: seq<Field>)
    requires AllFit(fs)
    ensures var next := ApplyAll(codec, acc, fs);
      ReadFields(codec, acc, FieldsBytes(fs)) == if next.Err? then Err(next.error) else Ok(next.value)
  {
    hide ReadFields, FieldsBytes, ApplyAll, FieldFits;
    ReadFieldsBack(codec, acc, fs, []);
    assert FieldsBytes(fs) + [] == FieldsBytes(fs);
    var next := ApplyAll(codec, acc, fs);
    if next.Ok? {
      EndOfRun(codec, next.value);
    }
  }

  lemma {:induction false} EndOfRun<P>(codec: ProductCodec<P>, acc: Partial<P>)
    ensures ReadFields(codec, acc, []) == Ok(acc)
  {}

  /** Bytes are one run of fields at most. */
  lemma {:induction false} RunIsUnique(fs: seq<Field>, gs: seq<Field>)
    requires AllFit(fs) && AllFit(gs) && FieldsBytes(fs) == FieldsBytes(gs)
    ensures fs == gs
    decreases |fs|
  {
    hide FieldBytes, FieldFits;
    if fs == [] || gs == [] {
      NoFieldIsEmpty(fs);
      NoFieldIsEmpty(gs);
    } else {
      FieldAtExactly(FieldsBytes(fs), fs[0], FieldsBytes(fs[1..]));
      FieldAtExactly(FieldsBytes(gs), gs[0], FieldsBytes(gs[1..]));
      RunIsUnique(fs[1..], gs[1..]);
      assert fs == [fs[0]] + fs[1..] && gs == [gs[0]] + gs[1..];
    }
  }

  lemma {:induction false} NoFieldIsEmpty(fs: seq<Field>)
    ensures FieldsBytes(fs) == [] <==> fs == []
  {
    if fs != [] {
      FieldHasBytes(fs[0]);
    }
  }

  lemma {:induction false} FieldHasBytes(f: Field)
    ensures FieldBytes(f) != []
  {}

  // ----- what a run of fields says

  /** The text of the last field of a tag; an optional field without a text does not count. */
  function LastText(fs: seq<Field>, tag: byte): Option<string> {
    if fs == [] then None else
      match fs[|fs| - 1]
      case Text(t, s) => if t == tag then Some(s) else LastText(fs[..|fs| - 1], tag)
      case OptText(t, s) => if t == tag && s.Some? then s else LastText(fs[..|fs| - 1], tag)
      case OptDigest(_, _) => LastText(fs[..|fs| - 1], tag)
      case Slots(_) => LastText(fs[..|fs| - 1], tag)
  }

  /** The digest of the last digest field, present or not. */
  function LastDigest(fs: seq<Field>): Option<Digest> {
    if fs == [] then None
    else if fs[|fs| - 1].OptDigest? then fs[|fs| - 1].digest
    else LastDigest(fs[..|fs| - 1])
  }

  /** The slots of all slot fields, in order. */
  function AllSlots(fs: seq<Field>): seq<SigSlot> {
    if fs == [] then []
    else AllSlots(fs[..|fs| - 1]) + if fs[|fs| - 1].Slots? then fs[|fs| - 1].slots else []
  }

  /** A text that its tag allows. */
  predicate TextParses<P>(codec: ProductCodec<P>, tag: byte, s: string) {
    && (tag == PRODUCT_ID ==> codec.parse(s).Some?)
    && (tag == PASSPORT_ID ==> NewPassportId(s).Ok?)
    && (tag == STATUS ==> ParseStatus(s).Some?)
    && (tag == SAFETY ==> ParseSafety(s).Some?)
    && (tag == VALIDITY_FROM || tag == VALIDITY_TO || tag == AS_OF ==> Parse(s).Ok?)
  }

  predicate FieldParses<P>(codec: ProductCodec<P>, f: Field) {
    match f
    case Text(tag, s) => TextParses(codec, tag, s)
    case OptText(tag, s) => s.Some? ==> TextParses(codec, tag, s.value)
    case OptDigest(_, _) => true
    case Slots(_) => true
  }

  ghost predicate AllParse<P>(codec: ProductCodec<P>, fs: seq<Field>) {
    forall i :: 0 <= i < |fs| ==> FieldParses(codec, fs[i])
  }

  /** The decoder's variable for a tag holds what the last text of the tag parses to. */
  ghost predicate Holds<T(!new)>(variable: Option<T>, text: Option<string>, parse: string -> Option<T>) {
    variable == if text.None? then None else parse(text.value)
  }

  function TimeIn(s: string): Option<Timestamp> {
    if Parse(s).Ok? then Some(Parse(s).value) else None
  }

  function IdIn(s: string): Option<PassportId> {
    if NewPassportId(s).Ok? then Some(NewPassportId(s).value) else None
  }

  function ItselfIn(s: string): Option<string> {
    Some(s)
  }

  ghost predicate Collected<P(!new)>(codec: ProductCodec<P>, acc: Partial<P>, fs: seq<Field>) {
    && Holds(acc.productId, LastText(fs, PRODUCT_ID), codec.parse)
    && Holds(acc.resolverUri, LastText(fs, RESOLVER_URI), ItselfIn)
    && Holds(acc.passportId, LastText(fs, PASSPORT_ID), IdIn)
    && Holds(acc.eoId, LastText(fs, EO_ID), ItselfIn)
    && Holds(acc.status, LastText(fs, STATUS), ParseStatus)
    && Holds(acc.safety, LastText(fs, SAFETY), ParseSafety)
    && Holds(acc.from, LastText(fs, VALIDITY_FROM), TimeIn)
    && Holds(acc.to, LastText(fs, VALIDITY_TO), TimeIn)
    && Holds(acc.asOf, LastText(fs, AS_OF), TimeIn)
    && acc.logHead == LastDigest(fs) && acc.signatures == AllSlots(fs)
  }

  lemma {:induction false} ApplyLast<P>(codec: ProductCodec<P>, acc: Partial<P>, fs: seq<Field>)
    requires fs != []
    ensures var n := |fs| - 1;
      var before := ApplyAll(codec, acc, fs[..n]);
      ApplyAll(codec, acc, fs) == if before.Err? then before else Apply(codec, before.value, fs[n])
    decreases |fs|
  {
    hide Apply;
    var n := |fs| - 1;
    var next := Apply(codec, acc, fs[0]);
    if n == 0 {
      assert fs[..n] == [] && fs[1..] == [];
      ApplyNone(codec, acc, []);
      if next.Ok? {
        ApplyNone(codec, next.value, []);
      }
    } else {
      assert fs[..n][0] == fs[0] && fs[..n][1..] == fs[1..][..n - 1];
      if next.Ok? {
        ApplyLast(codec, next.value, fs[1..]);
      }
    }
  }

  /** The text that a field puts under a tag. */
  function TextUnder(f: Field, tag: byte): Option<string> {
    match f
    case Text(t, s) => if t == tag then Some(s) else None
    case OptText(t, s) => if t == tag then s else None
    case OptDigest(_, _) => None
    case Slots(_) => None
  }

  lemma {:induction false} LastTextSnoc(fs: seq<Field>, f: Field, tag: byte)
    ensures LastText(fs + [f], tag) == if TextUnder(f, tag).Some? then TextUnder(f, tag) else LastText(fs, tag)
  {
    assert (fs + [f])[..|fs|] == fs;
  }

  lemma {:induction false} TextAddsNoOther(fs: seq<Field>, f: Field)
    requires f.Text? || f.OptText?
    ensures LastDigest(fs + [f]) == LastDigest(fs) && AllSlots(fs + [f]) == AllSlots(fs)
  {
    assert (fs + [f])[..|fs|] == fs;
    assert AllSlots(fs) + [] == AllSlots(fs);
  }

  lemma {:induction false} PutIsCollected<P(!new)>(
    codec: ProductCodec<P>, acc: Partial<P>, fs: seq<Field>, gs: seq<Field>, tag: byte, s: string)
    requires 1 <= tag <= 9 && Collected(codec, acc, fs)
    requires forall t: byte :: LastText(gs, t) == if t == tag then Some(s) else LastText(fs, t)
    requires LastDigest(gs) == LastDigest(fs) && AllSlots(gs) == AllSlots(fs)
    ensures PutText(codec, acc, tag, s).Ok? <==> TextParses(codec, tag, s)
    ensures PutText(codec, acc, tag, s).Ok? ==> Collected(codec, PutText(codec, acc, tag, s).value, gs)
  {
    hide Parse, NewPassportId, ParseStatus, ParseSafety, LastText, LastDigest, AllSlots;
  }

  /** A text goes into the variable of its tag, parsed, and into no other. */
  lemma {:induction false} TextIsCollected<P(!new)>(codec: ProductCodec<P>, acc: Partial<P>, fs: seq<Field>, f: Field)
    requires FieldFits(f) && (f.Text? || f.OptText?) && Collected(codec, acc, fs)
    ensures Apply(codec, acc, f).Ok? <==> FieldParses(codec, f)
    ensures Apply(codec, acc, f).Ok? ==> Collected(codec, Apply(codec, acc, f).value, fs + [f])
  {
    hide PutText, TextParses, TextFits, LastText, LastDigest, AllSlots, Holds;
    var gs := fs + [f];
    TextAddsNoOther(fs, f);
    forall t: byte
      ensures LastText(gs, t) == if TextUnder(f, t).Some? then TextUnder(f, t) else LastText(fs, t)
    {
      LastTextSnoc(fs, f, t);
    }
    match f
    case Text(tag, s) =>
      PutIsCollected(codec, acc, fs, gs, tag, s);
    case OptText(tag, s) =>
      if s.Some? {
        PutIsCollected(codec, acc, fs, gs, tag, s.value);
      }
  }

  lemma {:induction false} OtherIsCollected<P(!new)>(codec: ProductCodec<P>, acc: Partial<P>, fs: seq<Field>, f: Field)
    requires (f.OptDigest? || f.Slots?) && Collected(codec, acc, fs)
    ensures Apply(codec, acc, f).Ok? && FieldParses(codec, f)
    ensures Collected(codec, Apply(codec, acc, f).value, fs + [f])
  {
    hide Parse, NewPassportId, ParseStatus, ParseSafety, Holds;
    assert (fs + [f])[..|fs|] == fs;
    assert AllSlots(fs) + [] == AllSlots(fs);
  }

  lemma {:induction false} NothingIsCollected<P(!new)>(codec: ProductCodec<P>)
    ensures Collected(codec, Nothing(), []) && ApplyAll(codec, Nothing(), []) == Ok(Nothing<P>())
  {
    hide Parse, NewPassportId, ParseStatus, ParseSafety;
  }

  lemma {:induction false} RunIsCollected<P(!new)>(codec: ProductCodec<P>, fs: seq<Field>)
    requires AllFit(fs)
    ensures var r := ApplyAll(codec, Nothing(), fs);
      (r.Ok? <==> AllParse(codec, fs)) && (r.Ok? ==> Collected(codec, r.value, fs))
    decreases |fs|
  {
    hide Apply, ApplyAll, Collected, FieldFits, FieldParses;
    if fs == [] {
      NothingIsCollected(codec);
    } else {
      var n := |fs| - 1;
      var before := ApplyAll(codec, Nothing(), fs[..n]);
      RunIsCollected(codec, fs[..n]);
      ApplyLast(codec, Nothing(), fs);
      assert fs == fs[..n] + [fs[n]];
      if before.Ok? {
        if fs[n].Text? || fs[n].OptText? {
          TextIsCollected(codec, before.value, fs[..n], fs[n]);
        } else {
          OtherIsCollected(codec, before.value, fs[..n], fs[n]);
        }
      }
    }
  }

  /** Every mandatory tag occurs, and each component is what the last field of its tag parses to. */
  ghost predicate Says<P(!new)>(codec: ProductCodec<P>, fs: seq<Field>, p: Payload<P>) {
    && Holds(Some(p.productId), LastText(fs, PRODUCT_ID), codec.parse)
    && LastText(fs, RESOLVER_URI) == Some(p.resolverUri)
    && Holds(Some(p.passportId), LastText(fs, PASSPORT_ID), IdIn)
    && LastText(fs, EO_ID) == Some(p.eoId)
    && Holds(Some(p.status), LastText(fs, STATUS), ParseStatus)
    && Holds(Some(p.safety), LastText(fs, SAFETY), ParseSafety)
    && Holds(Some(p.validity.from), LastText(fs, VALIDITY_FROM), TimeIn)
    && Holds(p.validity.to, LastText(fs, VALIDITY_TO), TimeIn)
    && Holds(Some(p.asOf), LastText(fs, AS_OF), TimeIn)
    && p.logHead == LastDigest(fs) && p.signatures == AllSlots(fs)
  }

  /** The bytes are this run of fields, each of which parses. */
  ghost predicate IsRun<P>(codec: ProductCodec<P>, fs: seq<Field>, b: bytes) {
    AllFit(fs) && b == FieldsBytes(fs) && AllParse(codec, fs)
  }

  lemma {:induction false} FinishedSays<P(!new)>(codec: ProductCodec<P>, acc: Partial<P>, fs: seq<Field>, p: Payload<P>)
    requires Collected(codec, acc, fs)
    ensures Finish(acc) == Ok(p) <==> Says(codec, fs, p)
  {
    hide Parse, NewPassportId, ParseStatus, ParseSafety, LastText, LastDigest, AllSlots;
  }

  /** What the decoder accepts, and what it reads: exactly the runs of fields, each as the payload it says. */
  lemma {:induction false} DecodedExactly<P(!new)>(codec: ProductCodec<P>, b: bytes, p: Payload<P>)
    ensures Decoded(codec, b) == Ok(p) <==> exists fs :: IsRun(codec, fs, b) && Says(codec, fs, p)
  {
    hide ReadFields, Finish, ApplyAll, AllFit, AllParse, FieldsBytes, Says, Collected;
    var acc := ReadFields(codec, Nothing(), b);
    if acc.Ok? {
      var fs := ReadIsRun(codec, Nothing(), b);
      RunIsCollected(codec, fs);
      FinishedSays(codec, acc.value, fs, p);
      forall gs | IsRun(codec, gs, b) && Says(codec, gs, p) ensures Finish(acc.value) == Ok(p) {
        RunIsUnique(fs, gs);
      }
      assert IsRun(codec, fs, b);
    } else {
      forall fs | IsRun(codec, fs, b) ensures false {
        RunIsRead(codec, Nothing(), fs);
        RunIsCollected(codec, fs);
      }
    }
  }

  // ----- what is refused

  lemma {:induction false} NoTextOfTag(fs: seq<Field>, tag: byte)
    requires forall i :: 0 <= i < |fs| && fs[i].Text? ==> fs[i].tag != tag
    requires AllFit(fs) && tag != VALIDITY_TO
    ensures LastText(fs, tag) == None
  {
    hide TextFits;
    if fs != [] {
      assert FieldFits(fs[|fs| - 1]);
      NoTextOfTag(fs[..|fs| - 1], tag);
    }
  }

  lemma {:induction false} SaysEveryMandatory<P(!new)>(codec: ProductCodec<P>, fs: seq<Field>, p: Payload<P>, tag: byte)
    requires Says(codec, fs, p) && IsTextTag(tag)
    ensures LastText(fs, tag) != None
  {
    hide LastText, LastDigest, AllSlots, Parse, NewPassportId, ParseStatus, ParseSafety;
  }

  /** Without a field of each mandatory tag nothing is decoded. */
  lemma {:induction false} MissingTagIsRefused<P(!new)>(codec: ProductCodec<P>, fs: seq<Field>, tag: byte)
    requires AllFit(fs) && IsTextTag(tag)
    requires forall i :: 0 <= i < |fs| && fs[i].Text? ==> fs[i].tag != tag
    ensures Decoded(codec, FieldsBytes(fs)).Err?
  {
    NoTextOfTag(fs, tag);
    hide Decoded, AllFit, FieldsBytes, LastText, Says, AllParse, IsTextTag;
    match Decoded(codec, FieldsBytes(fs))
    case Ok(p) =>
      DecodedExactly(codec, FieldsBytes(fs), p);
      var gs :| IsRun(codec, gs, FieldsBytes(fs)) && Says(codec, gs, p);
      RunIsUnique(fs, gs);
      SaysEveryMandatory(codec, gs, p, tag);
    case Err(_) =>
  }

  lemma {:induction false} RunBehindRun(fs: seq<Field>, gs: seq<Field>, tail: bytes) returns (more: seq<Field>)
    requires AllFit(fs) && AllFit(gs) && FieldsBytes(gs) == FieldsBytes(fs) + tail
    ensures AllFit(more) && tail == FieldsBytes(more)
    decreases |fs|
  {
    hide FieldBytes, FieldFits;
    if fs == [] {
      more := gs;
      assert [] + tail == tail;
    } else {
      Assoc(FieldBytes(fs[0]), FieldsBytes(fs[1..]), tail);
      FieldAtExactly(FieldsBytes(gs), fs[0], FieldsBytes(fs[1..]) + tail);
      FieldHasBytes(fs[0]);
      NoFieldIsEmpty(gs);
      FieldAtExactly(FieldsBytes(gs), gs[0], FieldsBytes(gs[1..]));
      more := RunBehindRun(fs[1..], gs[1..], tail);
    }
  }

  /** Behind any run of fields, only a run of fields is accepted. */
  lemma {:induction false} TailIsRun<P(!new)>(codec: ProductCodec<P>, fs: seq<Field>, tail: bytes) returns (more: seq<Field>)
    requires AllFit(fs) && Decoded(codec, FieldsBytes(fs) + tail).Ok?
    ensures AllFit(more) && tail == FieldsBytes(more)
  {
    hide Decoded, FieldsBytes, Says, AllFit, AllParse;
    var p := Decoded(codec, FieldsBytes(fs) + tail).value;
    DecodedExactly(codec, FieldsBytes(fs) + tail, p);
    var gs :| IsRun(codec, gs, FieldsBytes(fs) + tail) && Says(codec, gs, p);
    more := RunBehindRun(fs, gs, tail);
  }

  /** No field begins with any other tag. */
  lemma {:induction false} UnknownTagIsRefused<P(!new)>(codec: ProductCodec<P>, fs: seq<Field>, tag: byte, rest: bytes)
    requires AllFit(fs) && !(1 <= tag <= SIG_COUNT)
    ensures Decoded(codec, FieldsBytes(fs) + ([tag] + rest)).Err?
  {
    hide Decoded, FieldBytes, FieldFits;
    if Decoded(codec, FieldsBytes(fs) + ([tag] + rest)).Ok? {
      var more := TailIsRun(codec, fs, [tag] + rest);
      FieldAtExactly([tag] + rest, more[0], FieldsBytes(more[1..]));
      UnknownTagIsNoField(tag, rest);
    }
  }

  lemma {:induction false} UnknownTagIsNoField(tag: byte, rest: bytes)
    requires !(1 <= tag <= SIG_COUNT)
    ensures FieldAt([tag] + rest).None?
  {
    TagReadsBack(tag, rest);
  }

  /** A field cut off anywhere is refused, whatever run of fields is in front. */
  lemma {:induction false} TruncatedFieldIsRefused<P(!new)>(
    codec: ProductCodec<P>, fs: seq<Field>, f: Field, cut: bytes, lost: bytes)
    requires AllFit(fs) && FieldFits(f) && FieldBytes(f) == cut + lost && cut != [] && lost != []
    ensures Decoded(codec, FieldsBytes(fs) + cut).Err?
  {
    hide Decoded, FieldBytes, FieldFits;
    if Decoded(codec, FieldsBytes(fs) + cut).Ok? {
      var more := TailIsRun(codec, fs, cut);
      Assoc(FieldBytes(more[0]), FieldsBytes(more[1..]), lost);
      FieldAtExactly(cut + lost, more[0], FieldsBytes(more[1..]) + lost);
      assert cut + lost == FieldBytes(f) + [];
      FieldAtExactly(cut + lost, f, []);
    }
  }
}
