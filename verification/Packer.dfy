/**
 The Tier-A carrier payload: tagged binary encoding, decoding, and the byte budget (crates/tier_a/src/packer.rs,
 payload.rs). The product identifier stays abstract: it is anything that can be printed and parsed.
 */
module Packer {
  import opened Wrappers
  import opened ByteCodec
  import opened Hashing
  import opened CanonicalCodec
  import opened Timestamps
  import opened Identifiers
  import opened Tokens
  import Qr
  import Utf8

  datatype Payload<P> = Payload(
    productId: P,
    resolverUri: string,
    passportId: PassportId,
    eoId: string,
    status: Status,
    safety: SafetyFlag,
    validity: Interval,
    asOf: Timestamp,
    logHead: Option<Digest>,
    signatures: seq<SigSlot>)

  /** How product identifiers are displayed and parsed. */
  datatype ProductCodec<!P> = ProductCodec(show: P -> string, parse: string -> Option<P>)

  datatype TierAError =
    | OverBudget(projected: nat, capacity: nat, ec: Qr.EcLevel, maxVersion: nat)
    | Decode
    | Encode
    | Model

  const PRODUCT_ID: byte := 0x01
  const RESOLVER_URI: byte := 0x02
  const PASSPORT_ID: byte := 0x03
  const EO_ID: byte := 0x04
  const STATUS: byte := 0x05
  const SAFETY: byte := 0x06
  const VALIDITY_FROM: byte := 0x07
  const VALIDITY_TO: byte := 0x08
  const AS_OF: byte := 0x09
  const LOG_HEAD: byte := 0x0A
  const SIG_COUNT: byte := 0x0B
  const SIG_SLOT: byte := 0x0C

  /** The length that marks a slot without a signature. */
  const PLACEHOLDER: nat := 0xFFFF

  // ----- encoding

  /** One tagged field of the stream. */
  datatype Field =
    | Text(tag: byte, text: string)
    | OptText(tag: byte, optText: Option<string>)
    | OptDigest(tag: byte, digest: Option<Digest>)
    | Slots(slots: seq<SigSlot>)

  function SlotBytes(s: SigSlot): bytes {
    [SIG_SLOT] + ([SuiteCode(s.suite)] + (Frame(Utf8.Encode(s.keyId), 4) +
      match s.signature
      case Some(sig) => LeBytes(|sig|, 2) + sig
      case None => LeBytes(PLACEHOLDER, 2)))
  }

  function SlotsBytes(slots: seq<SigSlot>): bytes {
    if slots == [] then [] else SlotsBytes(slots[..|slots| - 1]) + SlotBytes(slots[|slots| - 1])
  }

  function FieldBytes(f: Field): bytes {
    match f
    case Text(tag, s) => [tag] + Frame(Utf8.Encode(s), 4)
    case OptText(tag, s) => [tag] + OptStr(s)
    case OptDigest(tag, h) => [tag] + OptHash(h)
    case Slots(slots) => [SIG_COUNT] + ([if |slots| < 256 then |slots| else 255] + SlotsBytes(slots))
  }

  function FieldsBytes(fs: seq<Field>): bytes {
    if fs == [] then [] else FieldBytes(fs[0]) + FieldsBytes(fs[1..])
  }

  function PrintTo(t: Option<Timestamp>): Option<string> {
    if t.Some? then Some(Print(t.value)) else None
  }

  /** Only the first 255 slots are encoded. */
  function Kept(slots: seq<SigSlot>): seq<SigSlot> {
    if |slots| <= 255 then slots else slots[..255]
  }

  /** Everything before the signature slots. */
  function Header<P>(codec: ProductCodec<P>, p: Payload<P>): seq<Field> {
    [ Text(PRODUCT_ID, codec.show(p.productId)),
      Text(RESOLVER_URI, p.resolverUri),
      Text(PASSPORT_ID, p.passportId),
      Text(EO_ID, p.eoId),
      Text(STATUS, StatusToken(p.status)),
      Text(SAFETY, SafetyToken(p.safety)),
      Text(VALIDITY_FROM, Print(p.validity.from)),
      OptText(VALIDITY_TO, PrintTo(p.validity.to)),
      Text(AS_OF, Print(p.asOf)),
      OptDigest(LOG_HEAD, p.logHead) ]
  }

  function Encoding<P>(codec: ProductCodec<P>, p: Payload<P>): bytes {
    FieldsBytes(Header(codec, p)) + FieldBytes(Slots(Kept(p.signatures)))
  }

  predicate Framed(s: SigSlot) {
    s.signature.Some? ==> |s.signature.value| <= 65_535
  }

  predicate AllFramed(slots: seq<SigSlot>) {
    forall i :: 0 <= i < |slots| ==> Framed(slots[i])
  }

  /** The bytes that the placeholders reserve without emitting them. */
  function Reserved(slots: seq<SigSlot>): nat {
    if slots == [] then 0 else
      var last := slots[|slots| - 1];
      Reserved(slots[..|slots| - 1]) + if last.signature.None? then SignatureLength(last.suite) else 0
  }

  function Encoded<P>(codec: ProductCodec<P>, p: Payload<P>): Result<(bytes, nat), TierAError> {
    if !AllFramed(Kept(p.signatures)) then Err(Encode) else
      Ok((Encoding(codec, p), |Encoding(codec, p)| + Reserved(Kept(p.signatures))))
  }

  lemma {:induction false} FieldsSnoc(fs: seq<Field>, f: Field)
    ensures FieldsBytes(fs + [f]) == FieldsBytes(fs) + FieldBytes(f)
  {
    hide FieldBytes;
    if fs == [] {
      assert fs + [f] == [f] && [f][1..] == [];
      assert FieldsBytes([]) == [];
    } else {
      FieldsSnoc(fs[1..], f);
      assert (fs + [f])[1..] == fs[1..] + [f];
      Assoc(FieldBytes(fs[0]), FieldsBytes(fs[1..]), FieldBytes(f));
    }
  }

  method WriteText(w: CanonicalWriter, tag: byte, text: string, ghost before: seq<Field>)
    requires w.buf == FieldsBytes(before)
    modifies w
    ensures w.buf == FieldsBytes(before + [Text(tag, text)])
  {
    hide FieldsBytes;
    FieldsSnoc(before, Text(tag, text));
    w.WriteTag(tag);
    w.WriteStr(text);
  }

  method EncodePayload<P>(codec: ProductCodec<P>, p: Payload<P>) returns (r: Result<(bytes, nat), TierAError>)
    ensures r == Encoded(codec, p)
  {
    hide Header, FieldsBytes, FieldBytes, Kept, AllFramed, Reserved;
    var w := new CanonicalWriter();
    EncodeHeader(w, codec, p);
    r := EncodeSlots(w, p.signatures);
  }

  method EncodeHeader<P>(w: CanonicalWriter, codec: ProductCodec<P>, p: Payload<P>)
    requires w.buf == []
    modifies w
    ensures w.buf == FieldsBytes(Header(codec, p))
  {
    ghost var h := Header(codec, p);
    assert h[..10] == h;
    hide FieldsBytes, FieldBytes, Header;
    EncodeNames(w, codec, p);
    EncodeStates(w, codec, p);
  }

  method EncodeNames<P>(w: CanonicalWriter, codec: ProductCodec<P>, p: Payload<P>)
    requires w.buf == []
    modifies w
    ensures w.buf == FieldsBytes(Header(codec, p)[..5])
  {
    hide Print, StatusToken, SafetyToken, FieldBytes;
    ghost var h := Header(codec, p);
    assert w.buf == FieldsBytes([]);
    hide FieldsBytes;
    WriteText(w, PRODUCT_ID, codec.show(p.productId), []);
    assert [] + [h[0]] == h[..1];
    WriteText(w, RESOLVER_URI, p.resolverUri, h[..1]);
    assert h[..1] + [h[1]] == h[..2];
    WriteText(w, PASSPORT_ID, p.passportId, h[..2]);
    assert h[..2] + [h[2]] == h[..3];
    WriteText(w, EO_ID, p.eoId, h[..3]);
    assert h[..3] + [h[3]] == h[..4];
    WriteText(w, STATUS, StatusToken(p.status), h[..4]);
    assert h[..4] + [h[4]] == h[..5];
  }

  method EncodeStates<P>(w: CanonicalWriter, codec: ProductCodec<P>, p: Payload<P>)
    requires w.buf == FieldsBytes(Header(codec, p)[..5])
    modifies w
    ensures w.buf == FieldsBytes(Header(codec, p)[..10])
  {
    hide Print, StatusToken, SafetyToken, FieldBytes, FieldsBytes;
    ghost var h := Header(codec, p);
    WriteText(w, SAFETY, SafetyToken(p.safety), h[..5]);
    assert h[..5] + [h[5]] == h[..6];
    WriteText(w, VALIDITY_FROM, Print(p.validity.from), h[..6]);
    assert h[..6] + [h[6]] == h[..7];
    WriteOptional(w, p, h[..7]);
    assert h[..7] + [h[7]] == h[..8];
    WriteText(w, AS_OF, Print(p.asOf), h[..8]);
    assert h[..8] + [h[8]] == h[..9];
    WriteLogHead(w, p.logHead, h[..9]);
    assert h[..9] + [h[9]] == h[..10];
  }

  method WriteOptional<P>(w: CanonicalWriter, p: Payload<P>, ghost before: seq<Field>)
    requires w.buf == FieldsBytes(before)
    modifies w
    ensures w.buf == FieldsBytes(before + [OptText(VALIDITY_TO, PrintTo(p.validity.to))])
  {
    hide FieldsBytes, Print;
    FieldsSnoc(before, OptText(VALIDITY_TO, PrintTo(p.validity.to)));
    w.WriteTag(VALIDITY_TO);
    w.WriteOptStr(PrintTo(p.validity.to));
  }

  method WriteLogHead(w: CanonicalWriter, head: Option<Digest>, ghost before: seq<Field>)
    requires w.buf == FieldsBytes(before)
    modifies w
    ensures w.buf == FieldsBytes(before + [OptDigest(LOG_HEAD, head)])
  {
    hide FieldsBytes;
    FieldsSnoc(before, OptDigest(LOG_HEAD, head));
    w.WriteTag(LOG_HEAD);
    w.WriteOptHash(head);
  }

  lemma {:induction false} SlotsStep(slots: seq<SigSlot>, i: nat)
    requires i < |slots|
    ensures SlotsBytes(slots[..i + 1]) == SlotsBytes(slots[..i]) + SlotBytes(slots[i])
    ensures AllFramed(slots[..i + 1]) <==> AllFramed(slots[..i]) && Framed(slots[i])
    ensures Reserved(slots[..i + 1]) ==
            Reserved(slots[..i]) + if slots[i].signature.None? then SignatureLength(slots[i].suite) else 0
  {
    hide SlotBytes, Framed;
    assert slots[..i + 1][..i] == slots[..i] && slots[..i + 1][i] == slots[i];
  }

  lemma {:induction false} NotAllFramed(slots: seq<SigSlot>, i: nat)
    requires i < |slots| && !Framed(slots[i])
    ensures !AllFramed(slots)
  {}

  lemma {:induction false} NoSlots()
    ensures SlotsBytes([]) == [] && AllFramed([]) && Reserved([]) == 0
  {}

  /** The loop over the slots; it stops at the first signature too long to frame. */
  method EncodeSlots(w: CanonicalWriter, signatures: seq<SigSlot>) returns (r: Result<(bytes, nat), TierAError>)
    modifies w
    ensures var all := old(w.buf) + FieldBytes(Slots(Kept(signatures)));
      r == if AllFramed(Kept(signatures)) then Ok((all, |all| + Reserved(Kept(signatures)))) else Err(Encode)
  {
    hide SlotBytes, SlotsBytes, Reserved, AllFramed, Utf8.Encode, Frame, LeBytes;
    var slots := Kept(signatures);
    ghost var start := w.buf;
    w.WriteTag(SIG_COUNT);
    w.WriteTag(if |signatures| < 255 then |signatures| else 255);
    ghost var head := w.buf;
    var extra := 0;
    NoSlots();
    for i := 0 to |slots|
      invariant w.buf == head + SlotsBytes(slots[..i])
      invariant extra == Reserved(slots[..i]) && AllFramed(slots[..i])
    {
      SlotsStep(slots, i);
      if slots[i].signature.Some? && |slots[i].signature.value| > 65_535 {
        NotAllFramed(slots, i);
        return Err(Encode);
      }
      WriteSlot(w, slots[i]);
      Assoc(head, SlotsBytes(slots[..i]), SlotBytes(slots[i]));
      if slots[i].signature.None? {
        extra := extra + SignatureLength(slots[i].suite);
      }
    }
    assert slots[..|slots|] == slots;
    assert w.buf == start + FieldBytes(Slots(slots));
    return Ok((w.buf, |w.buf| + extra));
  }

  method WriteSlot(w: CanonicalWriter, slot: SigSlot)
    requires Framed(slot)
    modifies w
    ensures w.buf == old(w.buf) + SlotBytes(slot)
  {
    hide Utf8.Encode, Frame, LeBytes, SuiteCode;
    ghost var start, key := w.buf, Frame(Utf8.Encode(slot.keyId), 4);
    w.WriteTag(SIG_SLOT);
    w.WriteTag(SuiteCode(slot.suite));
    w.WriteBytes(Utf8.Encode(slot.keyId));
    ghost var tail;
    match slot.signature {
      case Some(sig) =>
        tail := LeBytes(|sig|, 2) + sig;
        w.WriteU16(|sig|);
        w.WriteBytesRaw(sig);
      case None =>
        tail := LeBytes(PLACEHOLDER, 2);
        w.WriteU16(PLACEHOLDER);
    }
    assert w.buf == start + [SIG_SLOT] + [SuiteCode(slot.suite)] + key + tail;
    assert w.buf == start + ([SIG_SLOT] + ([SuiteCode(slot.suite)] + (key + tail)));
  }

  // ----- decoding

  /** The decoder's local variables. */
  datatype Partial<P> = Partial(
    productId: Option<P>,
    resolverUri: Option<string>,
    passportId: Option<PassportId>,
    eoId: Option<string>,
    status: Option<Status>,
    safety: Option<SafetyFlag>,
    from: Option<Timestamp>,
    to: Option<Timestamp>,
    asOf: Option<Timestamp>,
    logHead: Option<Digest>,
    signatures: seq<SigSlot>)

  function Nothing<P>(): Partial<P> {
    Partial(None, None, None, None, None, None, None, None, None, None, [])
  }

  /** A parsed text goes into its variable; a tag of no text field leaves all as it was. */
  function PutText<P>(codec: ProductCodec<P>, acc: Partial<P>, tag: byte, s: string): Result<Partial<P>, TierAError> {
    if tag == PRODUCT_ID then
      match codec.parse(s) { case Some(v) => Ok(acc.(productId := Some(v))) case None => Err(Model) }
    else if tag == RESOLVER_URI then Ok(acc.(resolverUri := Some(s)))
    else if tag == PASSPORT_ID then
      match NewPassportId(s) { case Ok(v) => Ok(acc.(passportId := Some(v))) case Err(_) => Err(Model) }
    else if tag == EO_ID then Ok(acc.(eoId := Some(s)))
    else if tag == STATUS then
      match ParseStatus(s) { case Some(v) => Ok(acc.(status := Some(v))) case None => Err(Decode) }
    else if tag == SAFETY then
      match ParseSafety(s) { case Some(v) => Ok(acc.(safety := Some(v))) case None => Err(Decode) }
    else if tag == VALIDITY_FROM then
      match Parse(s) { case Ok(v) => Ok(acc.(from := Some(v))) case Err(_) => Err(Model) }
    else if tag == VALIDITY_TO then
      match Parse(s) { case Ok(v) => Ok(acc.(to := Some(v))) case Err(_) => Err(Model) }
    else
      match Parse(s) { case Ok(v) => Ok(acc.(asOf := Some(v))) case Err(_) => Err(Model) }
  }

  predicate IsTextTag(tag: byte) {
    1 <= tag <= 9 && tag != VALIDITY_TO
  }

  /** One slot, and the bytes behind it. */
  function ReadSlot(rest: bytes): (r: Result<(SigSlot, bytes), TierAError>)
    ensures r.Ok? ==> |r.value.1| <= |rest|
  {
    var (tag, r1) := ReadTag(rest);
    if tag.Err? || tag.value != SIG_SLOT then Err(Decode) else
      var (code, r2) := ReadTag(r1);
      if code.Err? then Err(Model)
      else if SuiteOfCode(code.value).None? then Err(Decode) else
        var (key, r3) := ReadBytes(r2);
        if key.Err? then Err(Model)
        else if Utf8.Decode(key.value).None? then Err(Decode) else
          var (len, r4) := ReadUint(r3, 2);
          if len.Err? then Err(Model) else
            var suite, keyId := SuiteOfCode(code.value).value, Utf8.Decode(key.value).value;
            if len.value == PLACEHOLDER then Ok((SigSlot(suite, keyId, None), r4)) else
              var (sig, r5) := Take(r4, len.value);
              if sig.Err? then Err(Decode) else Ok((SigSlot(suite, keyId, Some(sig.value)), r5))
  }

  function ReadSlots(slots: seq<SigSlot>, rest: bytes, n: nat): (r: Result<(seq<SigSlot>, bytes), TierAError>)
    ensures r.Ok? ==> |r.value.1| <= |rest|
    decreases n
  {
    if n == 0 then Ok((slots, rest)) else
      var one := ReadSlot(rest);
      if one.Err? then Err(one.error) else ReadSlots(slots + [one.value.0], one.value.1, n - 1)
  }

  /** What the loop body does with the field behind a tag. */
  function ReadField<P>(codec: ProductCodec<P>, acc: Partial<P>, tag: byte, rest: bytes)
    : (r: Result<(Partial<P>, bytes), TierAError>)
    ensures r.Ok? ==> |r.value.1| <= |rest|
  {
    if IsTextTag(tag) then
      var (s, left) := ReadStr(rest);
      if s.Err? then Err(Model) else
        var next := PutText(codec, acc, tag, s.value);
        if next.Err? then Err(next.error) else Ok((next.value, left))
    else if tag == VALIDITY_TO then
      var (s, left) := ReadOptStr(rest);
      if s.Err? then Err(Model)
      else if s.value.None? then Ok((acc, left)) else
        var next := PutText(codec, acc, tag, s.value.value);
        if next.Err? then Err(next.error) else Ok((next.value, left))
    else if tag == LOG_HEAD then
      var (h, left) := ReadOptHash(rest);
      if h.Err? then Err(Model) else Ok((acc.(logHead := h.value), left))
    else if tag == SIG_COUNT then
      var (n, left) := ReadTag(rest);
      if n.Err? then Err(Model) else
        var slots := ReadSlots(acc.signatures, left, n.value);
        if slots.Err? then Err(slots.error) else Ok((acc.(signatures := slots.value.0), slots.value.1))
    else Err(Decode)
  }

  /** The loop: fields until no byte remains. */
  function ReadFields<P>(codec: ProductCodec<P>, acc: Partial<P>, rest: bytes): Result<Partial<P>, TierAError>
    decreases |rest|
  {
    if rest == [] then Ok(acc) else
      var (tag, left) := ReadTag(rest);
      if tag.Err? then Err(Model) else
        var next := ReadField(codec, acc, tag.value, left);
        if next.Err? then Err(next.error) else ReadFields(codec, next.value.0, next.value.1)
  }

  function Finish<P>(acc: Partial<P>): Result<Payload<P>, TierAError> {
    if acc.productId.None? || acc.resolverUri.None? || acc.passportId.None? || acc.eoId.None? || acc.status.None?
       || acc.safety.None? || acc.from.None? || acc.asOf.None? then Err(Decode)
    else
      Ok(Payload(acc.productId.value, acc.resolverUri.value, acc.passportId.value, acc.eoId.value, acc.status.value,
                 acc.safety.value, Interval(acc.from.value, acc.to), acc.asOf.value, acc.logHead, acc.signatures))
  }

  function Decoded<P>(codec: ProductCodec<P>, b: bytes): Result<Payload<P>, TierAError> {
    var acc := ReadFields(codec, Nothing(), b);
    if acc.Err? then Err(acc.error) else Finish(acc.value)
  }

  method DecodePayload<P>(codec: ProductCodec<P>, b: bytes) returns (r: Result<Payload<P>, TierAError>)
    ensures r == Decoded(codec, b)
  {
    hide ReadField, Finish;
    var reader := new CanonicalReader(b);
    var acc := Nothing<P>();
    while reader.Remaining() > 0
      invariant reader.Valid() && fresh(reader)
      invariant ReadFields(codec, acc, reader.Rest()) == ReadFields(codec, Nothing(), b)
      decreases reader.Remaining()
    {
      var tag := reader.Tag();
      if tag.Err? {
        return Err(Model);
      }
      var next := DecodeField(codec, reader, acc, tag.value);
      if next.Err? {
        return Err(next.error);
      }
      acc := next.value;
    }
    assert reader.Rest() == [];
    return Finish(acc);
  }

  method DecodeField<P>(codec: ProductCodec<P>, reader: CanonicalReader, acc: Partial<P>, tag: byte)
    returns (r: Result<Partial<P>, TierAError>)
    requires reader.Valid()
    modifies reader
    ensures reader.Valid()
    ensures var due := ReadField(codec, acc, tag, old(reader.Rest()));
      && r.Ok? == due.Ok? && (r.Err? ==> r.error == due.error)
      && (r.Ok? ==> r.value == due.value.0 && reader.Rest() == due.value.1)
  {
    hide PutText, ReadStr, ReadOptStr, ReadOptHash, ReadTag, ReadSlots;
    if IsTextTag(tag) {
      var s := reader.Str();
      if s.Err? {
        return Err(Model);
      }
      return PutText(codec, acc, tag, s.value);
    } else if tag == VALIDITY_TO {
      var s := reader.OptStr();
      if s.Err? {
        return Err(Model);
      }
      if s.value.None? {
        return Ok(acc);
      }
      return PutText(codec, acc, tag, s.value.value);
    } else if tag == LOG_HEAD {
      var h := reader.OptHash();
      if h.Err? {
        return Err(Model);
      }
      return Ok(acc.(logHead := h.value));
    } else if tag == SIG_COUNT {
      var n := reader.Tag();
      if n.Err? {
        return Err(Model);
      }
      var slots := DecodeSlots(reader, acc.signatures, n.value);
      if slots.Err? {
        return Err(slots.error);
      }
      return Ok(acc.(signatures := slots.value));
    } else {
      return Err(Decode);
    }
  }

  method DecodeSlots(reader: CanonicalReader, before: seq<SigSlot>, n: nat) returns (r: Result<seq<SigSlot>, TierAError>)
    requires reader.Valid()
    modifies reader
    ensures reader.Valid()
    ensures var due := ReadSlots(before, old(reader.Rest()), n);
      && r.Ok? == due.Ok? && (r.Err? ==> r.error == due.error)
      && (r.Ok? ==> r.value == due.value.0 && reader.Rest() == due.value.1)
  {
    hide ReadSlot;
    var slots := before;
    ghost var due := ReadSlots(before, reader.Rest(), n);
    for i := 0 to n
      invariant reader.Valid() && ReadSlots(slots, reader.Rest(), n - i) == due
    {
      var slot := DecodeSlot(reader);
      if slot.Err? {
        return Err(slot.error);
      }
      slots := slots + [slot.value];
    }
    return Ok(slots);
  }

  method DecodeSlot(reader: CanonicalReader) returns (r: Result<SigSlot, TierAError>)
    requires reader.Valid()
    modifies reader
    ensures reader.Valid()
    ensures var due := ReadSlot(old(reader.Rest()));
      && r.Ok? == due.Ok? && (r.Err? ==> r.error == due.error)
      && (r.Ok? ==> r.value == due.value.0 && reader.Rest() == due.value.1)
  {
    hide ReadTag, ReadBytes, ReadUint, Take, Utf8.Decode;
    var tag := reader.Tag();
    if tag.Err? || tag.value != SIG_SLOT {
      return Err(Decode);
    }
    var code := reader.Tag();
    if code.Err? {
      return Err(Model);
    }
    var suite := SuiteOfCode(code.value);
    if suite.None? {
      return Err(Decode);
    }
    var key := reader.Bytes();
    if key.Err? {
      return Err(Model);
    }
    var keyId := Utf8.Decode(key.value);
    if keyId.None? {
      return Err(Decode);
    }
    var len := reader.Uint(2);
    if len.Err? {
      return Err(Model);
    }
    if len.value == PLACEHOLDER {
      return Ok(SigSlot(suite.value, keyId.value, None));
    }
    var sig := reader.TakeBytes(len.value);
    if sig.Err? {
      return Err(Decode);
    }
    return Ok(SigSlot(suite.value, keyId.value, Some(sig.value)));
  }

  // ----- what is written reads back

  const LIMIT: nat := 0x1_0000_0000

  predicate TextFits(s: string) {
    |Utf8.Encode(s)| < LIMIT
  }

  /** A slot that reads back: its signature is not as long as the placeholder mark says. */
  predicate SlotReadsBack(s: SigSlot) {
    s.signature.Some? ==> |s.signature.value| < PLACEHOLDER
  }

  predicate SlotsReadBack(slots: seq<SigSlot>) {
    forall i :: 0 <= i < |slots| ==> SlotReadsBack(slots[i])
  }

  predicate KeysFit(slots: seq<SigSlot>) {
    forall i :: 0 <= i < |slots| ==> TextFits(slots[i].keyId)
  }

  predicate FieldFits(f: Field) {
    match f
    case Text(tag, s) => IsTextTag(tag) && TextFits(s)
    case OptText(tag, s) => tag == VALIDITY_TO && (s.Some? ==> TextFits(s.value))
    case OptDigest(tag, h) => tag == LOG_HEAD
    case Slots(slots) => |slots| <= 255 && KeysFit(slots) && SlotsReadBack(slots)
  }

  /** What reading a field back does to the decoder's variables. */
  function Apply<P>(codec: ProductCodec<P>, acc: Partial<P>, f: Field): Result<Partial<P>, TierAError> {
    match f
    case Text(tag, s) => PutText(codec, acc, tag, s)
    case OptText(tag, s) => if s.None? then Ok(acc) else PutText(codec, acc, tag, s.value)
    case OptDigest(tag, h) => Ok(acc.(logHead := h))
    case Slots(slots) => Ok(acc.(signatures := acc.signatures + slots))
  }

  function ApplyAll<P>(codec: ProductCodec<P>, acc: Partial<P>, fs: seq<Field>): Result<Partial<P>, TierAError>
    decreases |fs|
  {
    if fs == [] then Ok(acc) else
      var next := Apply(codec, acc, fs[0]);
      if next.Err? then Err(next.error) else ApplyAll(codec, next.value, fs[1..])
  }

  /** Up to and including the key: the slot is read as far as its length. */
  lemma {:induction false} SlotHead(s: SigSlot, len: nat, rest: bytes)
    requires TextFits(s.keyId) && len <= PLACEHOLDER
    ensures var b := [SIG_SLOT] + ([SuiteCode(s.suite)] + (Frame(Utf8.Encode(s.keyId), 4) + (LeBytes(len, 2) + rest)));
      ReadSlot(b) ==
        if len == PLACEHOLDER then Ok((SigSlot(s.suite, s.keyId, None), rest)) else
          var (sig, left) := Take(rest, len);
          if sig.Err? then Err(Decode) else Ok((SigSlot(s.suite, s.keyId, Some(sig.value)), left))
  {
    hide ReadTag, ReadBytes, ReadUint, Take, Utf8.Decode, Utf8.Encode, Frame, LeBytes, SuiteCode;
    var key := Utf8.Encode(s.keyId);
    var r3 := LeBytes(len, 2) + rest;
    var r2 := Frame(key, 4) + r3;
    TagReadsBack(SIG_SLOT, [SuiteCode(s.suite)] + r2);
    TagReadsBack(SuiteCode(s.suite), r2);
    SuiteReadsBack(s.suite);
    BytesReadBack(key, r3);
    Utf8.DecodeEncode(s.keyId);
    PowersOf256();
    UintReadsBack(len, 2, rest);
  }

  lemma {:induction false} SuiteReadsBack(s: Suite)
    ensures SuiteOfCode(SuiteCode(s)) == Some(s)
  {}

  lemma {:induction false} SlotShape(s: SigSlot, rest: bytes)
    ensures var len := if s.signature.Some? then |s.signature.value| else PLACEHOLDER;
      var sig := if s.signature.Some? then s.signature.value else [];
      SlotBytes(s) + rest ==
        [SIG_SLOT] + ([SuiteCode(s.suite)] + (Frame(Utf8.Encode(s.keyId), 4) + (LeBytes(len, 2) + (sig + rest))))
  {
    hide Utf8.Encode, Frame, LeBytes, SuiteCode;
    var k := Frame(Utf8.Encode(s.keyId), 4);
    var tail := if s.signature.Some? then LeBytes(|s.signature.value|, 2) + s.signature.value else LeBytes(PLACEHOLDER, 2);
    Assoc([SIG_SLOT], [SuiteCode(s.suite)] + (k + tail), rest);
    Assoc([SuiteCode(s.suite)], k + tail, rest);
    Assoc(k, tail, rest);
    if s.signature.Some? {
      Assoc(LeBytes(|s.signature.value|, 2), s.signature.value, rest);
    } else {
      assert [] + rest == rest;
    }
  }

  /** A slot reads back, unless its signature has 65535 bytes: then it reads as a placeholder. */
  lemma {:induction false} ReadSlotBack(s: SigSlot, rest: bytes)
    requires TextFits(s.keyId) && Framed(s)
    ensures SlotReadsBack(s) ==> ReadSlot(SlotBytes(s) + rest) == Ok((s, rest))
    ensures !SlotReadsBack(s) ==>
              ReadSlot(SlotBytes(s) + rest) == Ok((SigSlot(s.suite, s.keyId, None), s.signature.value + rest))
  {
    hide ReadSlot, SlotBytes, Utf8.Encode, Frame, LeBytes, SuiteCode;
    SlotShape(s, rest);
    match s.signature
    case Some(sig) =>
      SlotHead(s, |sig|, sig + rest);
      TakeWritten(sig, rest);
    case None =>
      SlotHead(s, PLACEHOLDER, [] + rest);
      assert [] + rest == rest;
  }

  lemma {:induction false} ReadSlotsBack(before: seq<SigSlot>, slots: seq<SigSlot>, rest: bytes, more: nat)
    requires KeysFit(slots) && SlotsReadBack(slots)
    ensures ReadSlots(before, SlotsBytes(slots) + rest, |slots| + more) == ReadSlots(before + slots, rest, more)
    decreases |slots|
  {
    hide ReadSlot, SlotBytes;
    if slots == [] {
      assert [] + rest == rest && before + slots == before;
    } else {
      var init, last := slots[..|slots| - 1], slots[|slots| - 1];
      Assoc(SlotsBytes(init), SlotBytes(last), rest);
      ReadSlotsBack(before, init, SlotBytes(last) + rest, more + 1);
      ReadSlotBack(last, rest);
      assert (before + init) + [last] == before + slots;
    }
  }

  /** One turn of the decoding loop undoes one field. */
  lemma {:induction false} ReadFieldBack<P>(codec: ProductCodec<P>, acc: Partial<P>, f: Field, rest: bytes)
    requires FieldFits(f)
    ensures var next := Apply(codec, acc, f);
      ReadFields(codec, acc, FieldBytes(f) + rest)
      == if next.Err? then Err(next.error) else ReadFields(codec, next.value, rest)
  {
    hide ReadStr, ReadOptStr, ReadOptHash, ReadTag, ReadSlots, PutText, OptStr, OptHash, SlotsBytes, Utf8.Encode, Frame,
      KeysFit, SlotsReadBack;
    match f
    case Text(tag, s) =>
      Assoc([tag], Frame(Utf8.Encode(s), 4), rest);
      TagReadsBack(tag, Frame(Utf8.Encode(s), 4) + rest);
      StrReadsBack(s, rest);
    case OptText(tag, s) =>
      Assoc([tag], OptStr(s), rest);
      TagReadsBack(tag, OptStr(s) + rest);
      OptStrReadsBack(s, rest);
    case OptDigest(tag, h) =>
      Assoc([tag], OptHash(h), rest);
      TagReadsBack(tag, OptHash(h) + rest);
      OptHashReadsBack(h, rest);
    case Slots(slots) =>
      Assoc([SIG_COUNT], [|slots|] + SlotsBytes(slots), rest);
      Assoc([|slots|], SlotsBytes(slots), rest);
      TagReadsBack(SIG_COUNT, [|slots|] + (SlotsBytes(slots) + rest));
      TagReadsBack(|slots|, SlotsBytes(slots) + rest);
      ReadSlotsBack(acc.signatures, slots, rest, 0);
      NoMoreSlots(acc.signatures + slots, rest);
  }

  lemma {:induction false} NoMoreSlots(slots: seq<SigSlot>, rest: bytes)
    ensures ReadSlots(slots, rest, 0) == Ok((slots, rest))
  {}

  lemma {:induction false} ReadFieldsBack<P>(codec: ProductCodec<P>, acc: Partial<P>, fs: seq<Field>, rest: bytes)
    requires forall i :: 0 <= i < |fs| ==> FieldFits(fs[i])
    ensures var next := ApplyAll(codec, acc, fs);
      ReadFields(codec, acc, FieldsBytes(fs) + rest)
      == if next.Err? then Err(next.error) else ReadFields(codec, next.value, rest)
    decreases |fs|
  {
    hide ReadFields, FieldBytes, Apply, FieldFits;
    if fs == [] {
      assert FieldsBytes(fs) + rest == rest;
    } else {
      Assoc(FieldBytes(fs[0]), FieldsBytes(fs[1..]), rest);
      ReadFieldBack(codec, acc, fs[0], FieldsBytes(fs[1..]) + rest);
      var next := Apply(codec, acc, fs[0]);
      if next.Ok? {
        ReadFieldsBack(codec, next.value, fs[1..], rest);
      }
    }
  }

  // ----- the header

  function ParseTo(t: Option<Timestamp>): Result<Option<Timestamp>, string> {
    match t
    case None => Ok(None)
    case Some(v) =>
      var parsed := Parse(Print(v));
      if parsed.Err? then Err(parsed.error) else Ok(Some(parsed.value))
  }

  /** The header reads back field by field; only the product and the times may come back different. */
  lemma {:induction false} HeaderReadsBack<P>(codec: ProductCodec<P>, p: Payload<P>)
    ensures var id, from, to, asOf :=
                codec.parse(codec.show(p.productId)), Parse(Print(p.validity.from)), ParseTo(p.validity.to),
                Parse(Print(p.asOf));
      ApplyAll(codec, Nothing(), Header(codec, p)) ==
        if id.None? || from.Err? || to.Err? || asOf.Err? then Err(Model)
        else Ok(Partial(id, Some(p.resolverUri), Some(p.passportId), Some(p.eoId), Some(p.status), Some(p.safety),
                        Some(from.value), to.value, Some(asOf.value), p.logHead, []))
  {
    hide Parse, Print, ApplyAll, PutText, StatusToken, SafetyToken;
    var h := Header(codec, p);
    ApplyStep(codec, Nothing(), h, 0);
    PutProduct(codec, Nothing(), codec.show(p.productId));
    var id := codec.parse(codec.show(p.productId));
    if id.Some? {
      var acc := Nothing<P>().(productId := id);
      NamesReadBack(codec, acc, p);
      TimesReadBack(codec, acc.(resolverUri := Some(p.resolverUri), passportId := Some(p.passportId), eoId := Some(p.eoId),
                                status := Some(p.status), safety := Some(p.safety)), p);
    }
    assert h[0..] == h;
  }

  lemma {:induction false} PutProduct<P>(codec: ProductCodec<P>, acc: Partial<P>, s: string)
    ensures PutText(codec, acc, PRODUCT_ID, s) ==
      if codec.parse(s).None? then Err(Model) else Ok(acc.(productId := codec.parse(s)))
  {}

  lemma {:induction false} NamesReadBack<P>(codec: ProductCodec<P>, acc: Partial<P>, p: Payload<P>)
    ensures var h := Header(codec, p);
      ApplyAll(codec, acc, h[1..]) ==
        ApplyAll(codec, acc.(resolverUri := Some(p.resolverUri), passportId := Some(p.passportId), eoId := Some(p.eoId),
                             status := Some(p.status), safety := Some(p.safety)), h[6..])
  {
    hide Parse, Print, ApplyAll, ParseStatus, ParseSafety, StatusToken, SafetyToken, NewPassportId;
    var h := Header(codec, p);
    PassportIdReadsBack(p.passportId);
    StatusReadsBack(p.status);
    SafetyReadsBack(p.safety);
    ApplyStep(codec, acc, h, 1);
    var a2 := acc.(resolverUri := Some(p.resolverUri));
    ApplyStep(codec, a2, h, 2);
    var a3 := a2.(passportId := Some(p.passportId));
    ApplyStep(codec, a3, h, 3);
    var a4 := a3.(eoId := Some(p.eoId));
    ApplyStep(codec, a4, h, 4);
    var a5 := a4.(status := Some(p.status));
    ApplyStep(codec, a5, h, 5);
  }

  lemma {:induction false} TimesReadBack<P>(codec: ProductCodec<P>, acc: Partial<P>, p: Payload<P>)
    requires acc.to.None?
    ensures var from, to, asOf := Parse(Print(p.validity.from)), ParseTo(p.validity.to), Parse(Print(p.asOf));
      ApplyAll(codec, acc, Header(codec, p)[6..]) ==
        if from.Err? || to.Err? || asOf.Err? then Err(Model)
        else Ok(acc.(from := Some(from.value), to := to.value, asOf := Some(asOf.value), logHead := p.logHead))
  {
    hide Parse, Print, ApplyAll, StatusToken, SafetyToken;
    var h := Header(codec, p);
    var from, to, asOf := Parse(Print(p.validity.from)), ParseTo(p.validity.to), Parse(Print(p.asOf));
    ApplyStep(codec, acc, h, 6);
    if from.Ok? {
      var a7 := acc.(from := Some(from.value));
      ApplyStep(codec, a7, h, 7);
      if to.Ok? {
        var a8 := a7.(to := to.value);
        ApplyStep(codec, a8, h, 8);
        if asOf.Ok? {
          var a9 := a8.(asOf := Some(asOf.value));
          ApplyStep(codec, a9, h, 9);
          ApplyNone(codec, a9.(logHead := p.logHead), h[10..]);
        }
      }
    }
  }

  lemma {:induction false} ApplyNone<P>(codec: ProductCodec<P>, acc: Partial<P>, fs: seq<Field>)
    requires fs == []
    ensures ApplyAll(codec, acc, fs) == Ok(acc)
  {}

  lemma {:induction false} ApplyStep<P>(codec: ProductCodec<P>, acc: Partial<P>, fs: seq<Field>, k: nat)
    requires k < |fs|
    ensures var next := Apply(codec, acc, fs[k]);
      ApplyAll(codec, acc, fs[k..]) == if next.Err? then Err(next.error) else ApplyAll(codec, next.value, fs[k + 1..])
  {
    hide Apply;
    assert fs[k..][0] == fs[k] && fs[k..][1..] == fs[k + 1..];
  }

  // ----- the round trip

  /** Every text of the payload fits a 32-bit length; those with a length of their own always do. */
  predicate TextsFit<P>(codec: ProductCodec<P>, p: Payload<P>) {
    && TextFits(codec.show(p.productId)) && TextFits(p.resolverUri) && TextFits(p.eoId) && KeysFit(p.signatures)
  }

  predicate TimesPrintable<P>(p: Payload<P>) {
    Printable(p.validity.from) && Printable(p.asOf) && (p.validity.to.Some? ==> Printable(p.validity.to.value))
  }

  predicate TimesFit<P>(p: Payload<P>) {
    && TextFits(Print(p.validity.from)) && TextFits(Print(p.asOf))
    && (p.validity.to.Some? ==> TextFits(Print(p.validity.to.value)))
  }

  lemma {:induction false} PrintableFits(t: Timestamp)
    requires Printable(t)
    ensures TextFits(Print(t))
  {
    hide Print, Printable, Utf8.Encode;
    PrintedLength(t);
    PrintedIsAscii(t);
    Utf8.EncodeAscii(Print(t));
  }

  lemma {:induction false} AsciiFits(s: string)
    requires Utf8.IsAscii(s) && |s| < LIMIT
    ensures TextFits(s)
  {
    Utf8.EncodeAscii(s);
  }

  lemma {:induction false} StatusFits(s: Status)
    ensures TextFits(StatusToken(s))
  {
    hide Utf8.Encode, TextFits;
    AsciiFits(StatusToken(s));
  }

  lemma {:induction false} SafetyFits(f: SafetyFlag)
    ensures TextFits(SafetyToken(f))
  {
    hide Utf8.Encode, TextFits;
    AsciiFits(SafetyToken(f));
  }

  lemma {:induction false} HeaderFits<P>(codec: ProductCodec<P>, p: Payload<P>)
    requires TextsFit(codec, p) && TimesFit(p)
    ensures var h := Header(codec, p); forall i :: 0 <= i < |h| ==> FieldFits(h[i])
  {
    hide TextFits, Print, StatusToken, SafetyToken, KeysFit;
    AsciiFits(p.passportId);
    StatusFits(p.status);
    SafetyFits(p.safety);
  }

  /** What decoding an encoded payload yields, when every slot kept reads back. */
  lemma {:induction false} DecodeOfEncoding<P>(codec: ProductCodec<P>, p: Payload<P>)
    requires TextsFit(codec, p) && TimesFit(p) && SlotsReadBack(Kept(p.signatures))
    ensures var id, from, to, asOf :=
                codec.parse(codec.show(p.productId)), Parse(Print(p.validity.from)), ParseTo(p.validity.to),
                Parse(Print(p.asOf));
      Decoded(codec, Encoding(codec, p)) ==
        if id.None? || from.Err? || to.Err? || asOf.Err? then Err(Model)
        else Ok(Payload(id.value, p.resolverUri, p.passportId, p.eoId, p.status, p.safety, Interval(from.value, to.value),
                        asOf.value, p.logHead, Kept(p.signatures)))
  {
    hide ReadFields, FieldBytes, FieldsBytes, FieldFits, ApplyAll, Header, TextsFit, TimesFit, SlotsReadBack, Print, Parse,
      ParseTo;
    var slots := Kept(p.signatures);
    HeaderFits(codec, p);
    ReadFieldsBack(codec, Nothing(), Header(codec, p), FieldBytes(Slots(slots)));
    HeaderReadsBack(codec, p);
    var acc := ApplyAll(codec, Nothing(), Header(codec, p));
    if acc.Ok? {
      KeptFits(codec, p);
      assert FieldBytes(Slots(slots)) + [] == FieldBytes(Slots(slots));
      ReadFieldBack(codec, acc.value, Slots(slots), []);
      NothingLeft(codec, acc.value.(signatures := acc.value.signatures + slots));
      assert [] + slots == slots;
    }
  }

  lemma {:induction false} NothingLeft<P>(codec: ProductCodec<P>, acc: Partial<P>)
    ensures ReadFields(codec, acc, []) == Ok(acc)
  {}

  lemma {:induction false} KeptFits<P>(codec: ProductCodec<P>, p: Payload<P>)
    requires TextsFit(codec, p) && SlotsReadBack(Kept(p.signatures))
    ensures FieldFits(Slots(Kept(p.signatures)))
  {
    hide TextFits;
  }

  lemma {:induction false} ReadsBackIsFramed(slots: seq<SigSlot>)
    requires SlotsReadBack(slots)
    ensures AllFramed(slots)
  {}

  /** Decoding what was encoded gives back the payload. */
  lemma {:induction false} DecodeEncode<P>(codec: ProductCodec<P>, p: Payload<P>)
    requires TextsFit(codec, p) && TimesPrintable(p) && codec.parse(codec.show(p.productId)) == Some(p.productId)
    requires |p.signatures| <= 255 && SlotsReadBack(p.signatures)
    ensures Encoded(codec, p).Ok? && Decoded(codec, Encoded(codec, p).value.0) == Ok(p)
  {
    hide Decoded, Encoding, TextsFit, SlotsReadBack, AllFramed, Print, Parse, Printable;
    PrintableFits(p.validity.from);
    PrintableFits(p.asOf);
    ParsePrint(p.validity.from);
    ParsePrint(p.asOf);
    if p.validity.to.Some? {
      PrintableFits(p.validity.to.value);
      ParsePrint(p.validity.to.value);
    }
    ReadsBackIsFramed(p.signatures);
    DecodeOfEncoding(codec, p);
  }

  // ----- exactly when the round trip holds

  lemma {:induction false} SlotsGrow(slots: seq<SigSlot>, rest: bytes, n: nat)
    ensures ReadSlots(slots, rest, n).Ok? ==> slots <= ReadSlots(slots, rest, n).value.0
    decreases n
  {
    hide ReadSlot;
    if n > 0 && ReadSlot(rest).Ok? {
      SlotsGrow(slots + [ReadSlot(rest).value.0], ReadSlot(rest).value.1, n - 1);
    }
  }

  /** No turn of the loop forgets a slot. */
  lemma {:induction false} ReadingKeepsSlots<P>(codec: ProductCodec<P>, acc: Partial<P>, rest: bytes)
    ensures ReadFields(codec, acc, rest).Ok? ==> acc.signatures <= ReadFields(codec, acc, rest).value.signatures
    decreases |rest|
  {
    hide ReadField, ReadSlots;
    if rest != [] {
      var (tag, left) := ReadTag(rest);
      if tag.Ok? {
        ReadFieldKeepsSlots(codec, acc, tag.value, left);
        var next := ReadField(codec, acc, tag.value, left);
        if next.Ok? {
          ReadingKeepsSlots(codec, next.value.0, next.value.1);
        }
      }
    }
  }

  lemma {:induction false} ReadFieldKeepsSlots<P>(codec: ProductCodec<P>, acc: Partial<P>, tag: byte, rest: bytes)
    ensures var r := ReadField(codec, acc, tag, rest); r.Ok? ==> acc.signatures <= r.value.0.signatures
  {
    hide ReadSlots, ReadStr, ReadOptStr, ReadOptHash, PutText;
    var (s, _) := ReadStr(rest);
    if s.Ok? {
      PutKeepsSlots(codec, acc, tag, s.value);
    }
    var (o, _) := ReadOptStr(rest);
    if o.Ok? && o.value.Some? {
      PutKeepsSlots(codec, acc, tag, o.value.value);
    }
    var (n, left) := ReadTag(rest);
    if n.Ok? {
      SlotsGrow(acc.signatures, left, n.value);
    }
  }

  lemma {:induction false} PutKeepsSlots<P>(codec: ProductCodec<P>, acc: Partial<P>, tag: byte, s: string)
    ensures var r := PutText(codec, acc, tag, s); r.Ok? ==> r.value.signatures == acc.signatures
  {
    hide Parse, NewPassportId, ParseStatus, ParseSafety;
  }

  lemma {:induction false} SlotsSplit(slots: seq<SigSlot>, k: nat) returns (tail: bytes)
    requires k < |slots|
    ensures SlotsBytes(slots) == SlotsBytes(slots[..k]) + (SlotBytes(slots[k]) + tail)
    decreases |slots|
  {
    hide SlotBytes;
    var last := |slots| - 1;
    if k == last {
      tail := [];
      assert SlotBytes(slots[k]) + [] == SlotBytes(slots[k]);
    } else {
      var t := SlotsSplit(slots[..last], k);
      assert slots[..last][..k] == slots[..k];
      tail := t + SlotBytes(slots[last]);
      Assoc(SlotsBytes(slots[..k]), SlotBytes(slots[k]) + t, SlotBytes(slots[last]));
      Assoc(SlotBytes(slots[k]), t, SlotBytes(slots[last]));
    }
  }

  lemma {:induction false} NextSlot(slots: seq<SigSlot>, rest: bytes, n: nat, s: SigSlot, left: bytes)
    requires n > 0 && ReadSlot(rest) == Ok((s, left))
    ensures ReadSlots(slots, rest, n) == ReadSlots(slots + [s], left, n - 1)
  {
    hide ReadSlot;
  }

  lemma {:induction false} SlotStays(slots: seq<SigSlot>, rest: bytes, n: nat, s: SigSlot, left: bytes)
    requires n > 0 && ReadSlot(rest) == Ok((s, left))
    ensures var r := ReadSlots(slots, rest, n); r.Ok? ==> slots + [s] <= r.value.0
  {
    hide *;
    NextSlot(slots, rest, n, s, left);
    SlotsGrow(slots + [s], left, n - 1);
  }

  lemma {:induction false} LostSlot(before: seq<SigSlot>, s: SigSlot, tail: bytes, n: nat)
    requires TextFits(s.keyId) && Framed(s) && !SlotReadsBack(s) && n > 0
    ensures var r := ReadSlots(before, SlotBytes(s) + tail, n);
      r.Ok? ==> before + [SigSlot(s.suite, s.keyId, None)] <= r.value.0
  {
    ReadSlotBack(s, tail);
    assert s.signature.Some?;
    hide *;
    SlotStays(before, SlotBytes(s) + tail, n, SigSlot(s.suite, s.keyId, None), s.signature.value + tail);
  }

  lemma {:induction false} LastOfPrefix(before: seq<SigSlot>, s: SigSlot, all: seq<SigSlot>)
    requires before + [s] <= all
    ensures |all| > |before| && all[|before|] == s
  {
    assert (before + [s])[|before|] == s;
  }

  lemma {:induction false} GoodSlotsRead(good: seq<SigSlot>, rest: bytes, n: nat)
    requires KeysFit(good) && SlotsReadBack(good)
    ensures ReadSlots([], SlotsBytes(good) + rest, |good| + n) == ReadSlots(good, rest, n)
  {
    hide *;
    ReadSlotsBack([], good, rest, n);
    assert [] + good == good;
  }

  lemma {:induction false} LostAfter(good: seq<SigSlot>, s: SigSlot, tail: bytes, n: nat)
    requires KeysFit(good) && SlotsReadBack(good) && TextFits(s.keyId) && Framed(s) && !SlotReadsBack(s) && n > 0
    ensures var r := ReadSlots([], SlotsBytes(good) + (SlotBytes(s) + tail), |good| + n);
      r.Ok? ==> |r.value.0| > |good| && r.value.0[|good|].signature.None?
  {
    hide *;
    GoodSlotsRead(good, SlotBytes(s) + tail, n);
    LostSlot(good, s, tail, n);
    var r := ReadSlots(good, SlotBytes(s) + tail, n);
    if r.Ok? {
      LastOfPrefix(good, SigSlot(s.suite, s.keyId, None), r.value.0);
    }
  }

  /** A signature of 65535 bytes comes back as a placeholder, whatever is then read from its bytes. */
  lemma {:induction false} LongSignatureIsLost(slots: seq<SigSlot>, k: nat)
    requires k < |slots| && KeysFit(slots) && AllFramed(slots)
    requires !SlotReadsBack(slots[k]) && SlotsReadBack(slots[..k])
    ensures var r := ReadSlots([], SlotsBytes(slots), |slots|);
      r.Ok? ==> |r.value.0| > k && r.value.0[k].signature.None?
  {
    hide *;
    PartFits(slots, k);
    var tail := SlotsSplit(slots, k);
    LostAfter(slots[..k], slots[k], tail, |slots| - k);
  }

  lemma {:induction false} PartFits(slots: seq<SigSlot>, k: nat)
    requires k < |slots| && KeysFit(slots) && AllFramed(slots)
    ensures TextFits(slots[k].keyId) && Framed(slots[k]) && KeysFit(slots[..k]) && |slots[..k]| + (|slots| - k) == |slots|
  {
    hide TextFits, Framed;
  }

  lemma {:induction false} FirstLost(slots: seq<SigSlot>) returns (k: nat)
    requires !SlotsReadBack(slots)
    ensures k < |slots| && !SlotReadsBack(slots[k]) && SlotsReadBack(slots[..k])
    decreases |slots|
  {
    hide SlotReadsBack;
    var init := slots[..|slots| - 1];
    if SlotsReadBack(init) {
      k := |slots| - 1;
      assert forall i :: 0 <= i < k ==> slots[i] == init[i];
    } else {
      k := FirstLost(init);
      assert init[..k] == slots[..k];
    }
  }

  /** With such a signature among the slots kept, decoding never yields the payload. */
  lemma {:induction false} LongSignatureNeverReturns<P>(codec: ProductCodec<P>, p: Payload<P>)
    requires TextsFit(codec, p) && TimesFit(p) && AllFramed(Kept(p.signatures)) && !SlotsReadBack(Kept(p.signatures))
    ensures Decoded(codec, Encoding(codec, p)) != Ok(p)
  {
    hide ReadFields, FieldBytes, FieldsBytes, FieldFits, ApplyAll, Header, TextsFit, TimesFit, SlotsReadBack, Print, Parse,
      ParseTo, AllFramed, SlotReadsBack, ReadSlots, SlotsBytes, Kept, KeysFit;
    var slots := Kept(p.signatures);
    HeaderFits(codec, p);
    ReadFieldsBack(codec, Nothing(), Header(codec, p), FieldBytes(Slots(slots)));
    HeaderReadsBack(codec, p);
    var acc := ApplyAll(codec, Nothing(), Header(codec, p));
    if acc.Ok? {
      KeptKeysFit(codec, p);
      var k := FirstLost(slots);
      LongSignatureIsLost(slots, k);
      SlotsAreReadHere(codec, acc.value, slots);
      var r := ReadSlots([], SlotsBytes(slots), |slots|);
      if r.Ok? {
        var next := acc.value.(signatures := r.value.0);
        ReadingKeepsSlots(codec, next, r.value.1);
        KeptIsPrefix(p.signatures, k);
      }
    }
  }

  lemma {:induction false} KeptKeysFit<P>(codec: ProductCodec<P>, p: Payload<P>)
    requires TextsFit(codec, p)
    ensures KeysFit(Kept(p.signatures)) && |Kept(p.signatures)| <= 255
  {
    hide TextFits;
  }

  lemma {:induction false} KeptIsPrefix(slots: seq<SigSlot>, k: nat)
    requires k < |Kept(slots)| && !SlotReadsBack(Kept(slots)[k])
    ensures k < |slots| && slots[k].signature.Some?
  {}

  lemma {:induction false} SlotsAreReadHere<P>(codec: ProductCodec<P>, acc: Partial<P>, slots: seq<SigSlot>)
    requires |slots| <= 255 && acc.signatures == []
    ensures var r := ReadSlots([], SlotsBytes(slots), |slots|);
      ReadFields(codec, acc, FieldBytes(Slots(slots)))
      == if r.Err? then Err(r.error) else ReadFields(codec, acc.(signatures := r.value.0), r.value.1)
  {
    hide ReadSlots, SlotsBytes, ReadTag;
    TagReadsBack(SIG_COUNT, [|slots|] + SlotsBytes(slots));
    TagReadsBack(|slots|, SlotsBytes(slots));
  }

  /**
   The round trip holds exactly for payloads with at most 255 slots, no signature of 65535 bytes or more, times of
   the years 0 to 9999 and a product that prints back to itself.
   */
  lemma {:induction false} DecodeEncodeExactly<P>(codec: ProductCodec<P>, p: Payload<P>)
    requires TextsFit(codec, p) && TimesFit(p)
    ensures Encoded(codec, p).Ok? && Decoded(codec, Encoded(codec, p).value.0) == Ok(p)
            <==> |p.signatures| <= 255 && SlotsReadBack(p.signatures)
                 && TimesPrintable(p) && codec.parse(codec.show(p.productId)) == Some(p.productId)
  {
    hide Decoded, Encoding, TextsFit, TimesFit, SlotsReadBack, AllFramed, Print, Parse, Printable;
    if AllFramed(Kept(p.signatures)) {
      if SlotsReadBack(Kept(p.signatures)) {
        DecodeOfEncoding(codec, p);
        ParsePrintExactly(p.validity.from);
        ParsePrintExactly(p.asOf);
        if p.validity.to.Some? {
          ParsePrintExactly(p.validity.to.value);
        }
      } else {
        LongSignatureNeverReturns(codec, p);
      }
    } else if |p.signatures| <= 255 && SlotsReadBack(p.signatures) {
      ReadsBackIsFramed(p.signatures);
    }
  }

  // ----- the budget

  /** Signing a slot: a placeholder gets a signature of its suite's length, or nothing changes. */
  predicate Signs(before: SigSlot, after: SigSlot) {
    after == before
    || (before.signature.None? && after.suite == before.suite && after.keyId == before.keyId
        && after.signature.Some? && |after.signature.value| == SignatureLength(before.suite))
  }

  predicate SignsAll(before: seq<SigSlot>, after: seq<SigSlot>) {
    |after| == |before| && forall i :: 0 <= i < |before| ==> Signs(before[i], after[i])
  }

  function Reserve(s: SigSlot): nat {
    if s.signature.None? then SignatureLength(s.suite) else 0
  }

  lemma {:induction false} FrameLength(b: bytes, width: nat)
    ensures |Frame(b, width)| == width + |b| && |LeBytes(|b|, width)| == width
  {}

  lemma {:induction false} SlotLength(s: SigSlot)
    ensures |SlotBytes(s)| + Reserve(s) == s.ProjectedLength() + 4
  {
    hide Utf8.Encode, Frame, LeBytes, SuiteCode, SignatureLength;
    FrameLength(Utf8.Encode(s.keyId), 4);
    if s.signature.Some? {
      FrameLength(s.signature.value, 2);
    }
    assert |LeBytes(PLACEHOLDER, 2)| == 2;
  }

  /** What a slot takes up once signed, four bytes more than `projected_len`, which leaves out the key's length prefix. */
  function Projected(slots: seq<SigSlot>): nat {
    if slots == [] then 0 else Projected(slots[..|slots| - 1]) + slots[|slots| - 1].ProjectedLength() + 4
  }

  lemma {:induction false} SlotsLength(slots: seq<SigSlot>)
    ensures |SlotsBytes(slots)| + Reserved(slots) == Projected(slots)
  {
    hide SlotBytes;
    if slots != [] {
      SlotsLength(slots[..|slots| - 1]);
      SlotLength(slots[|slots| - 1]);
    }
  }

  /** The projected length is the header, two bytes for the count, and each slot's report plus four bytes. */
  lemma {:induction false} ProjectedIsTheSum<P>(codec: ProductCodec<P>, p: Payload<P>)
    requires Encoded(codec, p).Ok?
    ensures Encoded(codec, p).value.1 == |FieldsBytes(Header(codec, p))| + 2 + Projected(Kept(p.signatures))
  {
    hide FieldsBytes, Header, SlotsBytes, Projected, Reserved, Kept, AllFramed;
    SlotsLength(Kept(p.signatures));
  }

  lemma {:induction false} SigningKeepsProjected(before: seq<SigSlot>, after: seq<SigSlot>)
    requires SignsAll(before, after)
    ensures Projected(after) == Projected(before)
    ensures (forall i :: 0 <= i < |after| ==> after[i].signature.Some?) ==> Reserved(after) == 0
    decreases |before|
  {
    hide SignatureLength, Utf8.Encode, Signs;
    if before != [] {
      var n := |before| - 1;
      SigningKeepsProjected(before[..n], after[..n]);
      SigningOne(before[n], after[n]);
    }
  }

  lemma {:induction false} SigningOne(before: SigSlot, after: SigSlot)
    requires Signs(before, after)
    ensures after.ProjectedLength() == before.ProjectedLength() && (Framed(before) ==> Framed(after))
  {
    hide Utf8.Encode;
  }

  lemma {:induction false} SigningKeepsFraming(before: seq<SigSlot>, after: seq<SigSlot>)
    requires SignsAll(before, after) && AllFramed(before)
    ensures AllFramed(after)
  {
    hide Signs, Framed;
    forall i | 0 <= i < |after| ensures Framed(after[i]) {
      SigningOne(before[i], after[i]);
    }
  }

  lemma {:induction false} KeptSigns(before: seq<SigSlot>, after: seq<SigSlot>)
    requires SignsAll(before, after)
    ensures SignsAll(Kept(before), Kept(after))
  {
    hide Signs;
  }

  /**
   Signing placeholders, all or some, leaves the projected length as it is; once every slot is signed it is the
   encoded length.
   */
  lemma {:induction false} SigningKeepsBudget<P>(codec: ProductCodec<P>, p: Payload<P>, signatures: seq<SigSlot>)
    requires Encoded(codec, p).Ok? && SignsAll(p.signatures, signatures)
    ensures var signed := Encoded(codec, p.(signatures := signatures));
      && signed.Ok? && signed.value.1 == Encoded(codec, p).value.1 && |signed.value.0| <= signed.value.1
      && ((forall i :: 0 <= i < |signatures| ==> signatures[i].signature.Some?) ==> |signed.value.0| == signed.value.1)
  {
    hide FieldsBytes, FieldBytes, Projected, Reserved, SignsAll, AllFramed;
    var q := p.(signatures := signatures);
    KeptSigns(p.signatures, signatures);
    SigningKeepsProjected(Kept(p.signatures), Kept(signatures));
    SigningKeepsFraming(Kept(p.signatures), Kept(signatures));
    HeaderIgnoresSlots(codec, p, signatures);
    hide Header;
    ProjectedIsTheSum(codec, p);
    ProjectedIsTheSum(codec, q);
  }

  lemma {:induction false} HeaderIgnoresSlots<P>(codec: ProductCodec<P>, p: Payload<P>, signatures: seq<SigSlot>)
    ensures Header(codec, p.(signatures := signatures)) == Header(codec, p)
  {}

  // ----- packing

  datatype Packed = Packed(bytes: bytes, version: nat, ec: Qr.EcLevel, used: nat, projected: nat, capacity: nat) {
    function Margin(): int { capacity - projected }
  }

  /** Encode, budget, and choose the smallest symbol. A largest version outside 1 to 40 panics in the source. */
  function Pack<P>(codec: ProductCodec<P>, ec: Qr.EcLevel, maxVersion: nat, p: Payload<P>): Result<Packed, TierAError>
    requires 1 <= maxVersion <= 40
  {
    var encoded := Encoded(codec, p);
    if encoded.Err? then Err(encoded.error) else
      var (b, projected) := encoded.value;
      var capacity := Qr.ByteCapacity(maxVersion, ec);
      if projected > capacity then Err(OverBudget(projected, capacity, ec, maxVersion))
      else if Qr.MinVersionFor(projected, ec).None? then Err(OverBudget(projected, capacity, ec, maxVersion))
      else
        var least := Qr.MinVersionFor(projected, ec).value;
        Qr.FirstVersionIsFirst(1, projected, ec);
        var version := if least < maxVersion then least else maxVersion;
        Ok(Packed(b, version, ec, |b|, projected, Qr.ByteCapacity(version, ec)))
  }

  /** Packing succeeds exactly if the largest symbol holds the projected bytes, and takes the least version that does. */
  lemma {:induction false} PackTakesTheLeastVersion<P>(
    codec: ProductCodec<P>, ec: Qr.EcLevel, maxVersion: nat, p: Payload<P>)
    requires 1 <= maxVersion <= 40 && Encoded(codec, p).Ok?
    ensures var projected, capacity := Encoded(codec, p).value.1, Qr.ByteCapacity(maxVersion, ec);
      if projected > capacity then Pack(codec, ec, maxVersion, p) == Err(OverBudget(projected, capacity, ec, maxVersion))
      else Pack(codec, ec, maxVersion, p).Ok?
    ensures Pack(codec, ec, maxVersion, p).Ok? ==>
              var k := Pack(codec, ec, maxVersion, p).value;
              && Encoded(codec, p) == Ok((k.bytes, k.projected)) && k.ec == ec
              && 1 <= k.version <= maxVersion && k.capacity == Qr.ByteCapacity(k.version, ec)
              && |k.bytes| == k.used <= k.projected <= k.capacity && k.Margin() >= 0
              && forall v :: 1 <= v < k.version ==> Qr.ByteCapacity(v, ec) < k.projected
  {
    hide Encoding, Qr.ByteCapacity, AllFramed, Kept, Reserved;
    var projected := Encoded(codec, p).value.1;
    Qr.VersionHoldsExactlyFrom(projected, ec, maxVersion);
    Qr.FirstVersionIsFirst(1, projected, ec);
  }

  /** What was packed with placeholders still fits, in the very same symbol, when they are signed. */
  lemma {:induction false} SignedStillFits<P>(
    codec: ProductCodec<P>, ec: Qr.EcLevel, maxVersion: nat, p: Payload<P>, signatures: seq<SigSlot>)
    requires 1 <= maxVersion <= 40 && Pack(codec, ec, maxVersion, p).Ok? && SignsAll(p.signatures, signatures)
    ensures var signed := Pack(codec, ec, maxVersion, p.(signatures := signatures));
      && signed.Ok? && signed.value.version == Pack(codec, ec, maxVersion, p).value.version
      && signed.value.projected == Pack(codec, ec, maxVersion, p).value.projected
      && |signed.value.bytes| <= signed.value.capacity
  {
    hide Encoded, Qr.ByteCapacity, SignsAll;
    SigningKeepsBudget(codec, p, signatures);
    PackTakesTheLeastVersion(codec, ec, maxVersion, p.(signatures := signatures));
  }

  /** What is in the symbol decodes to the payload, under the conditions under which decoding undoes encoding. */
  lemma {:induction false} PackedReadsBack<P>(codec: ProductCodec<P>, ec: Qr.EcLevel, maxVersion: nat, p: Payload<P>)
    requires TextsFit(codec, p) && TimesFit(p) && 1 <= maxVersion <= 40 && Pack(codec, ec, maxVersion, p).Ok?
    ensures Decoded(codec, Pack(codec, ec, maxVersion, p).value.bytes) == Ok(p)
            <==> |p.signatures| <= 255 && SlotsReadBack(p.signatures)
                 && TimesPrintable(p) && codec.parse(codec.show(p.productId)) == Some(p.productId)
  {
    hide Encoded, Decoded, Qr.ByteCapacity, TextsFit, TimesFit, SlotsReadBack, TimesPrintable;
    PackTakesTheLeastVersion(codec, ec, maxVersion, p);
    DecodeEncodeExactly(codec, p);
  }
}
