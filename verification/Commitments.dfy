/**
 Events, their canonical bodies, and the salted commitments that chain them (crates/event/src/commitment.rs;
 `TypedEvent` of crates/event/src/payload.rs).
 */
module Commitments {
  import opened Wrappers
  import opened ByteCodec
  import opened Digits
  import opened Hashing
  import opened Timestamps
  import Utf8

  /** A 32-byte salt. */
  type Salt = Digest

  /** `rest` is the JSON text behind the timestamp: actor, class, payload and trust marker, not looked into. */
  datatype TypedEvent = TypedEvent(number: nat, occurredAt: Timestamp, rest: string)

  /** The JSON text of an event, its fields in the order of their declaration. */
  function BodyText(e: TypedEvent): string {
    "{\"seq\":" + ToText(e.number) + ",\"occurred_at\":\"" + Print(e.occurredAt) + "\"" + e.rest
  }

  function CanonicalBody(e: TypedEvent): bytes {
    Utf8.Encode(BodyText(e))
  }

  /** What is hashed for an event: the salt if there is one, the previous commitment or zeros, the body. */
  function CommitmentString(body: bytes, prev: Option<Digest>, salt: Option<Salt>): bytes {
    (if salt.Some? then salt.value else []) + (if prev.Some? then prev.value else ZERO) + body
  }

  function EventCommitment(sha: Sha, body: bytes, prev: Option<Digest>, salt: Option<Salt>): Digest {
    sha(CommitmentString(body, prev, salt))
  }

  function ParentCommitment(sha: Sha, parent: string, salt: Salt): Digest {
    sha(salt + Utf8.Encode(parent))
  }

  predicate VerifyParentBinding(sha: Sha, parent: string, salt: Salt, commitment: Digest) {
    ParentCommitment(sha, parent, salt) == commitment
  }

  // ----- what a body fixes

  lemma {:induction false} BodyTextParts(e: TypedEvent)
    ensures var tail := "\"occurred_at\":\"" + (Print(e.occurredAt) + ['"'] + e.rest);
      BodyText(e) == "{\"seq\":" + (ToText(e.number) + [','] + tail)
  {
    hide ToText, Print;
  }

  /** A body fixes its sequence number, the text of its timestamp, and everything behind it. */
  lemma {:induction false} BodyFixesEvent(e: TypedEvent, f: TypedEvent)
    requires CanonicalBody(e) == CanonicalBody(f)
    ensures e.number == f.number && Print(e.occurredAt) == Print(f.occurredAt) && e.rest == f.rest
  {
    hide BodyText, ToText, NumberOf, Print, AllDigits;
    var te := "\"occurred_at\":\"" + (Print(e.occurredAt) + ['"'] + e.rest);
    var tf := "\"occurred_at\":\"" + (Print(f.occurredAt) + ['"'] + f.rest);
    Utf8.EncodeInjective(BodyText(e), BodyText(f));
    BodyTextParts(e);
    BodyTextParts(f);
    SameHead("{\"seq\":", ToText(e.number) + [','] + te, ToText(f.number) + [','] + tf);
    DigitsHoldNo(ToText(e.number), ',');
    DigitsHoldNo(ToText(f.number), ',');
    SplitAtFirst(ToText(e.number), te, ToText(f.number), tf, ',');
    ValueOfText(e.number);
    ValueOfText(f.number);
    SameHead("\"occurred_at\":\"", Print(e.occurredAt) + ['"'] + e.rest, Print(f.occurredAt) + ['"'] + f.rest);
    PrintHoldsNo(e.occurredAt, '"');
    PrintHoldsNo(f.occurredAt, '"');
    SplitAtFirst(Print(e.occurredAt), e.rest, Print(f.occurredAt), f.rest, '"');
  }

  /** Equal bodies are equal events, in every year. */
  lemma {:induction false} BodyIsTheEvent(e: TypedEvent, f: TypedEvent)
    requires e.occurredAt.nanos < 1_000_000_000 && f.occurredAt.nanos < 1_000_000_000
    ensures CanonicalBody(e) == CanonicalBody(f) <==> e == f
  {
    hide CanonicalBody, Print;
    if CanonicalBody(e) == CanonicalBody(f) {
      BodyFixesEvent(e, f);
      PrintInjective(e.occurredAt, f.occurredAt);
    }
  }

  // ----- what a commitment fixes

  /** A salt adds 32 bytes, so no salted string is an unsalted one of the same body. */
  lemma {:induction false} SaltedIsAnotherString(body: bytes, prev: Option<Digest>, salt: Salt)
    ensures CommitmentString(body, prev, Some(salt)) != CommitmentString(body, prev, None)
  {
    assert |CommitmentString(body, prev, Some(salt))| == |CommitmentString(body, prev, None)| + 32;
  }

  /** With one body and one predecessor, the salt is fixed, absence included. */
  lemma {:induction false} StringFixesSalt(body: bytes, prev: Option<Digest>, s: Option<Salt>, t: Option<Salt>)
    requires CommitmentString(body, prev, s) == CommitmentString(body, prev, t)
    ensures s == t
  {
    var x, y := CommitmentString(body, prev, s), CommitmentString(body, prev, t);
    assert s.Some? ==> |x| == 64 + |body| && x[..32] == s.value;
    assert s.None? ==> |x| == 32 + |body|;
    assert t.Some? ==> |y| == 64 + |body| && y[..32] == t.value;
    assert t.None? ==> |y| == 32 + |body|;
  }

  /** Both salted or both unsalted: the string fixes the salt, the 32 bytes of the predecessor, and the body. */
  lemma {:induction false} StringParts(
    body: bytes, prev: Option<Digest>, salt: Option<Salt>, body': bytes, prev': Option<Digest>, salt': Option<Salt>)
    requires salt.Some? == salt'.Some?
    requires CommitmentString(body, prev, salt) == CommitmentString(body', prev', salt')
    ensures salt == salt' && body == body'
    ensures (if prev.Some? then prev.value else ZERO) == (if prev'.Some? then prev'.value else ZERO)
  {
    var p, p' := if prev.Some? then prev.value else ZERO, if prev'.Some? then prev'.value else ZERO;
    var x := CommitmentString(body, prev, salt);
    if salt.Some? {
      assert x[..32] == salt.value && x[32..64] == p && x[64..] == body;
      assert x[..32] == salt'.value && x[32..64] == p' && x[64..] == body';
    } else {
      assert x[..32] == p && x[32..] == body;
      assert x[..32] == p' && x[32..] == body';
    }
  }

  /** Behind the opening brace come 43 characters or more, all of them ASCII and none a brace. */
  lemma {:induction false} BodyTextOpens(e: TypedEvent)
    ensures var u := "\"seq\":" + ToText(e.number) + ",\"occurred_at\":\"" + Print(e.occurredAt);
      && BodyText(e) == ("{" + u) + ("\"" + e.rest) && |u| >= 43 && '{' !in u && Utf8.IsAscii("{" + u)
  {
    hide ToText, Print, Utf8.Encode;
    PrintHoldsNo(e.occurredAt, '{');
    PrintedAtLeast(e.occurredAt);
    PrintedIsAscii(e.occurredAt);
    DigitsHoldNo(ToText(e.number), '{');
    DigitsAreAscii(ToText(e.number));
  }

  /** So the byte 32 places into a body is never a brace, with which every body starts. */
  lemma {:induction false} NoBraceAt32(e: TypedEvent)
    ensures var b := CanonicalBody(e); |b| > 32 && b[0] == 123 && b[32] != 123
  {
    hide BodyText, ToText, Print, Utf8.Encode;
    var u := "\"seq\":" + ToText(e.number) + ",\"occurred_at\":\"" + Print(e.occurredAt);
    BodyTextOpens(e);
    EncodePrefix("{" + u, "\"" + e.rest);
    Utf8.EncodeAscii("{" + u);
    assert CanonicalBody(e)[32] == Utf8.Encode("{" + u)[32] == ("{" + u)[32] as int;
    assert ("{" + u)[32] == u[31];
    assert CanonicalBody(e)[0] == Utf8.Encode("{" + u)[0] == ("{" + u)[0] as int;
  }

  /** No salted string is an unsalted one, whatever the events and predecessors: the bodies would not line up. */
  lemma {:induction false} SaltedIsNeverUnsalted(
    e: TypedEvent, prev: Option<Digest>, salt: Salt, f: TypedEvent, prev': Option<Digest>)
    ensures CommitmentString(CanonicalBody(e), prev, Some(salt)) != CommitmentString(CanonicalBody(f), prev', None)
  {
    hide CanonicalBody;
    NoBraceAt32(e);
    NoBraceAt32(f);
    var x, y := CommitmentString(CanonicalBody(e), prev, Some(salt)), CommitmentString(CanonicalBody(f), prev', None);
    assert x[64] == CanonicalBody(e)[0];
    assert y[64] == CanonicalBody(f)[32];
  }

  /** What is hashed for an event fixes all that enters it: the salt, absence included, the predecessor and the body. */
  lemma {:induction false} StringFixesAll(
    e: TypedEvent, prev: Option<Digest>, salt: Option<Salt>, f: TypedEvent, prev': Option<Digest>, salt': Option<Salt>)
    requires CommitmentString(CanonicalBody(e), prev, salt) == CommitmentString(CanonicalBody(f), prev', salt')
    ensures salt == salt' && CanonicalBody(e) == CanonicalBody(f)
    ensures (if prev.Some? then prev.value else ZERO) == (if prev'.Some? then prev'.value else ZERO)
  {
    hide CanonicalBody, CommitmentString;
    SaltingAgrees(e, prev, salt, f, prev', salt');
    StringParts(CanonicalBody(e), prev, salt, CanonicalBody(f), prev', salt');
  }

  lemma {:induction false} SaltingAgrees(
    e: TypedEvent, prev: Option<Digest>, salt: Option<Salt>, f: TypedEvent, prev': Option<Digest>, salt': Option<Salt>)
    ensures CommitmentString(CanonicalBody(e), prev, salt) == CommitmentString(CanonicalBody(f), prev', salt')
            ==> salt.Some? == salt'.Some?
  {
    hide CanonicalBody, CommitmentString;
    if salt.Some? && salt'.None? {
      SaltedIsNeverUnsalted(e, prev, salt.value, f, prev');
    } else if salt.None? && salt'.Some? {
      SaltedIsNeverUnsalted(f, prev', salt'.value, e, prev);
    }
  }

  /** A blind parent reference opens to one parent and one salt only. */
  lemma {:induction false} BindingIsUnique(sha: Sha, parent: string, salt: Salt, other: string, otherSalt: Salt)
    requires CollisionFree(sha, {salt + Utf8.Encode(parent), otherSalt + Utf8.Encode(other)})
    ensures VerifyParentBinding(sha, other, otherSalt, ParentCommitment(sha, parent, salt))
            <==> other == parent && otherSalt == salt
  {
    hide Utf8.Encode;
    if VerifyParentBinding(sha, other, otherSalt, ParentCommitment(sha, parent, salt)) {
      assert (salt + Utf8.Encode(parent))[..32] == salt && (otherSalt + Utf8.Encode(other))[..32] == otherSalt;
      SameHead(salt, Utf8.Encode(parent), Utf8.Encode(other));
      Utf8.EncodeInjective(parent, other);
    }
  }
}
