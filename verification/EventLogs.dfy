/** The append-only, hash-chained event log and the owner's salt store (crates/event/src/log.rs). */
module EventLogs {
  import opened Wrappers
  import opened ByteCodec
  import opened Hashing
  import opened Timestamps
  import opened Commitments

  datatype EventError =
    | ChainBroken(at: nat)
    | AnchorMismatch(expected: Digest, actual: Option<Digest>)
    | Seq(due: nat, got: nat)

  datatype SealedEvent = SealedEvent(
    event: TypedEvent,
    prev: Option<Digest>,
    commitment: Digest,
    salted: bool,
    saltRef: Option<nat>)

  type Sealed = seq<SealedEvent>

  type Salts = map<nat, Salt>

  function Head(sealed: Sealed): Option<Digest> {
    if sealed == [] then None else Some(sealed[|sealed| - 1].commitment)
  }

  function Seal(sha: Sha, sealed: Sealed, event: TypedEvent, salt: Option<Salt>, saltRef: Option<nat>): SealedEvent {
    SealedEvent(event, Head(sealed), EventCommitment(sha, CanonicalBody(event), Head(sealed), salt), salt.Some?, saltRef)
  }

  /** The salt with which an entry is recomputed: only a salted entry with a reference that is known has one. */
  function SaltFor(salts: Salts, s: SealedEvent): Option<Salt> {
    if s.saltRef.Some? && s.salted && s.saltRef.value in salts then Some(salts[s.saltRef.value]) else None
  }

  /** The check on one entry without salts: an unsalted entry must have its commitment, a salted one must not have it. */
  predicate EntryHolds(sha: Sha, s: SealedEvent, prev: Option<Digest>) {
    (EventCommitment(sha, CanonicalBody(s.event), prev, None) == s.commitment) != s.salted
  }

  predicate EntryHoldsWithSalts(sha: Sha, s: SealedEvent, prev: Option<Digest>, salts: Salts) {
    EventCommitment(sha, CanonicalBody(s.event), prev, SaltFor(salts, s)) == s.commitment
  }

  /** `verify` from entry `i` on, with the commitment before it. */
  function VerifyFrom(sha: Sha, sealed: Sealed, i: nat, prev: Option<Digest>): Result<(), EventError>
    requires i <= |sealed|
    decreases |sealed| - i
  {
    if i == |sealed| then Ok(())
    else if sealed[i].event.number != i then Err(Seq(i, sealed[i].event.number))
    else if sealed[i].prev != prev then Err(ChainBroken(sealed[i].event.number))
    else if !EntryHolds(sha, sealed[i], prev) then Err(ChainBroken(sealed[i].event.number))
    else VerifyFrom(sha, sealed, i + 1, Some(sealed[i].commitment))
  }

  function VerifySaltsFrom(sha: Sha, sealed: Sealed, salts: Salts, i: nat, prev: Option<Digest>): Result<(), EventError>
    requires i <= |sealed|
    decreases |sealed| - i
  {
    if i == |sealed| then Ok(())
    else if sealed[i].event.number != i || sealed[i].prev != prev then Err(ChainBroken(sealed[i].event.number))
    else if !EntryHoldsWithSalts(sha, sealed[i], prev, salts) then Err(ChainBroken(sealed[i].event.number))
    else VerifySaltsFrom(sha, sealed, salts, i + 1, Some(sealed[i].commitment))
  }

  function VerifyLog(sha: Sha, sealed: Sealed): Result<(), EventError> {
    VerifyFrom(sha, sealed, 0, None)
  }

  function VerifyLogWithSalts(sha: Sha, sealed: Sealed, salts: Salts): Result<(), EventError> {
    VerifySaltsFrom(sha, sealed, salts, 0, None)
  }

  function CheckAnchor(sealed: Sealed, anchor: Digest): Result<(), EventError> {
    if Head(sealed) == Some(anchor) then Ok(()) else Err(AnchorMismatch(anchor, Head(sealed)))
  }

  predicate NotAfter(a: Timestamp, b: Timestamp) {
    a.secs < b.secs || (a.secs == b.secs && a.nanos <= b.nanos)
  }

  /** `take_while` the events had occurred by `t`. */
  function AsOf(sealed: Sealed, t: Timestamp): (view: Sealed)
    ensures view <= sealed
  {
    if sealed != [] && NotAfter(sealed[0].event.occurredAt, t) then [sealed[0]] + AsOf(sealed[1..], t) else []
  }

  function StateHashAt(sealed: Sealed, t: Timestamp): Option<Digest> {
    Head(AsOf(sealed, t))
  }

  class EventLog {
    const subject: string
    var sealed: Sealed

    constructor (subject: string)
      ensures this.subject == subject && sealed == []
    {
      this.subject := subject;
      sealed := [];
    }

    /** Only the next event in sequence is taken, and nothing already sealed is touched. */
    method Append(sha: Sha, event: TypedEvent, salt: Option<Salt>, saltRef: Option<nat>)
      returns (r: Result<Digest, EventError>)
      modifies this
      ensures event.number != |old(sealed)| ==>
                r == Err(Seq(|old(sealed)|, event.number)) && sealed == old(sealed)
      ensures event.number == |old(sealed)| ==>
                && sealed == old(sealed) + [Seal(sha, old(sealed), event, salt, saltRef)]
                && r == Ok(sealed[|sealed| - 1].commitment) && Head(sealed) == Some(r.value)
    {
      hide EventCommitment, CanonicalBody;
      var due := |sealed|;
      if event.number != due {
        return Err(Seq(due, event.number));
      }
      var body := CanonicalBody(event);
      var commitment := EventCommitment(sha, body, Head(sealed), salt);
      sealed := sealed + [SealedEvent(event, Head(sealed), commitment, salt.Some?, saltRef)];
      return Ok(commitment);
    }

    method Verify(sha: Sha) returns (r: Result<(), EventError>)
      ensures r == VerifyLog(sha, sealed)
    {
      hide EventCommitment, CanonicalBody;
      var prev: Option<Digest> := None;
      for i := 0 to |sealed|
        invariant VerifyFrom(sha, sealed, i, prev) == VerifyLog(sha, sealed)
      {
        var s := sealed[i];
        if s.event.number != i {
          return Err(Seq(i, s.event.number));
        }
        if s.prev != prev {
          return Err(ChainBroken(s.event.number));
        }
        var body := CanonicalBody(s.event);
        if !s.salted {
          var due := EventCommitment(sha, body, prev, None);
          if due != s.commitment {
            return Err(ChainBroken(s.event.number));
          }
        } else {
          var unsalted := EventCommitment(sha, body, prev, None);
          if unsalted == s.commitment {
            return Err(ChainBroken(s.event.number));
          }
        }
        prev := Some(s.commitment);
      }
      return Ok(());
    }

    method VerifyWithSalts(sha: Sha, store: SaltStore) returns (r: Result<(), EventError>)
      ensures r == VerifyLogWithSalts(sha, sealed, store.salts)
    {
      hide EventCommitment, CanonicalBody;
      var prev: Option<Digest> := None;
      for i := 0 to |sealed|
        invariant VerifySaltsFrom(sha, sealed, store.salts, i, prev) == VerifyLogWithSalts(sha, sealed, store.salts)
      {
        var s := sealed[i];
        if s.event.number != i || s.prev != prev {
          return Err(ChainBroken(s.event.number));
        }
        var body := CanonicalBody(s.event);
        var salt: Option<Salt> := None;
        if s.saltRef.Some? && s.salted {
          salt := store.Get(s.saltRef.value);
        }
        assert salt == SaltFor(store.salts, s);
        var due := EventCommitment(sha, body, prev, salt);
        if due != s.commitment {
          return Err(ChainBroken(s.event.number));
        }
        prev := Some(s.commitment);
      }
      return Ok(());
    }

    method VerifyAgainstAnchor(anchor: Digest) returns (r: Result<(), EventError>)
      ensures r == CheckAnchor(sealed, anchor)
    {
      match Head(sealed)
      case Some(h) =>
        if h == anchor {
          return Ok(());
        }
        return Err(AnchorMismatch(anchor, Some(h)));
      case None =>
        return Err(AnchorMismatch(anchor, None));
    }
  }

  class SaltStore {
    const subject: string
    var salts: Salts

    constructor (subject: string)
      ensures this.subject == subject && salts == map[]
    {
      this.subject := subject;
      salts := map[];
    }

    method Remember(ref: nat, salt: Salt)
      modifies this
      ensures salts == old(salts)[ref := salt]
    {
      salts := salts[ref := salt];
    }

    function Get(ref: nat): Option<Salt>
      reads this
    {
      if ref in salts then Some(salts[ref]) else None
    }
  }

  // ----- verification, entry by entry

  function PrevAt(sealed: Sealed, i: nat): Option<Digest>
    requires i <= |sealed|
  {
    if i == 0 then None else Some(sealed[i - 1].commitment)
  }

  ghost predicate InPlace(sealed: Sealed, i: nat)
    requires i < |sealed|
  {
    sealed[i].event.number == i && sealed[i].prev == PrevAt(sealed, i)
  }

  ghost predicate Linked(sha: Sha, sealed: Sealed, i: nat)
    requires i < |sealed|
  {
    InPlace(sealed, i) && EntryHolds(sha, sealed[i], PrevAt(sealed, i))
  }

  ghost predicate LinkedWithSalts(sha: Sha, sealed: Sealed, salts: Salts, i: nat)
    requires i < |sealed|
  {
    InPlace(sealed, i) && EntryHoldsWithSalts(sha, sealed[i], PrevAt(sealed, i), salts)
  }

  lemma {:induction false} VerifiedFrom(sha: Sha, sealed: Sealed, i: nat)
    requires i <= |sealed|
    ensures VerifyFrom(sha, sealed, i, PrevAt(sealed, i)).Ok? <==> forall j :: i <= j < |sealed| ==> Linked(sha, sealed, j)
    decreases |sealed| - i
  {
    hide EntryHolds;
    if i < |sealed| {
      VerifiedFrom(sha, sealed, i + 1);
      assert (forall j :: i <= j < |sealed| ==> Linked(sha, sealed, j))
             <==> Linked(sha, sealed, i) && forall j :: i + 1 <= j < |sealed| ==> Linked(sha, sealed, j);
    }
  }

  /** `verify` accepts exactly the logs in which every entry is in place and holds. */
  lemma {:induction false} VerifiedExactly(sha: Sha, sealed: Sealed)
    ensures VerifyLog(sha, sealed).Ok? <==> forall j :: 0 <= j < |sealed| ==> Linked(sha, sealed, j)
  {
    VerifiedFrom(sha, sealed, 0);
  }

  /** Entry k is the first that is not in place or does not hold. */
  ghost predicate FirstBroken(sha: Sha, sealed: Sealed, k: nat) {
    k < |sealed| && !Linked(sha, sealed, k) && forall j :: 0 <= j < k ==> Linked(sha, sealed, j)
  }

  ghost predicate FirstBrokenWithSalts(sha: Sha, sealed: Sealed, salts: Salts, k: nat) {
    k < |sealed| && !LinkedWithSalts(sha, sealed, salts, k) && forall j :: 0 <= j < k ==> LinkedWithSalts(sha, sealed, salts, j)
  }

  lemma {:induction false} BrokenBehind(sha: Sha, sealed: Sealed, i: nat, k: nat)
    requires i <= k && FirstBroken(sha, sealed, k)
    ensures VerifyFrom(sha, sealed, i, PrevAt(sealed, i)) ==
            Err(if sealed[k].event.number != k then Seq(k, sealed[k].event.number) else ChainBroken(k))
    decreases k - i
  {
    hide EntryHolds;
    if i < k {
      assert Linked(sha, sealed, i);
      BrokenBehind(sha, sealed, i + 1, k);
    }
  }

  lemma {:induction false} BrokenBehindWithSalts(sha: Sha, sealed: Sealed, salts: Salts, i: nat, k: nat)
    requires i <= k && FirstBrokenWithSalts(sha, sealed, salts, k)
    ensures VerifySaltsFrom(sha, sealed, salts, i, PrevAt(sealed, i)) == Err(ChainBroken(sealed[k].event.number))
    decreases k - i
  {
    hide EntryHoldsWithSalts;
    if i < k {
      assert LinkedWithSalts(sha, sealed, salts, i);
      BrokenBehindWithSalts(sha, sealed, salts, i + 1, k);
    }
  }

  /** A log that fails is blamed on its first broken entry: its number, if that is out of sequence, or its place. */
  lemma {:induction false} FirstBrokenIsNamed(sha: Sha, sealed: Sealed, salts: Salts, k: nat)
    ensures FirstBroken(sha, sealed, k) ==>
              VerifyLog(sha, sealed)
              == Err(if sealed[k].event.number != k then Seq(k, sealed[k].event.number) else ChainBroken(k))
    ensures FirstBrokenWithSalts(sha, sealed, salts, k) ==>
              VerifyLogWithSalts(sha, sealed, salts) == Err(ChainBroken(sealed[k].event.number))
  {
    hide VerifyFrom, VerifySaltsFrom, Linked, LinkedWithSalts;
    if FirstBroken(sha, sealed, k) {
      BrokenBehind(sha, sealed, 0, k);
    }
    if FirstBrokenWithSalts(sha, sealed, salts, k) {
      BrokenBehindWithSalts(sha, sealed, salts, 0, k);
    }
  }

  lemma {:induction false} VerifiedWithSaltsFrom(sha: Sha, sealed: Sealed, salts: Salts, i: nat)
    requires i <= |sealed|
    ensures VerifySaltsFrom(sha, sealed, salts, i, PrevAt(sealed, i)).Ok?
            <==> forall j :: i <= j < |sealed| ==> LinkedWithSalts(sha, sealed, salts, j)
    decreases |sealed| - i
  {
    hide EntryHoldsWithSalts;
    if i < |sealed| {
      VerifiedWithSaltsFrom(sha, sealed, salts, i + 1);
      assert (forall j :: i <= j < |sealed| ==> LinkedWithSalts(sha, sealed, salts, j))
             <==> LinkedWithSalts(sha, sealed, salts, i)
                  && forall j :: i + 1 <= j < |sealed| ==> LinkedWithSalts(sha, sealed, salts, j);
    }
  }

  lemma {:induction false} VerifiedWithSaltsExactly(sha: Sha, sealed: Sealed, salts: Salts)
    ensures VerifyLogWithSalts(sha, sealed, salts).Ok?
            <==> forall j :: 0 <= j < |sealed| ==> LinkedWithSalts(sha, sealed, salts, j)
  {
    VerifiedWithSaltsFrom(sha, sealed, salts, 0);
  }

  ghost predicate Unsalted(sealed: Sealed) {
    forall i :: 0 <= i < |sealed| ==> !sealed[i].salted
  }

  /** For a log without salted entries the two verifications agree, whatever the store holds. */
  lemma {:induction false} UnsaltedNeedsNoSalts(sha: Sha, sealed: Sealed, salts: Salts)
    requires Unsalted(sealed)
    ensures VerifyLog(sha, sealed).Ok? <==> VerifyLogWithSalts(sha, sealed, salts).Ok?
  {
    hide VerifyLog, VerifyLogWithSalts, EventCommitment, CanonicalBody;
    VerifiedExactly(sha, sealed);
    VerifiedWithSaltsExactly(sha, sealed, salts);
    assert forall j :: 0 <= j < |sealed| ==> (Linked(sha, sealed, j) <==> LinkedWithSalts(sha, sealed, salts, j));
  }

  // ----- honest logs verify

  /** An event handed to `append`, with its salt and the reference under which the owner keeps it. */
  datatype Entry = Entry(event: TypedEvent, salt: Option<Salt>, saltRef: Option<nat>)

  /** The log after appending all the entries to what is there. */
  function Resume(sha: Sha, before: Sealed, entries: seq<Entry>): (sealed: Sealed)
    ensures |sealed| == |before| + |entries|
  {
    if entries == [] then before else
      var sofar, last := Resume(sha, before, entries[..|entries| - 1]), entries[|entries| - 1];
      sofar + [Seal(sha, sofar, last.event, last.salt, last.saltRef)]
  }

  /** The log of these entries, from the first one on. */
  function SealAll(sha: Sha, entries: seq<Entry>): (sealed: Sealed)
    ensures |sealed| == |entries|
  {
    Resume(sha, [], entries)
  }

  /** What `append` asks for behind n entries: the events come in sequence. */
  ghost predicate InSequenceFrom(n: nat, entries: seq<Entry>) {
    forall i :: 0 <= i < |entries| ==> entries[i].event.number == n + i
  }

  ghost predicate InSequence(entries: seq<Entry>) {
    InSequenceFrom(0, entries)
  }

  lemma {:induction false} ResumeKeeps(sha: Sha, before: Sealed, entries: seq<Entry>)
    ensures Resume(sha, before, entries)[..|before|] == before
  {
    hide Seal;
    if entries != [] {
      ResumeKeeps(sha, before, entries[..|entries| - 1]);
    }
  }

  lemma {:induction false} ResumeAt(sha: Sha, before: Sealed, entries: seq<Entry>, i: nat)
    requires i < |entries|
    ensures var sealed, at := Resume(sha, before, entries), |before| + i;
      sealed[at] == Seal(sha, sealed[..at], entries[i].event, entries[i].salt, entries[i].saltRef)
  {
    hide Seal;
    var last, at := |entries| - 1, |before| + i;
    if i < last {
      ResumeAt(sha, before, entries[..last], i);
      assert Resume(sha, before, entries)[..at] == Resume(sha, before, entries[..last])[..at];
    } else {
      assert Resume(sha, before, entries)[..at] == Resume(sha, before, entries[..last]);
    }
  }

  lemma {:induction false} SealAllAt(sha: Sha, entries: seq<Entry>, i: nat)
    requires i < |entries|
    ensures var sealed := SealAll(sha, entries);
      sealed[i] == Seal(sha, sealed[..i], entries[i].event, entries[i].salt, entries[i].saltRef)
  {
    hide Resume, Seal;
    ResumeAt(sha, [], entries, i);
  }

  /** No collision between what is hashed for an entry with one salt, and what is hashed for it with another or none. */
  ghost predicate NoCollisionAt(sha: Sha, sealed: Sealed, i: nat, s: Option<Salt>, t: Option<Salt>)
    requires i < |sealed|
  {
    var body, prev := CanonicalBody(sealed[i].event), PrevAt(sealed, i);
    CollisionFree(sha, {CommitmentString(body, prev, s), CommitmentString(body, prev, t)})
  }

  lemma {:induction false} ResumedIsLinked(sha: Sha, before: Sealed, entries: seq<Entry>, i: nat)
    requires i < |entries| && NoCollisionAt(sha, Resume(sha, before, entries), |before| + i, entries[i].salt, None)
    ensures Linked(sha, Resume(sha, before, entries), |before| + i) <==> entries[i].event.number == |before| + i
  {
    hide Resume, CanonicalBody, CommitmentString;
    var sealed, at := Resume(sha, before, entries), |before| + i;
    ResumeAt(sha, before, entries, i);
    assert Head(sealed[..at]) == PrevAt(sealed, at);
    if entries[i].salt.Some? {
      SaltedIsAnotherString(CanonicalBody(sealed[at].event), PrevAt(sealed, at), entries[i].salt.value);
    }
  }

  /**
   What is appended to a log that verifies, verifies with it, if and only if it is in sequence: the check that a salted
   commitment differs from the unsalted one never rejects an honest entry.
   */
  lemma {:induction false} ResumedVerifies(sha: Sha, before: Sealed, entries: seq<Entry>)
    requires VerifyLog(sha, before).Ok?
    requires forall i :: 0 <= i < |entries| ==>
               NoCollisionAt(sha, Resume(sha, before, entries), |before| + i, entries[i].salt, None)
    ensures VerifyLog(sha, Resume(sha, before, entries)).Ok? <==> InSequenceFrom(|before|, entries)
  {
    hide Resume, VerifyLog, EntryHolds, NoCollisionAt;
    var sealed, n := Resume(sha, before, entries), |before|;
    VerifiedExactly(sha, before);
    VerifiedExactly(sha, sealed);
    ResumeKeeps(sha, before, entries);
    assert forall i :: 0 <= i < n ==> sealed[i] == before[i] && PrevAt(sealed, i) == PrevAt(before, i);
    assert forall i :: 0 <= i < n ==> (Linked(sha, sealed, i) <==> Linked(sha, before, i));
    forall i | 0 <= i < |entries| ensures Linked(sha, sealed, n + i) <==> entries[i].event.number == n + i {
      ResumedIsLinked(sha, before, entries, i);
    }
    forall j | n <= j < |sealed| ensures Linked(sha, sealed, j) <==> entries[j - n].event.number == j {
      ResumedIsLinked(sha, before, entries, j - n);
    }
  }

  /** Every honest log verifies. */
  lemma {:induction false} HonestLogVerifies(sha: Sha, entries: seq<Entry>)
    requires InSequence(entries)
    requires forall i :: 0 <= i < |entries| ==> NoCollisionAt(sha, SealAll(sha, entries), i, entries[i].salt, None)
    ensures VerifyLog(sha, SealAll(sha, entries)).Ok?
  {
    hide Resume, NoCollisionAt;
    ResumedVerifies(sha, [], entries);
  }

  /**
   The owner's verification of an honest log succeeds exactly if the store yields, for every salted entry, the
   salt it was sealed with.
   */
  lemma {:induction false} HonestLogVerifiesWithItsSalts(sha: Sha, entries: seq<Entry>, salts: Salts)
    requires InSequence(entries)
    requires forall i :: 0 <= i < |entries| ==>
               NoCollisionAt(sha, SealAll(sha, entries), i, entries[i].salt, SaltFor(salts, SealAll(sha, entries)[i]))
    ensures VerifyLogWithSalts(sha, SealAll(sha, entries), salts).Ok?
            <==> forall i :: 0 <= i < |entries| && entries[i].salt.Some? ==>
                   && entries[i].saltRef.Some? && entries[i].saltRef.value in salts
                   && salts[entries[i].saltRef.value] == entries[i].salt.value
  {
    hide SealAll, VerifyLogWithSalts, CanonicalBody, CommitmentString;
    var sealed := SealAll(sha, entries);
    VerifiedWithSaltsExactly(sha, sealed, salts);
    forall i | 0 <= i < |sealed|
      ensures LinkedWithSalts(sha, sealed, salts, i) <==> SaltFor(salts, sealed[i]) == entries[i].salt
      ensures sealed[i].salted == entries[i].salt.Some? && sealed[i].saltRef == entries[i].saltRef
    {
      SealAllAt(sha, entries, i);
      assert Head(sealed[..i]) == PrevAt(sealed, i);
      assert NoCollisionAt(sha, sealed, i, entries[i].salt, SaltFor(salts, sealed[i]));
      if LinkedWithSalts(sha, sealed, salts, i) {
        StringFixesSalt(CanonicalBody(sealed[i].event), PrevAt(sealed, i), entries[i].salt, SaltFor(salts, sealed[i]));
      }
    }
    hide NoCollisionAt, LinkedWithSalts, InSequence;
    forall i | 0 <= i < |entries|
      ensures SaltFor(salts, sealed[i]) == entries[i].salt <==>
              (entries[i].salt.Some? ==>
                 && entries[i].saltRef.Some? && entries[i].saltRef.value in salts
                 && salts[entries[i].saltRef.value] == entries[i].salt.value)
    {
      assert sealed[i].salted == entries[i].salt.Some? && sealed[i].saltRef == entries[i].saltRef;
    }
  }

  /** The store after remembering the salt of every salted entry under its reference. */
  function RememberAll(entries: seq<Entry>): Salts {
    if entries == [] then map[] else
      var before, last := RememberAll(entries[..|entries| - 1]), entries[|entries| - 1];
      if last.salt.Some? && last.saltRef.Some? then before[last.saltRef.value := last.salt.value] else before
  }

  ghost predicate OwnReferences(entries: seq<Entry>) {
    && (forall i :: 0 <= i < |entries| && entries[i].salt.Some? ==> entries[i].saltRef.Some?)
    && forall i, j :: 0 <= i < j < |entries| && entries[i].salt.Some? && entries[j].salt.Some? ==>
         entries[i].saltRef != entries[j].saltRef
  }

  /** Salts remembered each under a reference of its own are all found again. */
  lemma {:induction false} RememberedIsFound(entries: seq<Entry>, i: nat)
    requires OwnReferences(entries) && i < |entries| && entries[i].salt.Some?
    ensures entries[i].saltRef.value in RememberAll(entries)
    ensures RememberAll(entries)[entries[i].saltRef.value] == entries[i].salt.value
  {
    var last := |entries| - 1;
    if i < last {
      RememberedIsFound(entries[..last], i);
    }
  }

  /** An honest log verifies with the salts its owner remembered, each under a reference of its own. */
  lemma {:induction false} HonestLogVerifiesForItsOwner(sha: Sha, entries: seq<Entry>)
    requires InSequence(entries) && OwnReferences(entries)
    ensures VerifyLogWithSalts(sha, SealAll(sha, entries), RememberAll(entries)).Ok?
  {
    hide SealAll, VerifyLogWithSalts, CanonicalBody, CommitmentString, RememberAll, OwnReferences;
    var sealed, salts := SealAll(sha, entries), RememberAll(entries);
    forall i | 0 <= i < |entries|
      ensures NoCollisionAt(sha, sealed, i, entries[i].salt, SaltFor(salts, sealed[i]))
      ensures entries[i].salt.Some? ==>
                && entries[i].saltRef.Some? && entries[i].saltRef.value in salts
                && salts[entries[i].saltRef.value] == entries[i].salt.value
    {
      SealAllAt(sha, entries, i);
      SaltedHasReference(entries, i);
      if entries[i].salt.Some? {
        RememberedIsFound(entries, i);
      }
    }
    HonestLogVerifiesWithItsSalts(sha, entries, salts);
  }

  lemma {:induction false} SaltedHasReference(entries: seq<Entry>, i: nat)
    requires OwnReferences(entries) && i < |entries|
    ensures entries[i].salt.Some? ==> entries[i].saltRef.Some?
  {}

  // ----- the anchor fixes history

  /** What `verify_with_salts` hashes for entry `i`. */
  function StringAt(sealed: Sealed, salts: Salts, i: nat): bytes
    requires i < |sealed|
  {
    CommitmentString(CanonicalBody(sealed[i].event), PrevAt(sealed, i), SaltFor(salts, sealed[i]))
  }

  ghost function HashedBy(sealed: Sealed, salts: Salts): set<bytes> {
    set i | 0 <= i < |sealed| :: StringAt(sealed, salts, i)
  }

  /** The same events and the same salts, and so the same chain. */
  ghost predicate SameHistory(a: Sealed, sa: Salts, b: Sealed, sb: Salts) {
    && |a| == |b|
    && forall i :: 0 <= i < |a| ==>
         && CanonicalBody(a[i].event) == CanonicalBody(b[i].event) && SaltFor(sa, a[i]) == SaltFor(sb, b[i])
         && a[i].prev == b[i].prev && a[i].commitment == b[i].commitment
  }

  lemma {:induction false} HashedByPrefix(sealed: Sealed, salts: Salts, n: nat)
    requires n <= |sealed|
    ensures HashedBy(sealed[..n], salts) <= HashedBy(sealed, salts)
  {
    hide CommitmentString, CanonicalBody, SaltFor;
    forall i | 0 <= i < n ensures StringAt(sealed[..n], salts, i) == StringAt(sealed, salts, i) {
    }
  }

  /** A prefix of a verified log verifies. */
  lemma {:induction false} PrefixVerifies(sha: Sha, sealed: Sealed, salts: Salts, n: nat)
    requires n <= |sealed|
    ensures VerifyLog(sha, sealed).Ok? ==> VerifyLog(sha, sealed[..n]).Ok?
    ensures VerifyLogWithSalts(sha, sealed, salts).Ok? ==> VerifyLogWithSalts(sha, sealed[..n], salts).Ok?
  {
    hide VerifyLog, VerifyLogWithSalts, EntryHolds, EntryHoldsWithSalts;
    VerifiedExactly(sha, sealed);
    VerifiedExactly(sha, sealed[..n]);
    VerifiedWithSaltsExactly(sha, sealed, salts);
    VerifiedWithSaltsExactly(sha, sealed[..n], salts);
    assert forall i :: 0 <= i < n ==> sealed[..n][i] == sealed[i] && PrevAt(sealed[..n], i) == PrevAt(sealed, i);
    assert forall i :: 0 <= i < n ==> (Linked(sha, sealed[..n], i) <==> Linked(sha, sealed, i));
    assert forall i :: 0 <= i < n ==>
        (LinkedWithSalts(sha, sealed[..n], salts, i) <==> LinkedWithSalts(sha, sealed, salts, i));
  }

  lemma {:induction false} LastEntriesAgree(sha: Sha, a: Sealed, sa: Salts, b: Sealed, sb: Salts)
    requires a != [] && b != [] && Head(a) == Head(b)
    requires LinkedWithSalts(sha, a, sa, |a| - 1) && LinkedWithSalts(sha, b, sb, |b| - 1)
    requires CollisionFree(sha, {StringAt(a, sa, |a| - 1), StringAt(b, sb, |b| - 1)})
    ensures |a| == |b|
    ensures CanonicalBody(a[|a| - 1].event) == CanonicalBody(b[|b| - 1].event)
    ensures SaltFor(sa, a[|a| - 1]) == SaltFor(sb, b[|b| - 1])
    ensures PrevAt(a, |a| - 1) == PrevAt(b, |b| - 1)
  {
    hide CanonicalBody, CommitmentString, SaltFor;
    var x, y := a[|a| - 1], b[|b| - 1];
    assert StringAt(a, sa, |a| - 1) == StringAt(b, sb, |b| - 1);
    StringFixesAll(x.event, PrevAt(a, |a| - 1), SaltFor(sa, x), y.event, PrevAt(b, |b| - 1), SaltFor(sb, y));
    BodyFixesEvent(x.event, y.event);
  }

  lemma {:induction false} HistoryWithLast(a: Sealed, sa: Salts, b: Sealed, sb: Salts)
    requires a != [] && b != [] && SameHistory(a[..|a| - 1], sa, b[..|b| - 1], sb)
    requires var x, y := a[|a| - 1], b[|b| - 1];
      && CanonicalBody(x.event) == CanonicalBody(y.event) && SaltFor(sa, x) == SaltFor(sb, y)
      && x.prev == y.prev && x.commitment == y.commitment
    ensures SameHistory(a, sa, b, sb)
  {
    hide CanonicalBody, SaltFor;
    assert forall i :: 0 <= i < |a| - 1 ==> a[..|a| - 1][i] == a[i] && b[..|b| - 1][i] == b[i];
  }

  /** Two logs verified with salts, each with its own store, and with one head record one history, salts included. */
  lemma {:induction false} HeadFixesHistory(sha: Sha, a: Sealed, sa: Salts, b: Sealed, sb: Salts)
    requires VerifyLogWithSalts(sha, a, sa).Ok? && VerifyLogWithSalts(sha, b, sb).Ok?
    requires a != [] && b != [] && Head(a) == Head(b)
    requires CollisionFree(sha, HashedBy(a, sa) + HashedBy(b, sb))
    ensures SameHistory(a, sa, b, sb)
    decreases |a|
  {
    hide VerifyLogWithSalts, CanonicalBody, SaltFor, StringAt, EntryHoldsWithSalts;
    var n, m := |a| - 1, |b| - 1;
    VerifiedWithSaltsExactly(sha, a, sa);
    VerifiedWithSaltsExactly(sha, b, sb);
    assert LinkedWithSalts(sha, a, sa, n) && LinkedWithSalts(sha, b, sb, m);
    assert StringAt(a, sa, n) in HashedBy(a, sa) && StringAt(b, sb, m) in HashedBy(b, sb);
    LastEntriesAgree(sha, a, sa, b, sb);
    if n > 0 {
      PrefixVerifies(sha, a, sa, n);
      PrefixVerifies(sha, b, sb, m);
      HashedByPrefix(a, sa, n);
      HashedByPrefix(b, sb, m);
      HeadFixesHistory(sha, a[..n], sa, b[..m], sb);
      HistoryWithLast(a, sa, b, sb);
    }
  }

  /** Verified logs of one history have one head: nothing else enters it. */
  lemma {:induction false} HistoryFixesHead(sha: Sha, a: Sealed, sa: Salts, b: Sealed, sb: Salts)
    requires VerifyLogWithSalts(sha, a, sa).Ok? && VerifyLogWithSalts(sha, b, sb).Ok? && |a| == |b|
    requires forall i :: 0 <= i < |a| ==>
               CanonicalBody(a[i].event) == CanonicalBody(b[i].event) && SaltFor(sa, a[i]) == SaltFor(sb, b[i])
    ensures SameHistory(a, sa, b, sb) && Head(a) == Head(b)
    decreases |a|
  {
    hide VerifyLogWithSalts, CanonicalBody, SaltFor, CommitmentString;
    if a != [] {
      var n := |a| - 1;
      VerifiedWithSaltsExactly(sha, a, sa);
      VerifiedWithSaltsExactly(sha, b, sb);
      assert LinkedWithSalts(sha, a, sa, n) && LinkedWithSalts(sha, b, sb, n);
      PrefixVerifies(sha, a, sa, n);
      PrefixVerifies(sha, b, sb, n);
      HistoryFixesHead(sha, a[..n], sa, b[..n], sb);
      HistoryWithLast(a, sa, b, sb);
      assert PrevAt(a, n) == Head(a[..n]) && PrevAt(b, n) == Head(b[..n]);
    }
  }

  ghost predicate SameBodies(a: Sealed, b: Sealed) {
    |a| == |b| && forall i :: 0 <= i < |a| ==> CanonicalBody(a[i].event) == CanonicalBody(b[i].event)
  }

  /** The same bodies, recomputed with the same salts. */
  ghost predicate SameContent(a: Sealed, sa: Salts, b: Sealed, sb: Salts) {
    SameBodies(a, b) && forall i :: 0 <= i < |a| ==> SaltFor(sa, a[i]) == SaltFor(sb, b[i])
  }

  /** A witnessed anchor admits, of all the logs that verify with salts, just those with its very bodies and salts. */
  lemma {:induction false} AnchorFixesSaltedHistory(sha: Sha, witnessed: Sealed, sw: Salts, log: Sealed, sl: Salts)
    requires witnessed != []
    requires VerifyLogWithSalts(sha, witnessed, sw).Ok? && VerifyLogWithSalts(sha, log, sl).Ok?
    requires CollisionFree(sha, HashedBy(witnessed, sw) + HashedBy(log, sl))
    ensures CheckAnchor(log, Head(witnessed).value).Ok? <==> SameContent(witnessed, sw, log, sl)
  {
    hide VerifyLogWithSalts, CanonicalBody, CommitmentString, HashedBy, SaltFor;
    if CheckAnchor(log, Head(witnessed).value).Ok? {
      HeadFixesHistory(sha, witnessed, sw, log, sl);
    } else if SameContent(witnessed, sw, log, sl) {
      HistoryFixesHead(sha, witnessed, sw, log, sl);
    }
  }

  /** A truncated log still verifies, and the anchor refuses it. */
  lemma {:induction false} TruncationIsSeenByTheAnchorOnly(sha: Sha, sealed: Sealed, salts: Salts, n: nat)
    requires n < |sealed| && VerifyLogWithSalts(sha, sealed, salts).Ok?
    requires CollisionFree(sha, HashedBy(sealed, salts))
    ensures VerifyLogWithSalts(sha, sealed[..n], salts).Ok?
    ensures VerifyLog(sha, sealed).Ok? ==> VerifyLog(sha, sealed[..n]).Ok?
    ensures CheckAnchor(sealed[..n], Head(sealed).value) == Err(AnchorMismatch(Head(sealed).value, Head(sealed[..n])))
  {
    hide VerifyLog, VerifyLogWithSalts, CanonicalBody, HashedBy, SaltFor;
    PrefixVerifies(sha, sealed, salts, n);
    HashedByPrefix(sealed, salts, n);
    assert HashedBy(sealed, salts) + HashedBy(sealed[..n], salts) == HashedBy(sealed, salts);
    AnchorFixesSaltedHistory(sha, sealed, salts, sealed[..n], salts);
  }

  // ----- what an anchor fixes without salts

  /** The last k entries are unsalted. */
  ghost predicate UnsaltedTail(sealed: Sealed, k: nat)
    requires k <= |sealed|
  {
    forall i :: |sealed| - k <= i < |sealed| ==> !sealed[i].salted
  }

  /** The last k entries have the same bodies, and follow the same commitment. */
  ghost predicate TailsAgree(a: Sealed, b: Sealed, k: nat)
    requires k <= |a| && k <= |b|
  {
    && |a| == |b| && PrevAt(a, |a| - k) == PrevAt(b, |b| - k)
    && forall i :: |a| - k <= i < |a| ==> CanonicalBody(a[i].event) == CanonicalBody(b[i].event)
  }

  lemma {:induction false} LastUnsaltedAgree(sha: Sha, a: Sealed, b: Sealed)
    requires a != [] && b != [] && !a[|a| - 1].salted && !b[|b| - 1].salted
    requires Linked(sha, a, |a| - 1) && Linked(sha, b, |b| - 1)
    requires CollisionFree(sha, {UnsaltedStringAt(a, |a| - 1), UnsaltedStringAt(b, |b| - 1)})
    ensures Head(a) == Head(b) <==>
            && |a| == |b| && PrevAt(a, |a| - 1) == PrevAt(b, |b| - 1)
            && CanonicalBody(a[|a| - 1].event) == CanonicalBody(b[|b| - 1].event)
  {
    hide CanonicalBody, CommitmentString;
    var x, y := a[|a| - 1], b[|b| - 1];
    if Head(a) == Head(b) {
      assert UnsaltedStringAt(a, |a| - 1) == UnsaltedStringAt(b, |b| - 1);
      StringFixesAll(x.event, PrevAt(a, |a| - 1), None, y.event, PrevAt(b, |b| - 1), None);
      BodyFixesEvent(x.event, y.event);
    }
  }

  /** What `verify` hashes for entry `i`. */
  function UnsaltedStringAt(sealed: Sealed, i: nat): bytes
    requires i < |sealed|
  {
    CommitmentString(CanonicalBody(sealed[i].event), PrevAt(sealed, i), None)
  }

  ghost function HashedUnsalted(sealed: Sealed): set<bytes> {
    set i | 0 <= i < |sealed| :: UnsaltedStringAt(sealed, i)
  }

  lemma {:induction false} HashedUnsaltedPrefix(sealed: Sealed, n: nat)
    requires n <= |sealed|
    ensures HashedUnsalted(sealed[..n]) <= HashedUnsalted(sealed)
  {
    hide CommitmentString, CanonicalBody;
    forall i | 0 <= i < n ensures UnsaltedStringAt(sealed[..n], i) == UnsaltedStringAt(sealed, i) {
    }
  }

  lemma {:induction false} TailsAgreeBefore(a: Sealed, b: Sealed, k: nat)
    requires 1 < k <= |a| && k <= |b|
    ensures TailsAgree(a, b, k) <==>
            && TailsAgree(a[..|a| - 1], b[..|b| - 1], k - 1)
            && CanonicalBody(a[|a| - 1].event) == CanonicalBody(b[|b| - 1].event)
  {
    hide CanonicalBody;
    var c, d := a[..|a| - 1], b[..|b| - 1];
    assert |a| == |b| ==> PrevAt(c, |c| - (k - 1)) == PrevAt(a, |a| - k) && PrevAt(d, |d| - (k - 1)) == PrevAt(b, |b| - k);
    assert forall i :: 0 <= i < |c| ==> c[i] == a[i];
    assert forall i :: 0 <= i < |d| ==> d[i] == b[i];
  }

  /**
   Without salts, an anchor fixes the unsalted tail: for two logs that pass `verify` and both end in k unsalted
   entries, the anchor of one admits the other if and only if these entries have the same bodies, at the same places,
   behind the same commitment.
   */
  lemma {:induction false} AnchorFixesUnsaltedTail(sha: Sha, witnessed: Sealed, log: Sealed, k: nat)
    requires VerifyLog(sha, witnessed).Ok? && VerifyLog(sha, log).Ok?
    requires 1 <= k <= |witnessed| && k <= |log| && UnsaltedTail(witnessed, k) && UnsaltedTail(log, k)
    requires CollisionFree(sha, HashedUnsalted(witnessed) + HashedUnsalted(log))
    ensures CheckAnchor(log, Head(witnessed).value).Ok? <==> TailsAgree(witnessed, log, k)
    decreases k
  {
    hide VerifyLog, CanonicalBody, UnsaltedStringAt, EntryHolds;
    var n, m := |witnessed| - 1, |log| - 1;
    VerifiedExactly(sha, witnessed);
    VerifiedExactly(sha, log);
    assert Linked(sha, witnessed, n) && Linked(sha, log, m);
    assert UnsaltedStringAt(witnessed, n) in HashedUnsalted(witnessed) && UnsaltedStringAt(log, m) in HashedUnsalted(log);
    LastUnsaltedAgree(sha, witnessed, log);
    if k > 1 {
      PrefixVerifies(sha, witnessed, map[], n);
      PrefixVerifies(sha, log, map[], m);
      HashedUnsaltedPrefix(witnessed, n);
      HashedUnsaltedPrefix(log, m);
      AnchorFixesUnsaltedTail(sha, witnessed[..n], log[..m], k - 1);
      TailsAgreeBefore(witnessed, log, k);
      assert Head(witnessed[..n]) == PrevAt(witnessed, n) && Head(log[..m]) == PrevAt(log, m);
    }
  }

  /** So of the logs without any salted entry, an anchor admits just those with the witnessed bodies. */
  lemma {:induction false} AnchorFixesHistory(sha: Sha, witnessed: Sealed, log: Sealed)
    requires witnessed != [] && Unsalted(witnessed) && Unsalted(log)
    requires VerifyLog(sha, witnessed).Ok? && VerifyLog(sha, log).Ok?
    requires CollisionFree(sha, HashedUnsalted(witnessed) + HashedUnsalted(log))
    ensures CheckAnchor(log, Head(witnessed).value).Ok? <==> SameBodies(witnessed, log)
  {
    hide VerifyLog, CanonicalBody, HashedUnsalted;
    var k := if |witnessed| <= |log| then |witnessed| else |log|;
    if log != [] {
      AnchorFixesUnsaltedTail(sha, witnessed, log, k);
    }
  }

  /** Any log that verifies, with one entry flagged as salted behind it, verifies and meets almost any anchor. */
  lemma {:induction false} SaltedEndMeetsAnyAnchor(
    sha: Sha, before: Sealed, event: TypedEvent, anchor: Digest, saltRef: Option<nat>)
    requires VerifyLog(sha, before).Ok?
    ensures var fork := before + [SealedEvent(event, Head(before), anchor, true, saltRef)];
      && CheckAnchor(fork, anchor).Ok?
      && (VerifyLog(sha, fork).Ok? <==>
            event.number == |before| && EventCommitment(sha, CanonicalBody(event), Head(before), None) != anchor)
  {
    hide VerifyLog, CanonicalBody, EventCommitment;
    var fork := before + [SealedEvent(event, Head(before), anchor, true, saltRef)];
    VerifiedExactly(sha, before);
    VerifiedExactly(sha, fork);
    assert forall i :: 0 <= i <= |before| ==> PrevAt(fork, i) == PrevAt(before, i);
    assert forall i :: 0 <= i < |before| ==> (Linked(sha, fork, i) <==> Linked(sha, before, i));
    assert VerifyLog(sha, fork).Ok? <==> Linked(sha, fork, |before|);
  }

  /** The witnessed log with everything up to and including entry c exchanged, entry c flagged as salted. */
  function Forked(witnessed: Sealed, c: nat, before: Sealed, event: TypedEvent, saltRef: Option<nat>): Sealed
    requires c < |witnessed|
  {
    before + [SealedEvent(event, Head(before), witnessed[c].commitment, true, saltRef)] + witnessed[c + 1..]
  }

  /** Nothing before the unsalted tail is fixed: the anchor admits every such fork. */
  lemma {:induction false} AnchorAdmitsFork(
    sha: Sha, witnessed: Sealed, c: nat, before: Sealed, event: TypedEvent, saltRef: Option<nat>)
    requires VerifyLog(sha, witnessed).Ok? && VerifyLog(sha, before).Ok? && |before| == c < |witnessed|
    requires event.number == c
    requires EventCommitment(sha, CanonicalBody(event), Head(before), None) != witnessed[c].commitment
    ensures var fork := Forked(witnessed, c, before, event, saltRef);
      VerifyLog(sha, fork).Ok? && CheckAnchor(fork, Head(witnessed).value).Ok?
  {
    hide VerifyLog, CanonicalBody, EventCommitment;
    var fork := Forked(witnessed, c, before, event, saltRef);
    VerifiedExactly(sha, before);
    VerifiedExactly(sha, witnessed);
    VerifiedExactly(sha, fork);
    forall i | 0 <= i < |fork| ensures Linked(sha, fork, i) {
      if i < c {
        assert Linked(sha, before, i) && fork[i] == before[i] && PrevAt(fork, i) == PrevAt(before, i);
      } else if i == c {
        assert PrevAt(fork, c) == Head(before);
      } else {
        assert Linked(sha, witnessed, i) && fork[i] == witnessed[i];
        assert fork[i - 1].commitment == witnessed[i - 1].commitment;
      }
    }
  }

  /** At every place of a witnessed unsalted log, a salted flag alone admits a fork that differs there. */
  lemma {:induction false} SaltedFlagAdmitsFork(sha: Sha, witnessed: Sealed, c: nat) returns (fork: Sealed)
    requires VerifyLog(sha, witnessed).Ok? && c < |witnessed| && !witnessed[c].salted
    requires var e := witnessed[c].event;
      CollisionFree(sha, {CommitmentString(CanonicalBody(e), PrevAt(witnessed, c), None),
                          CommitmentString(CanonicalBody(e.(rest := e.rest + "x")), PrevAt(witnessed, c), None)})
    ensures VerifyLog(sha, fork).Ok? && CheckAnchor(fork, Head(witnessed).value).Ok? && |fork| == |witnessed|
    ensures CanonicalBody(fork[c].event) != CanonicalBody(witnessed[c].event)
    ensures forall i :: 0 <= i < |fork| && i != c ==> fork[i] == witnessed[i]
  {
    hide VerifyLog, CanonicalBody, CommitmentString;
    var e := witnessed[c].event;
    var f := e.(rest := e.rest + "x");
    var before := witnessed[..c];
    OtherRestOtherBody(e, f);
    VerifiedExactly(sha, witnessed);
    assert Linked(sha, witnessed, c);
    PrefixVerifies(sha, witnessed, map[], c);
    assert Head(before) == PrevAt(witnessed, c);
    StringDiffers(f, e, PrevAt(witnessed, c));
    AnchorAdmitsFork(sha, witnessed, c, before, f, None);
    fork := Forked(witnessed, c, before, f, None);
  }

  lemma {:induction false} OtherRestOtherBody(e: TypedEvent, f: TypedEvent)
    requires e.rest != f.rest
    ensures CanonicalBody(e) != CanonicalBody(f)
  {
    hide CanonicalBody;
    if CanonicalBody(e) == CanonicalBody(f) {
      BodyFixesEvent(e, f);
    }
  }

  lemma {:induction false} StringDiffers(e: TypedEvent, f: TypedEvent, prev: Option<Digest>)
    requires CanonicalBody(e) != CanonicalBody(f)
    ensures CommitmentString(CanonicalBody(e), prev, None) != CommitmentString(CanonicalBody(f), prev, None)
  {
    hide CanonicalBody, CommitmentString;
    if CommitmentString(CanonicalBody(e), prev, None) == CommitmentString(CanonicalBody(f), prev, None) {
      StringParts(CanonicalBody(e), prev, None, CanonicalBody(f), prev, None);
    }
  }

  // ----- editing an entry in place

  /**
   Any entry of a verified log exchanged for anything: `verify` accepts it exactly if it has the number and the
   predecessor of the place, holds by itself, and has the old commitment if another entry is behind it.
   */
  lemma {:induction false} ExchangedExactly(sha: Sha, sealed: Sealed, i: nat, s: SealedEvent)
    requires i < |sealed| && VerifyLog(sha, sealed).Ok?
    ensures VerifyLog(sha, sealed[i := s]).Ok? <==>
            && s.event.number == i && s.prev == sealed[i].prev && EntryHolds(sha, s, s.prev)
            && (i + 1 < |sealed| ==> s.commitment == sealed[i].commitment)
  {
    hide VerifyLog, EntryHolds;
    var edited := sealed[i := s];
    VerifiedExactly(sha, sealed);
    VerifiedExactly(sha, edited);
    assert forall j :: 0 <= j <= |sealed| && j != i + 1 ==> PrevAt(edited, j) == PrevAt(sealed, j);
    assert forall j :: 0 <= j < |sealed| && j != i && j != i + 1 ==> (Linked(sha, edited, j) <==> Linked(sha, sealed, j));
    assert Linked(sha, sealed, i) && PrevAt(edited, i) == sealed[i].prev;
    if i + 1 < |sealed| {
      assert Linked(sha, sealed, i + 1) && PrevAt(edited, i + 1) == Some(s.commitment);
      assert Linked(sha, edited, i + 1) <==> s.commitment == sealed[i].commitment;
    }
    if Linked(sha, edited, i) && (i + 1 < |sealed| ==> s.commitment == sealed[i].commitment) {
      assert forall j :: 0 <= j < |sealed| ==> Linked(sha, edited, j);
    }
  }

  /** The same for the verification with salts. */
  lemma {:induction false} ExchangedExactlyWithSalts(sha: Sha, sealed: Sealed, salts: Salts, i: nat, s: SealedEvent)
    requires i < |sealed| && VerifyLogWithSalts(sha, sealed, salts).Ok?
    ensures VerifyLogWithSalts(sha, sealed[i := s], salts).Ok? <==>
            && s.event.number == i && s.prev == sealed[i].prev && EntryHoldsWithSalts(sha, s, s.prev, salts)
            && (i + 1 < |sealed| ==> s.commitment == sealed[i].commitment)
  {
    hide VerifyLogWithSalts, EntryHoldsWithSalts;
    var edited := sealed[i := s];
    VerifiedWithSaltsExactly(sha, sealed, salts);
    VerifiedWithSaltsExactly(sha, edited, salts);
    assert forall j :: 0 <= j <= |sealed| && j != i + 1 ==> PrevAt(edited, j) == PrevAt(sealed, j);
    assert forall j :: 0 <= j < |sealed| && j != i && j != i + 1 ==>
        (LinkedWithSalts(sha, edited, salts, j) <==> LinkedWithSalts(sha, sealed, salts, j));
    assert LinkedWithSalts(sha, sealed, salts, i) && PrevAt(edited, i) == sealed[i].prev;
    if i + 1 < |sealed| {
      assert LinkedWithSalts(sha, sealed, salts, i + 1) && PrevAt(edited, i + 1) == Some(s.commitment);
      assert LinkedWithSalts(sha, edited, salts, i + 1) <==> s.commitment == sealed[i].commitment;
    }
    if LinkedWithSalts(sha, edited, salts, i) && (i + 1 < |sealed| ==> s.commitment == sealed[i].commitment) {
      assert forall j :: 0 <= j < |sealed| ==> LinkedWithSalts(sha, edited, salts, j);
    }
  }

  /**
   Any edit of an entry of a verified log, in event, number, predecessor, flag or reference, that keeps its
   commitment. In place of an unsalted entry, `verify` accepts exactly the same body unsalted, or another body flagged
   as salted. In place of a salted one it accepts whatever does not contradict its flag; references are never looked at.
   */
  lemma {:induction false} EditIsSeen(sha: Sha, sealed: Sealed, i: nat, s: SealedEvent)
    requires i < |sealed| && s.commitment == sealed[i].commitment && VerifyLog(sha, sealed).Ok?
    requires CollisionFree(sha, {CommitmentString(CanonicalBody(s.event), PrevAt(sealed, i), None),
                                 CommitmentString(CanonicalBody(sealed[i].event), PrevAt(sealed, i), None)})
    ensures !sealed[i].salted ==>
              (VerifyLog(sha, sealed[i := s]).Ok? <==>
                 && s.event.number == i && s.prev == sealed[i].prev
                 && (s.salted <==> CanonicalBody(s.event) != CanonicalBody(sealed[i].event)))
    ensures sealed[i].salted ==>
              (VerifyLog(sha, sealed[i := s]).Ok? <==>
                 && s.event.number == i && s.prev == sealed[i].prev
                 && (s.salted <==> EventCommitment(sha, CanonicalBody(s.event), s.prev, None) != s.commitment))
  {
    VerifiedExactly(sha, sealed);
    hide VerifyLog, CanonicalBody, CommitmentString;
    assert Linked(sha, sealed, i);
    ExchangedExactly(sha, sealed, i, s);
    if CanonicalBody(s.event) != CanonicalBody(sealed[i].event) {
      StringDiffers(s.event, sealed[i].event, PrevAt(sealed, i));
    }
  }

  /** With the salts, exactly the edits that keep number, predecessor, body and salt pass. */
  lemma {:induction false} EditIsSeenWithSalts(sha: Sha, sealed: Sealed, salts: Salts, i: nat, s: SealedEvent)
    requires i < |sealed| && s.commitment == sealed[i].commitment && VerifyLogWithSalts(sha, sealed, salts).Ok?
    requires CollisionFree(sha, {CommitmentString(CanonicalBody(s.event), PrevAt(sealed, i), SaltFor(salts, s)),
                                 StringAt(sealed, salts, i)})
    ensures VerifyLogWithSalts(sha, sealed[i := s], salts).Ok? <==>
            && s.event.number == i && s.prev == sealed[i].prev
            && CanonicalBody(s.event) == CanonicalBody(sealed[i].event) && SaltFor(salts, s) == SaltFor(salts, sealed[i])
  {
    VerifiedWithSaltsExactly(sha, sealed, salts);
    hide VerifyLogWithSalts, CanonicalBody, CommitmentString, SaltFor;
    assert LinkedWithSalts(sha, sealed, salts, i);
    ExchangedExactlyWithSalts(sha, sealed, salts, i, s);
    if EntryHoldsWithSalts(sha, s, PrevAt(sealed, i), salts) {
      StringFixesAll(s.event, PrevAt(sealed, i), SaltFor(salts, s),
                     sealed[i].event, PrevAt(sealed, i), SaltFor(salts, sealed[i]));
    }
  }

  // ----- a tail sealed anew

  ghost predicate AllUnsalted(entries: seq<Entry>) {
    forall i :: 0 <= i < |entries| ==> entries[i].salt.None?
  }

  /** The first i entries of a log, and any others sealed behind them. */
  function Resealed(sha: Sha, sealed: Sealed, i: nat, entries: seq<Entry>): Sealed
    requires i <= |sealed|
  {
    Resume(sha, sealed[..i], entries)
  }

  lemma {:induction false} OneStringHasNoCollision(sha: Sha, sealed: Sealed, i: nat)
    requires i < |sealed|
    ensures NoCollisionAt(sha, sealed, i, None, None)
  {
    hide CanonicalBody, CommitmentString;
  }

  /** Neither verification sees that the end of a log has been replaced by any other unsalted events, from any place on. */
  lemma {:induction false} ResealedTailPasses(sha: Sha, sealed: Sealed, salts: Salts, i: nat, entries: seq<Entry>)
    requires i <= |sealed| && AllUnsalted(entries) && InSequenceFrom(i, entries)
    ensures VerifyLog(sha, sealed).Ok? ==> VerifyLog(sha, Resealed(sha, sealed, i, entries)).Ok?
    ensures VerifyLogWithSalts(sha, sealed, salts).Ok? ==>
              VerifyLogWithSalts(sha, Resealed(sha, sealed, i, entries), salts).Ok?
  {
    hide VerifyLog, VerifyLogWithSalts, NoCollisionAt, Resume;
    var before, fork := sealed[..i], Resealed(sha, sealed, i, entries);
    PrefixVerifies(sha, sealed, salts, i);
    if VerifyLog(sha, sealed).Ok? {
      forall j | 0 <= j < |entries| ensures NoCollisionAt(sha, fork, |before| + j, entries[j].salt, None) {
        OneStringHasNoCollision(sha, fork, |before| + j);
      }
      ResumedVerifies(sha, before, entries);
    }
    if VerifyLogWithSalts(sha, sealed, salts).Ok? {
      ResumedVerifiesWithSalts(sha, before, salts, entries);
    }
  }

  lemma {:induction false} ResumedIsLinkedWithSalts(sha: Sha, before: Sealed, salts: Salts, entries: seq<Entry>, i: nat)
    requires i < |entries| && entries[i].salt.None? && entries[i].event.number == |before| + i
    ensures var sealed, at := Resume(sha, before, entries), |before| + i;
      && LinkedWithSalts(sha, sealed, salts, at) && sealed[at].event == entries[i].event && !sealed[at].salted
  {
    hide Resume, CanonicalBody, CommitmentString;
    var sealed, at := Resume(sha, before, entries), |before| + i;
    ResumeAt(sha, before, entries, i);
    assert Head(sealed[..at]) == PrevAt(sealed, at);
  }

  lemma {:induction false} ResumedVerifiesWithSalts(sha: Sha, before: Sealed, salts: Salts, entries: seq<Entry>)
    requires VerifyLogWithSalts(sha, before, salts).Ok? && AllUnsalted(entries) && InSequenceFrom(|before|, entries)
    ensures VerifyLogWithSalts(sha, Resume(sha, before, entries), salts).Ok?
  {
    hide Resume, VerifyLogWithSalts, EntryHoldsWithSalts;
    var sealed, n := Resume(sha, before, entries), |before|;
    VerifiedWithSaltsExactly(sha, before, salts);
    VerifiedWithSaltsExactly(sha, sealed, salts);
    ResumeKeeps(sha, before, entries);
    assert forall i :: 0 <= i < n ==> sealed[i] == before[i] && PrevAt(sealed, i) == PrevAt(before, i);
    assert forall i :: 0 <= i < n ==> (LinkedWithSalts(sha, sealed, salts, i) <==> LinkedWithSalts(sha, before, salts, i));
    forall j | n <= j < |sealed| ensures LinkedWithSalts(sha, sealed, salts, j) {
      ResumedIsLinkedWithSalts(sha, before, salts, entries, j - n);
    }
  }

  /** The last entry exchanged for any event with its number: sealed anew behind the others, it passes. */
  lemma {:induction false} ResealedLastEntryPasses(sha: Sha, sealed: Sealed, event: TypedEvent, saltRef: Option<nat>)
    requires sealed != [] && VerifyLog(sha, sealed).Ok? && event.number == |sealed| - 1
    ensures var n := |sealed| - 1;
      VerifyLog(sha, sealed[n := Seal(sha, sealed[..n], event, None, saltRef)]).Ok?
  {
    hide VerifyLog, CanonicalBody, EventCommitment;
    var n := |sealed| - 1;
    VerifiedExactly(sha, sealed);
    assert Linked(sha, sealed, n) && Head(sealed[..n]) == PrevAt(sealed, n);
    ExchangedExactly(sha, sealed, n, Seal(sha, sealed[..n], event, None, saltRef));
  }

  /** The events of a tail are those of the log from place i on, and none of these is recomputed with a salt. */
  ghost predicate SameTail(sealed: Sealed, salts: Salts, i: nat, entries: seq<Entry>)
    requires i <= |sealed|
  {
    && |entries| == |sealed| - i
    && forall j :: i <= j < |sealed| ==>
         CanonicalBody(entries[j - i].event) == CanonicalBody(sealed[j].event) && SaltFor(salts, sealed[j]) == None
  }

  lemma {:induction false} ResealedEntries(sha: Sha, sealed: Sealed, i: nat, entries: seq<Entry>)
    requires i <= |sealed| && AllUnsalted(entries) && InSequenceFrom(i, entries)
    ensures var fork := Resealed(sha, sealed, i, entries);
      && |fork| == i + |entries|
      && (forall j :: 0 <= j < i ==> fork[j] == sealed[j])
      && forall j :: i <= j < |fork| ==> fork[j].event == entries[j - i].event && !fork[j].salted
  {
    hide Resume, EntryHoldsWithSalts, EntryHolds;
    var fork := Resealed(sha, sealed, i, entries);
    ResumeKeeps(sha, sealed[..i], entries);
    assert forall j :: 0 <= j < i ==> fork[j] == fork[..i][j] == sealed[j];
    forall j | i <= j < |fork| ensures fork[j].event == entries[j - i].event && !fork[j].salted {
      ResumedIsLinkedWithSalts(sha, sealed[..i], map[], entries, j - i);
    }
  }

  lemma {:induction false} ResealedIsSame(sha: Sha, sealed: Sealed, salts: Salts, i: nat, entries: seq<Entry>)
    requires i <= |sealed| && AllUnsalted(entries) && InSequenceFrom(i, entries)
    ensures SameContent(sealed, salts, Resealed(sha, sealed, i, entries), salts) <==> SameTail(sealed, salts, i, entries)
  {
    hide Resealed, CanonicalBody, InSequenceFrom, AllUnsalted;
    ResealedEntries(sha, sealed, i, entries);
  }

  /** It is for the anchor to see: it admits, of all tails sealed anew, just the one with the witnessed bodies, all unsalted. */
  lemma {:induction false} AnchorSeesResealedTail(sha: Sha, sealed: Sealed, salts: Salts, i: nat, entries: seq<Entry>)
    requires sealed != [] && i <= |sealed| && VerifyLogWithSalts(sha, sealed, salts).Ok?
    requires AllUnsalted(entries) && InSequenceFrom(i, entries)
    requires CollisionFree(sha, HashedBy(sealed, salts) + HashedBy(Resealed(sha, sealed, i, entries), salts))
    ensures CheckAnchor(Resealed(sha, sealed, i, entries), Head(sealed).value).Ok? <==> SameTail(sealed, salts, i, entries)
  {
    hide VerifyLog, VerifyLogWithSalts, HashedBy, SameTail, SameContent, InSequenceFrom, AllUnsalted, Resealed;
    ResealedTailPasses(sha, sealed, salts, i, entries);
    ResealedIsSame(sha, sealed, salts, i, entries);
    AnchorFixesSaltedHistory(sha, sealed, salts, Resealed(sha, sealed, i, entries), salts);
  }

  // ----- as-of views

  /** The instant, in nanoseconds since 1 January 1970. */
  function Instant(t: Timestamp): int {
    t.secs * 1_000_000_000 + t.nanos
  }

  /** Less than a second of nanoseconds, as every parsed timestamp has. */
  predicate Proper(t: Timestamp) {
    t.nanos < 1_000_000_000
  }

  ghost predicate AllProper(sealed: Sealed) {
    forall i :: 0 <= i < |sealed| ==> Proper(sealed[i].event.occurredAt)
  }

  /** The order of timestamps is that of the instants. */
  lemma {:induction false} NotAfterIsEarlier(a: Timestamp, b: Timestamp)
    requires Proper(a) && Proper(b)
    ensures NotAfter(a, b) <==> Instant(a) <= Instant(b)
  {}

  /** The bound is needed: two seconds, written as nanoseconds, are ordered before one. */
  lemma {:induction false} ImproperOrder()
    ensures var a, b := Timestamp(0, 2_000_000_000), Timestamp(1, 0);
      NotAfter(a, b) && Instant(a) > Instant(b)
  {}

  /** Entry i occurred at this instant. */
  function InstantAt(sealed: Sealed, i: nat): int
    requires i < |sealed|
  {
    Instant(sealed[i].event.occurredAt)
  }

  ghost predicate InTimeOrder(sealed: Sealed) {
    forall i, j :: 0 <= i < j < |sealed| ==> InstantAt(sealed, i) <= InstantAt(sealed, j)
  }

  /** An entry is in the view at `t` exactly if it and all before it had occurred by then. */
  lemma {:induction false} AsOfExactly(sealed: Sealed, t: Timestamp, i: nat)
    requires i < |sealed| && AllProper(sealed) && Proper(t)
    ensures i < |AsOf(sealed, t)| <==> forall j :: 0 <= j <= i ==> InstantAt(sealed, j) <= Instant(t)
  {
    hide NotAfter, Instant, Proper;
    NotAfterIsEarlier(sealed[0].event.occurredAt, t);
    var rest := sealed[1..];
    if InstantAt(sealed, 0) <= Instant(t) && i > 0 {
      AsOfExactly(rest, t, i - 1);
      assert forall j :: 1 <= j <= i ==> sealed[j] == rest[j - 1];
      forall j | 1 <= j <= i && i - 1 < |AsOf(rest, t)| ensures InstantAt(sealed, j) <= Instant(t) {
        assert InstantAt(rest, j - 1) <= Instant(t);
      }
      forall j | 0 <= j <= i - 1 && (forall k :: 0 <= k <= i ==> InstantAt(sealed, k) <= Instant(t))
        ensures InstantAt(rest, j) <= Instant(t)
      {
        assert InstantAt(sealed, j + 1) <= Instant(t);
      }
    }
  }

  /** The view has every event that had occurred by `t`. */
  ghost predicate ShowsAll(sealed: Sealed, t: Timestamp) {
    forall i :: 0 <= i < |sealed| && InstantAt(sealed, i) <= Instant(t) ==> i < |AsOf(sealed, t)|
  }

  /** The view at `t` has every event that had occurred by `t`, for every `t`, exactly if the log is in time order. */
  lemma {:induction false} AsOfIsComplete(sealed: Sealed)
    requires AllProper(sealed)
    ensures InTimeOrder(sealed) <==> forall t: Timestamp :: Proper(t) ==> ShowsAll(sealed, t)
  {
    hide AsOf, Instant, Proper;
    if InTimeOrder(sealed) {
      forall t: Timestamp | Proper(t) ensures ShowsAll(sealed, t) {
        forall i | 0 <= i < |sealed| && InstantAt(sealed, i) <= Instant(t) ensures i < |AsOf(sealed, t)| {
          AsOfExactly(sealed, t, i);
        }
      }
    }
    if forall t: Timestamp :: Proper(t) ==> ShowsAll(sealed, t) {
      forall i, j | 0 <= i < j < |sealed| ensures InstantAt(sealed, i) <= InstantAt(sealed, j) {
        var t := sealed[j].event.occurredAt;
        assert ShowsAll(sealed, t) && InstantAt(sealed, j) <= Instant(t) && j < |AsOf(sealed, t)|;
        AsOfExactly(sealed, t, j);
      }
    }
  }

  /** Views only grow with time. */
  lemma {:induction false} AsOfGrows(sealed: Sealed, t: Timestamp, u: Timestamp)
    requires AllProper(sealed) && Proper(t) && Proper(u) && Instant(t) <= Instant(u)
    ensures AsOf(sealed, t) <= AsOf(sealed, u)
  {
    hide NotAfter, Instant, Proper;
    if sealed != [] {
      NotAfterIsEarlier(sealed[0].event.occurredAt, t);
      NotAfterIsEarlier(sealed[0].event.occurredAt, u);
      AsOfGrows(sealed[1..], t, u);
    }
  }

  /** A state hash at `t` fixes what the log said at `t`, salted entries included. */
  lemma {:induction false} StateHashFixesView(sha: Sha, a: Sealed, sa: Salts, b: Sealed, sb: Salts, t: Timestamp)
    requires VerifyLogWithSalts(sha, a, sa).Ok? && VerifyLogWithSalts(sha, b, sb).Ok?
    requires CollisionFree(sha, HashedBy(a, sa) + HashedBy(b, sb))
    ensures StateHashAt(a, t) == StateHashAt(b, t) <==> SameContent(AsOf(a, t), sa, AsOf(b, t), sb)
  {
    hide VerifyLogWithSalts, CanonicalBody, HashedBy, SaltFor;
    var va, vb := AsOf(a, t), AsOf(b, t);
    assert va == a[..|va|] && vb == b[..|vb|];
    hide AsOf;
    PrefixVerifies(sha, a, sa, |va|);
    PrefixVerifies(sha, b, sb, |vb|);
    HashedByPrefix(a, sa, |va|);
    HashedByPrefix(b, sb, |vb|);
    CollisionFreeSubset(sha, HashedBy(a, sa) + HashedBy(b, sb), HashedBy(va, sa) + HashedBy(vb, sb));
    if va != [] {
      AnchorFixesSaltedHistory(sha, va, sa, vb, sb);
    }
  }
}
