/** Enumeration tokens and signature suites (crates/model/src/lib.rs, trust.rs; crates/event/src/status.rs, lib.rs). */
module Tokens {
  import opened Wrappers
  import opened ByteCodec
  import opened Normalization
  import Utf8

  datatype Status = Issued | Suspended | Invalidated | NonConformant | Consumed | Transformed | EndOfWaste | Archived

  function StatusToken(s: Status): string {
    match s
    case Issued => "issued"
    case Suspended => "suspended"
    case Invalidated => "invalidated"
    case NonConformant => "non-conformant"
    case Consumed => "consumed"
    case Transformed => "transformed"
    case EndOfWaste => "end-of-waste"
    case Archived => "archived"
  }

  /** Any casing and any separators are accepted; the variants are tried in order. */
  function ParseStatus(s: string): Option<Status> {
    var q := Squash(s);
    if q == Squash(StatusToken(Issued)) then Some(Issued)
    else if q == Squash(StatusToken(Suspended)) then Some(Suspended)
    else if q == Squash(StatusToken(Invalidated)) then Some(Invalidated)
    else if q == Squash(StatusToken(NonConformant)) then Some(NonConformant)
    else if q == Squash(StatusToken(Consumed)) then Some(Consumed)
    else if q == Squash(StatusToken(Transformed)) then Some(Transformed)
    else if q == Squash(StatusToken(EndOfWaste)) then Some(EndOfWaste)
    else if q == Squash(StatusToken(Archived)) then Some(Archived)
    else None
  }

  datatype SafetyFlag = NoFlag | RecallActive | SecurityFlagged

  function SafetyToken(f: SafetyFlag): string {
    match f
    case NoFlag => "none"
    case RecallActive => "recall-active"
    case SecurityFlagged => "security-flagged"
  }

  function ParseSafety(s: string): Option<SafetyFlag> {
    var q := Squash(s);
    if q == Squash(SafetyToken(NoFlag)) then Some(NoFlag)
    else if q == Squash(SafetyToken(RecallActive)) then Some(RecallActive)
    else if q == Squash(SafetyToken(SecurityFlagged)) then Some(SecurityFlagged)
    else None
  }

  lemma {:induction false} StatusTokensDiffer(s: Status, t: Status)
    requires s != t
    ensures Squash(StatusToken(s)) != Squash(StatusToken(t))
  {
    hide Squash;
    SquashKeepsTwo(StatusToken(s));
    SquashKeepsTwo(StatusToken(t));
    assert StatusToken(s)[0] != StatusToken(t)[0] || StatusToken(s)[1] != StatusToken(t)[1];
  }

  lemma {:induction false} SafetyTokensDiffer(s: SafetyFlag, t: SafetyFlag)
    requires s != t
    ensures Squash(SafetyToken(s)) != Squash(SafetyToken(t))
  {
    hide Squash;
    SquashKeepsTwo(SafetyToken(s));
    SquashKeepsTwo(SafetyToken(t));
  }

  lemma {:induction false} StatusReadsBack(s: Status)
    ensures ParseStatus(StatusToken(s)) == Some(s)
  {
    hide Squash, StatusToken;
    forall t: Status | t != s ensures Squash(StatusToken(t)) != Squash(StatusToken(s)) {
      StatusTokensDiffer(s, t);
    }
  }

  lemma {:induction false} SafetyReadsBack(f: SafetyFlag)
    ensures ParseSafety(SafetyToken(f)) == Some(f)
  {
    hide Squash, SafetyToken;
    forall t: SafetyFlag | t != f ensures Squash(SafetyToken(t)) != Squash(SafetyToken(f)) {
      SafetyTokensDiffer(f, t);
    }
  }

  /** A text is read as a status exactly if it is its token, whatever the casing and the separators. */
  lemma {:induction false} ParsesStatusExactly(text: string, s: Status)
    ensures ParseStatus(text) == Some(s) <==> Squash(text) == Squash(StatusToken(s))
  {
    hide Squash, StatusToken;
    forall t: Status | t != s ensures Squash(StatusToken(t)) != Squash(StatusToken(s)) {
      StatusTokensDiffer(s, t);
    }
  }

  lemma {:induction false} ParsesSafetyExactly(text: string, f: SafetyFlag)
    ensures ParseSafety(text) == Some(f) <==> Squash(text) == Squash(SafetyToken(f))
  {
    hide Squash, SafetyToken;
    forall t: SafetyFlag | t != f ensures Squash(SafetyToken(t)) != Squash(SafetyToken(f)) {
      SafetyTokensDiffer(f, t);
    }
  }

  // ----- signature suites

  datatype Suite = EcdsaP256 | Sm2 | MlDsa44 | MlDsa65 | MlDsa87

  function SuiteCode(s: Suite): byte {
    match s case EcdsaP256 => 1 case Sm2 => 2 case MlDsa44 => 3 case MlDsa65 => 4 case MlDsa87 => 5
  }

  function SuiteOfCode(code: byte): (s: Option<Suite>)
    ensures s.Some? <==> 1 <= code <= 5
    ensures s.Some? ==> SuiteCode(s.value) == code
  {
    if code == 1 then Some(EcdsaP256)
    else if code == 2 then Some(Sm2)
    else if code == 3 then Some(MlDsa44)
    else if code == 4 then Some(MlDsa65)
    else if code == 5 then Some(MlDsa87)
    else None
  }

  /** The length of a signature of the suite, in bytes. */
  function SignatureLength(s: Suite): nat {
    match s case EcdsaP256 => 64 case Sm2 => 64 case MlDsa44 => 2420 case MlDsa65 => 3309 case MlDsa87 => 4627
  }

  /** One framed signature; without a signature, a place reserved for one. */
  datatype SigSlot = SigSlot(suite: Suite, keyId: string, signature: Option<bytes>) {
    /** `projected_len`. */
    function ProjectedLength(): nat {
      1 + 1 + |Utf8.Encode(keyId)| + 2 + match signature { case Some(sig) => |sig| case None => SignatureLength(suite) }
    }
  }
}
