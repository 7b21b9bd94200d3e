/** Taint: marks on passports that travel downstream (crates/transform/src/taint.rs). */
module Taints {
  import opened Wrappers
  import opened Identifiers
  import opened Timestamps

  datatype KnownTaint = Revoked | Compromised | Misissued | Fraud | NonConformantTaint | Contaminated | LegalHold

  datatype TaintKind = Known(kind: KnownTaint) | Other(name: string) {
    /** Whether the reason voids validity from the beginning. */
    predicate IsRetroactive() {
      this == Known(Misissued) || this == Known(Fraud)
    }
  }

  datatype Taint = Taint(
    source: PassportId, kind: TaintKind, reason: string, at: Timestamp, window: Option<Interval>)

  predicate Voids(entries: set<Taint>) {
    exists t :: t in entries && t.kind.IsRetroactive()
  }

  class TaintSet {
    var entries: set<Taint>

    constructor ()
      ensures entries == {}
    {
      entries := {};
    }

    method Add(taint: Taint)
      modifies this
      ensures entries == old(entries) + {taint}
    {
      entries := entries + {taint};
    }

    /** Inserts the entries of the other set one by one. */
    method Merge(other: set<Taint>)
      modifies this
      ensures entries == old(entries) + other
    {
      var rest := other;
      while rest != {}
        invariant entries + rest == old(entries) + other
        decreases rest
      {
        var e :| e in rest;
        entries := entries + {e};
        rest := rest - {e};
      }
    }
  }
}
