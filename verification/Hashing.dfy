/**
 The commitment hash. SHA-256 itself stays outside the model: every definition takes the hash as a
 parameter, any total function from byte strings to 32 bytes. A security property assumes
 that this function has no collision among the finitely many strings that the run hashes.
 */
module Hashing {
  import opened ByteCodec

  type Digest = d: bytes | |d| == 32 witness seq(32, _ => 0)

  type Sha = bytes -> Digest

  /** 32 zero bytes. */
  const ZERO: Digest :=
    [0, 0, 0, 0, 0, 0, 0, 0, 0, 0, 0, 0, 0, 0, 0, 0, 0, 0, 0, 0, 0, 0, 0, 0, 0, 0, 0, 0, 0, 0, 0, 0]

  ghost predicate CollisionFree(sha: Sha, hashed: set<bytes>) {
    forall x, y :: x in hashed && y in hashed && sha(x) == sha(y) ==> x == y
  }

  lemma {:induction false} CollisionFreeSubset(sha: Sha, hashed: set<bytes>, fewer: set<bytes>)
    requires CollisionFree(sha, hashed) && fewer <= hashed
    ensures CollisionFree(sha, fewer)
  {}
}
