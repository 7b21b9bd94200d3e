/** The byte capacity of QR symbols (crates/tier_a/src/qr.rs; the byte-mode columns of ISO/IEC 18004). */
module Qr {
  import opened Wrappers

  datatype EcLevel = L | M | Q | H

  const CAP_L: seq<nat> := [
    17, 32, 53, 78, 106, 134, 154, 192, 230, 271, 321, 367, 425, 458, 520, 586, 644, 718, 792, 858,
    929, 1003, 1091, 1171, 1273, 1367, 1465, 1528, 1628, 1732, 1840, 1952, 2068, 2188, 2303, 2431,
    2563, 2699, 2809, 2953]
  const CAP_M: seq<nat> := [
    14, 26, 42, 62, 84, 106, 122, 152, 180, 213, 251, 287, 331, 362, 412, 450, 504, 560, 624, 666,
    711, 779, 857, 911, 997, 1059, 1125, 1190, 1264, 1370, 1452, 1538, 1628, 1722, 1809, 1911,
    1989, 2099, 2213, 2331]
  const CAP_Q: seq<nat> := [
    11, 20, 32, 46, 60, 74, 86, 108, 130, 151, 177, 203, 241, 258, 292, 322, 364, 394, 442, 482,
    509, 565, 611, 661, 715, 751, 805, 868, 908, 982, 1030, 1112, 1168, 1228, 1283, 1351, 1423,
    1499, 1579, 1663]
  const CAP_H: seq<nat> := [
    7, 14, 24, 34, 44, 58, 64, 84, 98, 119, 137, 155, 177, 194, 220, 250, 280, 310, 338, 382, 403,
    439, 461, 511, 535, 593, 625, 658, 698, 742, 790, 842, 898, 958, 983, 1051, 1093, 1139, 1219,
    1273]

  function Table(ec: EcLevel): (t: seq<nat>)
    ensures |t| == 40
  {
    match ec case L => CAP_L case M => CAP_M case Q => CAP_Q case H => CAP_H
  }

  /** The source asserts that the version is in range. */
  function ByteCapacity(version: nat, ec: EcLevel): nat
    requires 1 <= version <= 40
  {
    Table(ec)[version - 1]
  }

  /** `find` over the versions from `version` on. */
  function FirstVersion(version: nat, len: nat, ec: EcLevel): Option<nat>
    requires 1 <= version <= 41
    decreases 41 - version
  {
    if version == 41 then None
    else if ByteCapacity(version, ec) >= len then Some(version)
    else FirstVersion(version + 1, len, ec)
  }

  function MinVersionFor(len: nat, ec: EcLevel): Option<nat> {
    FirstVersion(1, len, ec)
  }

  lemma {:induction false} FirstVersionIsFirst(version: nat, len: nat, ec: EcLevel)
    requires 1 <= version <= 41
    ensures FirstVersion(version, len, ec).Some? ==>
              var v := FirstVersion(version, len, ec).value;
              && version <= v <= 40 && ByteCapacity(v, ec) >= len
              && forall u :: version <= u < v ==> ByteCapacity(u, ec) < len
    ensures FirstVersion(version, len, ec).None? ==> forall u :: version <= u <= 40 ==> ByteCapacity(u, ec) < len
    decreases 41 - version
  {
    hide ByteCapacity;
    if version <= 40 {
      FirstVersionIsFirst(version + 1, len, ec);
    }
  }

  lemma {:induction false} IncreasesL(i: nat)
    requires i < 39
    ensures CAP_L[i] < CAP_L[i + 1]
  {}

  lemma {:induction false} IncreasesM(i: nat)
    requires i < 39
    ensures CAP_M[i] < CAP_M[i + 1]
  {}

  lemma {:induction false} IncreasesQ(i: nat)
    requires i < 39
    ensures CAP_Q[i] < CAP_Q[i + 1]
  {}

  lemma {:induction false} IncreasesH(i: nat)
    requires i < 39
    ensures CAP_H[i] < CAP_H[i + 1]
  {}

  lemma {:induction false} TablesIncrease(version: nat, ec: EcLevel)
    requires 1 <= version <= 39
    ensures ByteCapacity(version, ec) < ByteCapacity(version + 1, ec)
  {
    match ec
    case L => IncreasesL(version - 1);
    case M => IncreasesM(version - 1);
    case Q => IncreasesQ(version - 1);
    case H => IncreasesH(version - 1);
  }

  /** A larger symbol holds more. */
  lemma {:induction false} CapacityGrows(u: nat, v: nat, ec: EcLevel)
    requires 1 <= u <= v <= 40
    ensures ByteCapacity(u, ec) <= ByteCapacity(v, ec)
    decreases v - u
  {
    hide ByteCapacity;
    if u < v {
      TablesIncrease(u, ec);
      CapacityGrows(u + 1, v, ec);
    }
  }

  /** The version found is the threshold: exactly the versions from it on hold the payload. */
  lemma {:induction false} VersionHoldsExactlyFrom(len: nat, ec: EcLevel, v: nat)
    requires 1 <= v <= 40
    ensures ByteCapacity(v, ec) >= len <==> MinVersionFor(len, ec).Some? && MinVersionFor(len, ec).value <= v
  {
    hide ByteCapacity, FirstVersion;
    FirstVersionIsFirst(1, len, ec);
    if MinVersionFor(len, ec).Some? && MinVersionFor(len, ec).value <= v {
      CapacityGrows(MinVersionFor(len, ec).value, v, ec);
    }
  }
}
