/** Bytes, little-endian integers, and length-prefixed framing. */
module ByteCodec {
  type byte = i: int | 0 <= i < 256

  type bytes = seq<byte>

  /** 256 to the power `width`: the number of values of a `width`-byte unsigned integer. */
  function Pow256(width: nat): (p: nat)
    ensures p > 0
  {
    if width == 0 then 1 else 256 * Pow256(width - 1)
  }

  /** `(n as uW).to_le_bytes()`: the low `width` bytes of n, least significant first (the cast truncates). */
  function LeBytes(n: nat, width: nat): (b: bytes)
    ensures |b| == width
  {
    if width == 0 then [] else [n % 256] + LeBytes(n / 256, width - 1)
  }

  /** `uW::from_le_bytes`. */
  function FromLeBytes(b: bytes): nat {
    if b == [] then 0 else b[0] + 256 * FromLeBytes(b[1..])
  }

  lemma {:induction false} LeRoundTrip(n: nat, width: nat)
    requires n < Pow256(width)
    ensures FromLeBytes(LeBytes(n, width)) == n
  {
    if width > 0 {
      LeRoundTrip(n / 256, width - 1);
      assert LeBytes(n, width)[1..] == LeBytes(n / 256, width - 1);
    }
  }

  lemma {:induction false} LowByte(c: byte, v: nat)
    ensures (c + 256 * v) % 256 == c && (c + 256 * v) / 256 == v
  {}

  /** Every string of bytes is the little-endian form of its number. */
  lemma {:induction false} LeOfNumber(b: bytes)
    ensures FromLeBytes(b) < Pow256(|b|) && LeBytes(FromLeBytes(b), |b|) == b
  {
    if b != [] {
      var rest := b[1..];
      LeOfNumber(rest);
      LowByte(b[0], FromLeBytes(rest));
      LeStep(FromLeBytes(b), |rest|);
      assert b == [b[0]] + rest;
    }
  }

  lemma {:induction false} LeStep(n: nat, width: nat)
    ensures LeBytes(n, width + 1) == [n % 256] + LeBytes(n / 256, width) && Pow256(width + 1) == 256 * Pow256(width)
  {}

  lemma {:induction false} LeInjective(n: nat, m: nat, width: nat)
    requires n < Pow256(width) && m < Pow256(width)
    requires LeBytes(n, width) == LeBytes(m, width)
    ensures n == m
  {
    LeRoundTrip(n, width);
    LeRoundTrip(m, width);
  }

  lemma {:induction false} PowersOf256()
    ensures Pow256(1) == 0x100
    ensures Pow256(2) == 0x1_0000
    ensures Pow256(4) == 0x1_0000_0000
    ensures Pow256(8) == 0x1_0000_0000_0000_0000
  {
    assert Pow256(2) == 256 * Pow256(1);
    assert Pow256(3) == 256 * Pow256(2);
    assert Pow256(4) == 256 * Pow256(3);
    assert Pow256(5) == 256 * Pow256(4);
    assert Pow256(6) == 256 * Pow256(5);
    assert Pow256(7) == 256 * Pow256(6);
    assert Pow256(8) == 256 * Pow256(7);
  }

  /** One part behind its `width`-byte little-endian length. */
  function Frame(part: bytes, width: nat): (b: bytes)
    ensures |b| == width + |part|
  {
    LeBytes(|part|, width) + part
  }

  /** All parts, each behind its length, in order. */
  function FrameAll(parts: seq<bytes>, width: nat): bytes {
    if parts == [] then [] else Frame(parts[0], width) + FrameAll(parts[1..], width)
  }

  ghost predicate Fits(parts: seq<bytes>, width: nat) {
    forall i :: 0 <= i < |parts| ==> |parts[i]| < Pow256(width)
  }

  /** A frame marks its own end: whatever follows, part and rest can be told apart. */
  lemma {:induction false} FrameIsPrefixCode(p: bytes, q: bytes, u: bytes, v: bytes, width: nat)
    requires |p| < Pow256(width) && |q| < Pow256(width)
    requires Frame(p, width) + u == Frame(q, width) + v
    ensures p == q && u == v
  {
    var a, b := Frame(p, width) + u, Frame(q, width) + v;
    assert a[..width] == LeBytes(|p|, width) && b[..width] == LeBytes(|q|, width);
    LeInjective(|p|, |q|, width);
    assert p == a[width..width + |p|] && q == b[width..width + |q|];
    assert u == a[width + |p|..] && v == b[width + |q|..];
  }

  /** Framed parts can be read back: no field bleeds into the next, and none is added or dropped. */
  lemma {:induction false} FrameAllInjective(ps: seq<bytes>, qs: seq<bytes>, width: nat)
    requires width > 0 && Fits(ps, width) && Fits(qs, width)
    requires FrameAll(ps, width) == FrameAll(qs, width)
    ensures ps == qs
  {
    if ps != [] && qs != [] {
      FrameIsPrefixCode(ps[0], qs[0], FrameAll(ps[1..], width), FrameAll(qs[1..], width), width);
      FrameAllInjective(ps[1..], qs[1..], width);
      assert ps == [ps[0]] + ps[1..] && qs == [qs[0]] + qs[1..];
    }
  }

  lemma {:induction false} Assoc(a: bytes, b: bytes, c: bytes)
    ensures (a + b) + c == a + (b + c)
  {}

  lemma {:induction false} FrameAllAppend(ps: seq<bytes>, qs: seq<bytes>, width: nat)
    ensures FrameAll(ps + qs, width) == FrameAll(ps, width) + FrameAll(qs, width)
  {
    if ps == [] {
      assert ps + qs == qs;
    } else {
      FrameAllAppend(ps[1..], qs, width);
      assert (ps + qs)[0] == ps[0] && (ps + qs)[1..] == ps[1..] + qs;
      Assoc(Frame(ps[0], width), FrameAll(ps[1..], width), FrameAll(qs, width));
    }
  }

  lemma {:induction false} SplitAtFirst<T>(a: seq<T>, u: seq<T>, b: seq<T>, v: seq<T>, c: T)
    requires c !in a && c !in b && a + [c] + u == b + [c] + v
    ensures a == b && u == v
  {
    var x := a + [c] + u;
    assert x[|a|] == c && x[|b|] == c;
    assert forall i :: 0 <= i < |a| ==> x[i] == a[i];
    assert forall i :: 0 <= i < |b| ==> x[i] == b[i];
    assert |a| == |b|;
    assert a == x[..|a|] == b && u == x[|a| + 1..] == v;
  }

  lemma {:induction false} SameHead<T>(h: seq<T>, u: seq<T>, v: seq<T>)
    requires h + u == h + v
    ensures u == v
  {
    assert u == (h + u)[|h|..];
    assert v == (h + v)[|h|..];
  }
}
