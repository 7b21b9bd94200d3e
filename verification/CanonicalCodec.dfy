/**
 The length-prefixed binary writer and reader (crates/model/src/digest.rs), two classes that update their
 buffer and position in place. What each read does to the remaining bytes is given by a function
 from those bytes to a result and the bytes left over, so that whole formats can be proved on values.
 */
module CanonicalCodec {
  import opened Wrappers
  import opened ByteCodec
  import opened Hashing
  import Utf8

  datatype ReadError = Truncated | InvalidUtf8 | BadOptionalTag(tag: byte) | BadBoolTag(tag: byte)

  type ReadResult<T> = (Result<T, ReadError>, bytes)

  // ----- what is written

  function OptStr(s: Option<string>): bytes {
    match s
    case Some(v) => [1] + Frame(Utf8.Encode(v), 4)
    case None => [0]
  }

  function OptHash(h: Option<Digest>): bytes {
    match h
    case Some(v) => [1] + v
    case None => [0]
  }

  class CanonicalWriter {
    var buf: bytes

    constructor ()
      ensures buf == []
    {
      buf := [];
    }

    method WriteTag(tag: byte)
      modifies this
      ensures buf == old(buf) + [tag]
    {
      buf := buf + [tag];
    }

    method WriteBytesRaw(b: bytes)
      modifies this
      ensures buf == old(buf) + b
    {
      buf := buf + b;
    }

    /** `v as u16`: the cast keeps the low 16 bits. */
    method WriteU16(v: nat)
      modifies this
      ensures buf == old(buf) + LeBytes(v, 2)
    {
      buf := buf + LeBytes(v, 2);
    }

    /** `v as u32`: the cast keeps the low 32 bits. */
    method WriteU32(v: nat)
      modifies this
      ensures buf == old(buf) + LeBytes(v, 4)
    {
      buf := buf + LeBytes(v, 4);
    }

    /** The length is cast to 32 bits: a longer field is written behind a truncated length. */
    method WriteBytes(b: bytes)
      modifies this
      ensures buf == old(buf) + Frame(b, 4)
    {
      WriteU32(|b|);
      buf := buf + b;
    }

    method WriteStr(s: string)
      modifies this
      ensures buf == old(buf) + Frame(Utf8.Encode(s), 4)
    {
      WriteBytes(Utf8.Encode(s));
    }

    method WriteOptStr(s: Option<string>)
      modifies this
      ensures buf == old(buf) + OptStr(s)
    {
      hide Utf8.Encode, Frame;
      match s
      case Some(v) =>
        buf := buf + [1];
        WriteStr(v);
      case None =>
        buf := buf + [0];
    }

    method WriteOptHash(h: Option<Digest>)
      modifies this
      ensures buf == old(buf) + OptHash(h)
    {
      match h
      case Some(v) =>
        buf := buf + [1];
        buf := buf + v;
      case None =>
        buf := buf + [0];
    }
  }

  // ----- what is read

  function Take(rest: bytes, n: nat): (r: ReadResult<bytes>) {
    if |rest| < n then (Err(Truncated), rest) else (Ok(rest[..n]), rest[n..])
  }

  function ReadTag(rest: bytes): (r: ReadResult<byte>)
    ensures r.0.Ok? ==> |r.1| < |rest|
    ensures |r.1| <= |rest|
  {
    var (b, left) := Take(rest, 1);
    match b
    case Ok(v) => (Ok(v[0]), left)
    case Err(e) => (Err(e), left)
  }

  function ReadUint(rest: bytes, width: nat): (r: ReadResult<nat>)
    ensures |r.1| <= |rest|
  {
    var (b, left) := Take(rest, width);
    match b
    case Ok(v) => (Ok(FromLeBytes(v)), left)
    case Err(e) => (Err(e), left)
  }

  function ReadBytes(rest: bytes): (r: ReadResult<bytes>)
    ensures |r.1| <= |rest|
  {
    var (n, left) := ReadUint(rest, 4);
    match n
    case Ok(v) => Take(left, v)
    case Err(e) => (Err(e), left)
  }

  function ReadStr(rest: bytes): (r: ReadResult<string>)
    ensures |r.1| <= |rest|
  {
    var (b, left) := ReadBytes(rest);
    match b
    case Err(e) => (Err(e), left)
    case Ok(v) =>
      match Utf8.Decode(v)
      case Some(s) => (Ok(s), left)
      case None => (Err(InvalidUtf8), left)
  }

  function ReadOptStr(rest: bytes): (r: ReadResult<Option<string>>)
    ensures |r.1| <= |rest|
  {
    var (t, left) := ReadTag(rest);
    match t
    case Err(e) => (Err(e), left)
    case Ok(v) =>
      if v == 0 then (Ok(None), left)
      else if v == 1 then
        var (s, left) := ReadStr(left);
        match s
        case Ok(s) => (Ok(Some(s)), left)
        case Err(e) => (Err(e), left)
      else (Err(BadOptionalTag(v)), left)
  }

  function ReadOptHash(rest: bytes): (r: ReadResult<Option<Digest>>)
    ensures |r.1| <= |rest|
  {
    var (t, left) := ReadTag(rest);
    match t
    case Err(e) => (Err(e), left)
    case Ok(v) =>
      if v == 0 then (Ok(None), left)
      else if v == 1 then
        var (h, left) := Take(left, 32);
        match h
        case Ok(h) => (Ok(Some(h)), left)
        case Err(e) => (Err(e), left)
      else (Err(BadOptionalTag(v)), left)
  }

  class CanonicalReader {
    const buf: bytes
    var pos: nat

    ghost predicate Valid()
      reads this
    {
      pos <= |buf|
    }

    /** The bytes not yet consumed. */
    ghost function Rest(): bytes
      reads this
      requires Valid()
    {
      buf[pos..]
    }

    constructor (buf: bytes)
      ensures Valid() && Rest() == buf
    {
      this.buf := buf;
      pos := 0;
    }

    function Remaining(): (n: nat)
      reads this
      requires Valid()
      ensures n == |Rest()|
    {
      |buf| - pos
    }

    method TakeBytes(n: nat) returns (r: Result<bytes, ReadError>)
      requires Valid()
      modifies this
      ensures Valid() && (r, Rest()) == Take(old(Rest()), n)
    {
      if Remaining() < n {
        return Err(Truncated);
      }
      var s := buf[pos..pos + n];
      assert s == old(Rest())[..n] && buf[pos + n..] == old(Rest())[n..];
      pos := pos + n;
      return Ok(s);
    }

    method Tag() returns (r: Result<byte, ReadError>)
      requires Valid()
      modifies this
      ensures Valid() && (r, Rest()) == ReadTag(old(Rest()))
    {
      var b :- TakeBytes(1);
      return Ok(b[0]);
    }

    method Uint(width: nat) returns (r: Result<nat, ReadError>)
      requires Valid()
      modifies this
      ensures Valid() && (r, Rest()) == ReadUint(old(Rest()), width)
    {
      var b :- TakeBytes(width);
      return Ok(FromLeBytes(b));
    }

    method Bytes() returns (r: Result<bytes, ReadError>)
      requires Valid()
      modifies this
      ensures Valid() && (r, Rest()) == ReadBytes(old(Rest()))
    {
      var n :- Uint(4);
      r := TakeBytes(n);
    }

    method Str() returns (r: Result<string, ReadError>)
      requires Valid()
      modifies this
      ensures Valid() && (r, Rest()) == ReadStr(old(Rest()))
    {
      var b :- Bytes();
      match Utf8.Decode(b)
      case Some(s) => return Ok(s);
      case None => return Err(InvalidUtf8);
    }

    method OptStr() returns (r: Result<Option<string>, ReadError>)
      requires Valid()
      modifies this
      ensures Valid() && (r, Rest()) == ReadOptStr(old(Rest()))
    {
      var t :- Tag();
      if t == 0 {
        return Ok(None);
      } else if t == 1 {
        var s :- Str();
        return Ok(Some(s));
      } else {
        return Err(BadOptionalTag(t));
      }
    }

    method OptHash() returns (r: Result<Option<Digest>, ReadError>)
      requires Valid()
      modifies this
      ensures Valid() && (r, Rest()) == ReadOptHash(old(Rest()))
    {
      var t :- Tag();
      if t == 0 {
        return Ok(None);
      } else if t == 1 {
        var h :- TakeBytes(32);
        return Ok(Some(h));
      } else {
        return Err(BadOptionalTag(t));
      }
    }
  }

  // ----- reading back what was written

  lemma {:induction false} TakeWritten(b: bytes, rest: bytes)
    ensures Take(b + rest, |b|) == (Ok(b), rest)
  {
    assert (b + rest)[..|b|] == b && (b + rest)[|b|..] == rest;
  }

  lemma {:induction false} TagReadsBack(tag: byte, rest: bytes)
    ensures ReadTag([tag] + rest) == (Ok(tag), rest)
  {
    TakeWritten([tag], rest);
  }

  lemma {:induction false} UintReadsBack(n: nat, width: nat, rest: bytes)
    requires n < Pow256(width)
    ensures ReadUint(LeBytes(n, width) + rest, width) == (Ok(n), rest)
  {
    TakeWritten(LeBytes(n, width), rest);
    LeRoundTrip(n, width);
  }

  lemma {:induction false} BytesReadBack(b: bytes, rest: bytes)
    requires |b| < 0x1_0000_0000
    ensures ReadBytes(Frame(b, 4) + rest) == (Ok(b), rest)
  {
    PowersOf256();
    Assoc(LeBytes(|b|, 4), b, rest);
    UintReadsBack(|b|, 4, b + rest);
    TakeWritten(b, rest);
  }

  lemma {:induction false} StrReadsBack(s: string, rest: bytes)
    requires |Utf8.Encode(s)| < 0x1_0000_0000
    ensures ReadStr(Frame(Utf8.Encode(s), 4) + rest) == (Ok(s), rest)
  {
    BytesReadBack(Utf8.Encode(s), rest);
    Utf8.DecodeEncode(s);
  }

  lemma {:induction false} OptStrReadsBack(s: Option<string>, rest: bytes)
    requires s.Some? ==> |Utf8.Encode(s.value)| < 0x1_0000_0000
    ensures ReadOptStr(OptStr(s) + rest) == (Ok(s), rest)
  {
    match s
    case Some(v) =>
      Assoc([1], Frame(Utf8.Encode(v), 4), rest);
      TagReadsBack(1, Frame(Utf8.Encode(v), 4) + rest);
      StrReadsBack(v, rest);
    case None =>
      TagReadsBack(0, rest);
  }

  lemma {:induction false} OptHashReadsBack(h: Option<Digest>, rest: bytes)
    ensures ReadOptHash(OptHash(h) + rest) == (Ok(h), rest)
  {
    match h
    case Some(v) =>
      Assoc([1], v, rest);
      TagReadsBack(1, v + rest);
      TakeWritten(v, rest);
    case None =>
      TagReadsBack(0, rest);
  }

  // ----- only what was written reads back

  lemma {:induction false} TakeExactly(rest: bytes, n: nat, b: bytes, left: bytes)
    ensures Take(rest, n) == (Ok(b), left) <==> |b| == n && rest == b + left
  {
    TakeWritten(b, left);
    if |rest| >= n {
      assert rest == rest[..n] + rest[n..];
    }
  }

  lemma {:induction false} TagExactly(rest: bytes, tag: byte, left: bytes)
    ensures ReadTag(rest) == (Ok(tag), left) <==> rest == [tag] + left
  {
    TagReadsBack(tag, left);
    if ReadTag(rest) == (Ok(tag), left) {
      TakeExactly(rest, 1, [tag], left);
    }
  }

  lemma {:induction false} UintExactly(rest: bytes, width: nat, n: nat, left: bytes)
    ensures ReadUint(rest, width) == (Ok(n), left) <==> n < Pow256(width) && rest == LeBytes(n, width) + left
  {
    if n < Pow256(width) {
      UintReadsBack(n, width, left);
    }
    if ReadUint(rest, width) == (Ok(n), left) {
      var b := rest[..width];
      TakeExactly(rest, width, b, left);
      LeOfNumber(b);
    }
  }

  /** A byte field is read exactly where it stands behind its 32-bit length. */
  lemma {:induction false} BytesExactly(rest: bytes, b: bytes, left: bytes)
    ensures ReadBytes(rest) == (Ok(b), left) <==> |b| < 0x1_0000_0000 && rest == Frame(b, 4) + left
  {
    hide ReadUint, LeBytes, Take;
    PowersOf256();
    if |b| < 0x1_0000_0000 {
      BytesReadBack(b, left);
    }
    if ReadBytes(rest) == (Ok(b), left) {
      var (n, more) := ReadUint(rest, 4);
      UintExactly(rest, 4, n.value, more);
      TakeExactly(more, n.value, b, left);
      Assoc(LeBytes(|b|, 4), b, left);
    }
  }

  lemma {:induction false} StrExactly(rest: bytes, s: string, left: bytes)
    ensures ReadStr(rest) == (Ok(s), left) <==>
            |Utf8.Encode(s)| < 0x1_0000_0000 && rest == Frame(Utf8.Encode(s), 4) + left
  {
    hide ReadBytes, Utf8.Encode, Utf8.Decode, Frame;
    var b := Utf8.Encode(s);
    BytesExactly(rest, b, left);
    Utf8.DecodesExactly(b, s);
    if ReadStr(rest) == (Ok(s), left) {
      var r := ReadBytes(rest);
      Utf8.DecodesExactly(r.0.value, s);
    }
  }

  /** An optional text is read exactly where a presence byte of zero or one says so. */
  lemma {:induction false} OptStrExactly(rest: bytes, s: Option<string>, left: bytes)
    ensures ReadOptStr(rest) == (Ok(s), left) <==>
            (s.Some? ==> |Utf8.Encode(s.value)| < 0x1_0000_0000) && rest == OptStr(s) + left
  {
    hide ReadTag, ReadStr, Utf8.Encode, Frame;
    if s.Some? ==> |Utf8.Encode(s.value)| < 0x1_0000_0000 {
      OptStrReadsBack(s, left);
    }
    if ReadOptStr(rest) == (Ok(s), left) {
      var (t, more) := ReadTag(rest);
      TagExactly(rest, t.value, more);
      if s.Some? {
        StrExactly(more, s.value, left);
        Assoc([1], Frame(Utf8.Encode(s.value), 4), left);
      }
    }
  }

  lemma {:induction false} OptHashExactly(rest: bytes, h: Option<Digest>, left: bytes)
    ensures ReadOptHash(rest) == (Ok(h), left) <==> rest == OptHash(h) + left
  {
    hide ReadTag, Take;
    OptHashReadsBack(h, left);
    if ReadOptHash(rest) == (Ok(h), left) {
      var (t, more) := ReadTag(rest);
      TagExactly(rest, t.value, more);
      if h.Some? {
        TakeExactly(more, 32, h.value, left);
        Assoc([1], h.value, left);
      }
    }
  }
}
