/** Text and its UTF-8 bytes: `str::as_bytes` and `String::from_utf8`. */
module Utf8 {
  import opened Wrappers
  import opened ByteCodec

  function EncodeChar(c: char): (b: bytes)
    ensures 1 <= |b| <= 4
  {
    var n := c as int;
    if n < 0x80 then [n]
    else if n < 0x800 then [0xC0 + n / 0x40, 0x80 + n % 0x40]
    else if n < 0x1_0000 then [0xE0 + n / 0x1000, 0x80 + n / 0x40 % 0x40, 0x80 + n % 0x40]
    else [0xF0 + n / 0x4_0000, 0x80 + n / 0x1000 % 0x40, 0x80 + n / 0x40 % 0x40, 0x80 + n % 0x40]
  }

  function Encode(s: string): bytes {
    if s == "" then [] else EncodeChar(s[0]) + Encode(s[1..])
  }

  /** The code point that the lead byte and the bytes behind it announce, well-formed or not. */
  function Announced(b: bytes): Option<int> {
    if b == [] then None else
      var b0: int := b[0];
      if b0 < 0x80 then Some(b0)
      else if 0xC0 <= b0 < 0xE0 && |b| >= 2 then Some((b0 - 0xC0) * 0x40 + Payload(b[1]))
      else if 0xE0 <= b0 < 0xF0 && |b| >= 3 then
        Some((b0 - 0xE0) * 0x1000 + Payload(b[1]) * 0x40 + Payload(b[2]))
      else if 0xF0 <= b0 < 0xF8 && |b| >= 4 then
        Some((b0 - 0xF0) * 0x4_0000 + Payload(b[1]) * 0x1000 + Payload(b[2]) * 0x40 + Payload(b[3]))
      else None
  }

  /** The six bits a continuation byte carries. */
  function Payload(b: int): int { b - 0x80 }

  predicate IsScalar(n: int) {
    0 <= n < 0xD800 || 0xE000 <= n < 0x11_0000
  }

  /** The first character, if the bytes start with the shortest encoding of one. */
  function DecodeChar(b: bytes): (c: Option<char>)
    ensures c.Some? ==> EncodeChar(c.value) <= b
  {
    match Announced(b)
    case Some(n) => if IsScalar(n) && EncodeChar(n as char) <= b then Some(n as char) else None
    case None => None
  }

  /** `String::from_utf8`. */
  function Decode(b: bytes): Option<string>
    decreases |b|
  {
    if b == [] then Some("") else
      match DecodeChar(b)
      case None => None
      case Some(c) =>
        match Decode(b[|EncodeChar(c)|..])
        case None => None
        case Some(s) => Some([c] + s)
  }

  lemma {:induction false} Digits64(n: nat)
    ensures n / 0x1000 == n / 0x40 / 0x40 && n / 0x4_0000 == n / 0x1000 / 0x40
  {}

  lemma {:induction false} AnnouncedEncodeChar(c: char, rest: bytes)
    ensures Announced(EncodeChar(c) + rest) == Some(c as int)
  {
    Digits64(c as int);
    var n := c as int;
    var n1 := n / 0x40;
    var n2 := n / 0x1000;
    assert n == n1 * 0x40 + n % 0x40 && n1 == n2 * 0x40 + n1 % 0x40;
    assert n2 == n / 0x4_0000 * 0x40 + n2 % 0x40;
  }

  lemma {:induction false} DecodeEncodeChar(c: char, rest: bytes)
    ensures DecodeChar(EncodeChar(c) + rest) == Some(c)
  {
    AnnouncedEncodeChar(c, rest);
    assert EncodeChar(c) <= EncodeChar(c) + rest;
  }

  lemma {:induction false} DecodeStep(c: char, rest: bytes)
    ensures Decode(EncodeChar(c) + rest) ==
            match Decode(rest) { case None => None case Some(s) => Some([c] + s) }
  {
    DecodeEncodeChar(c, rest);
    assert (EncodeChar(c) + rest)[|EncodeChar(c)|..] == rest;
  }

  /** What is written as UTF-8 reads back. */
  lemma {:induction false} DecodeEncode(s: string)
    ensures Decode(Encode(s)) == Some(s)
  {
    if s != "" {
      DecodeStep(s[0], Encode(s[1..]));
      DecodeEncode(s[1..]);
      assert s == [s[0]] + s[1..];
    }
  }

  /** What reads as text is the UTF-8 of that text: overlong forms, surrogates and stray bytes are refused. */
  lemma {:induction false} DecodesExactly(b: bytes, s: string)
    ensures Decode(b) == Some(s) <==> b == Encode(s)
  {
    DecodeEncode(s);
    if Decode(b) == Some(s) {
      DecodedWasEncoded(b);
    }
  }

  lemma {:induction false} DecodedWasEncoded(b: bytes)
    requires Decode(b).Some?
    ensures Encode(Decode(b).value) == b
    decreases |b|
  {
    hide EncodeChar, DecodeChar;
    if b != [] {
      var c := DecodeChar(b).value;
      var rest := b[|EncodeChar(c)|..];
      DecodedWasEncoded(rest);
      assert Decode(b).value[1..] == Decode(rest).value;
      assert b == EncodeChar(c) + rest;
    }
  }

  lemma {:induction false} EncodeInjective(s: string, t: string)
    requires Encode(s) == Encode(t)
    ensures s == t
  {
    DecodeEncode(s);
    DecodeEncode(t);
  }

  predicate IsAscii(s: string) {
    forall i :: 0 <= i < |s| ==> s[i] as int < 0x80
  }

  /** ASCII text is encoded one byte a character. */
  lemma {:induction false} EncodeAscii(s: string)
    requires IsAscii(s)
    ensures |Encode(s)| == |s|
    ensures forall i :: 0 <= i < |s| ==> Encode(s)[i] == s[i] as int
  {
    if s != "" {
      EncodeAscii(s[1..]);
      forall i | 0 <= i < |s| ensures Encode(s)[i] == s[i] as int {
        if i > 0 {
          assert Encode(s)[i] == Encode(s[1..])[i - 1];
        }
      }
    }
  }
}
