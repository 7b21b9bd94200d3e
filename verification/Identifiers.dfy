/** Passport identifiers (crates/model/src/ids.rs). */
module Identifiers {
  import opened Wrappers
  import opened ByteCodec
  import opened Normalization
  import DecimalText
  import Utf8

  predicate IsGraphic(b: byte) { 33 <= b <= 126 }

  /** What `PassportId::new` makes: short, printable ASCII without blanks or capitals. */
  predicate IsPassportId(s: string) {
    && s != "" && |s| <= 128
    && forall i :: 0 <= i < |s| ==> 33 <= s[i] as int <= 126 && !('A' <= s[i] <= 'Z')
  }

  type PassportId = s: string | IsPassportId(s) witness "a"

  datatype IdError = EmptyId | TooLong | NotGraphic

  /** `PassportId::new`: trimmed and in lower case, then checked. */
  function NewPassportId(raw: string): (r: Result<PassportId, IdError>)
    ensures r.Ok? <==> IsPassportId(Lowercase(DecimalText.Trim(raw)))
    ensures r.Ok? ==> r.value == Lowercase(DecimalText.Trim(raw))
  {
    var n := Lowercase(DecimalText.Trim(raw));
    var b := Utf8.Encode(n);
    GraphicBytesExactly(n);
    if n == "" then Err(EmptyId)
    else if |b| > 128 then Err(TooLong)
    else if exists i :: 0 <= i < |b| && !IsGraphic(b[i]) then Err(NotGraphic)
    else Ok(n)
  }

  /** The checks on the bytes are checks on the characters. */
  lemma {:induction false} GraphicBytesExactly(n: string)
    requires forall i :: 0 <= i < |n| ==> !('A' <= n[i] <= 'Z')
    ensures var b := Utf8.Encode(n);
      n != "" && |b| <= 128 && (forall i :: 0 <= i < |b| ==> IsGraphic(b[i])) <==> IsPassportId(n)
  {
    hide Utf8.Encode;
    var b := Utf8.Encode(n);
    if forall i :: 0 <= i < |b| ==> IsGraphic(b[i]) {
      GraphicText(n);
    }
    if IsPassportId(n) {
      Utf8.EncodeAscii(n);
    }
  }

  /** Bytes that are all graphic ASCII encode characters that are, one each. */
  lemma {:induction false} GraphicText(s: string)
    requires forall i :: 0 <= i < |Utf8.Encode(s)| ==> IsGraphic(Utf8.Encode(s)[i])
    ensures |Utf8.Encode(s)| == |s| && forall i :: 0 <= i < |s| ==> 33 <= s[i] as int <= 126
  {
    if s != "" {
      var head, tail := Utf8.EncodeChar(s[0]), Utf8.Encode(s[1..]);
      assert Utf8.Encode(s) == head + tail;
      assert head[0] == Utf8.Encode(s)[0] && IsGraphic(head[0]);
      assert forall i :: 0 <= i < |tail| ==> tail[i] == Utf8.Encode(s)[|head| + i];
      GraphicText(s[1..]);
    }
  }

  /** An identifier is its own normal form. */
  lemma {:induction false} PassportIdReadsBack(id: PassportId)
    ensures NewPassportId(id) == Ok(id)
  {
    assert DecimalText.Trim(id) == id;
    assert Lowercase(id) == id;
    Utf8.EncodeAscii(id);
  }
}
