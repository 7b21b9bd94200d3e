/** Case and separator normalization of text (crates/model/src/normalization.rs). */
module Normalization {
  import DecimalText

  function LowerAscii(c: char): char {
    if 'A' <= c <= 'Z' then (c as int + 32) as char else c
  }

  predicate IsSeparator(c: char) {
    c == '-' || c == '_' || c == ' ' || c == '.' || c == '+'
  }

  function DropEndDashes(s: string): string {
    if s != "" && s[|s| - 1] == '-' then DropEndDashes(s[..|s| - 1]) else s
  }

  /** The loop of `normalize_token` over the characters left, with what it has put out so far. */
  function Tokenize(rest: string, out: string, pending: bool): string
    decreases |rest|
  {
    if rest == "" then DropEndDashes(out)
    else
      var c := LowerAscii(rest[0]);
      if IsSeparator(c) then
        if out != "" && !pending then Tokenize(rest[1..], out + "-", true) else Tokenize(rest[1..], out, pending)
      else Tokenize(rest[1..], out + [c], false)
  }

  function NormalizeToken(s: string): string {
    Tokenize(DecimalText.Trim(s), "", false)
  }

  function Lowercase(s: string): (t: string)
    ensures |t| == |s| && forall i :: 0 <= i < |s| ==> t[i] == LowerAscii(s[i])
  {
    if s == "" then "" else [LowerAscii(s[0])] + Lowercase(s[1..])
  }

  predicate IsLowerAlphanumeric(c: char) {
    'a' <= c <= 'z' || '0' <= c <= '9'
  }

  /** `squash`: letters and digits only, in lower case. */
  function Squash(s: string): string {
    if s == "" then ""
    else if IsLowerAlphanumeric(LowerAscii(s[0])) then [LowerAscii(s[0])] + Squash(s[1..])
    else Squash(s[1..])
  }

  /** Squashing goes character by character: letters and digits stay, capitals become small, all else is dropped. */
  lemma {:induction false} SquashedLast(s: string, c: char)
    ensures Squash(s + [c]) == Squash(s) +
      if 'a' <= c <= 'z' || '0' <= c <= '9' then [c] else if 'A' <= c <= 'Z' then [(c as int + 32) as char] else ""
  {
    if s == "" {
      assert s + [c] == [c] && [c][1..] == "";
      assert Squash("") == "";
    } else {
      assert (s + [c])[1..] == s[1..] + [c];
      SquashedLast(s[1..], c);
    }
  }

  /** The first two letters of a token survive squashing. */
  lemma {:induction false} SquashKeepsTwo(s: string)
    requires |s| >= 2 && IsLowerAlphanumeric(s[0]) && IsLowerAlphanumeric(s[1])
    ensures |Squash(s)| >= 2 && Squash(s)[0] == s[0] && Squash(s)[1] == s[1]
  {
    assert Squash(s) == [s[0]] + Squash(s[1..]);
    assert Squash(s[1..]) == [s[1]] + Squash(s[1..][1..]);
  }

  // ----- normalizing twice

  /** Lower case, and a dash if it is a separator, which is not at the start and not behind another. */
  ghost predicate IsInToken(t: string, i: nat)
    requires i < |t|
  {
    && LowerAscii(t[i]) == t[i]
    && (IsSeparator(t[i]) ==> t[i] == '-' && i > 0 && t[i - 1] != '-')
  }

  ghost predicate IsPartOfToken(t: string) {
    forall i :: 0 <= i < |t| ==> IsInToken(t, i)
  }

  ghost predicate IsToken(t: string) {
    IsPartOfToken(t) && (t != "" ==> t[|t| - 1] != '-')
  }

  lemma {:induction false} DroppedIsToken(t: string)
    requires IsPartOfToken(t)
    ensures IsToken(DropEndDashes(t)) && |DropEndDashes(t)| <= |t|
    decreases |t|
  {
    if t != "" && t[|t| - 1] == '-' {
      var before := t[..|t| - 1];
      forall i | 0 <= i < |before| ensures IsInToken(before, i) {
        assert IsInToken(t, i);
      }
      DroppedIsToken(before);
    }
  }

  lemma {:induction false} OneMoreCharacter(t: string, c: char)
    requires IsPartOfToken(t) && LowerAscii(c) == c
    requires IsSeparator(c) ==> c == '-' && t != "" && t[|t| - 1] != '-'
    ensures IsPartOfToken(t + [c])
  {
    forall i | 0 <= i < |t| ensures IsInToken(t + [c], i) {
      assert IsInToken(t, i);
    }
  }

  lemma {:induction false} TokenizedIsToken(rest: string, out: string, pending: bool)
    requires IsPartOfToken(out) && (pending <==> out != "" && out[|out| - 1] == '-')
    ensures IsToken(Tokenize(rest, out, pending)) && |Tokenize(rest, out, pending)| <= |rest| + |out|
    decreases |rest|
  {
    hide DropEndDashes, IsToken, IsPartOfToken;
    if rest == "" {
      DroppedIsToken(out);
    } else {
      var c := LowerAscii(rest[0]);
      if IsSeparator(c) {
        if out != "" && !pending {
          OneMoreCharacter(out, '-');
          TokenizedIsToken(rest[1..], out + "-", true);
        } else {
          TokenizedIsToken(rest[1..], out, pending);
        }
      } else {
        OneMoreCharacter(out, c);
        TokenizedIsToken(rest[1..], out + [c], false);
      }
    }
  }

  /** The loop leaves a token as it is. */
  lemma {:induction false} TokenIsKept(t: string, i: nat)
    requires IsToken(t) && i <= |t|
    ensures Tokenize(t[i..], t[..i], i > 0 && t[i - 1] == '-') == t
    decreases |t| - i
  {
    if i == |t| {
      assert t[..i] == t;
    } else {
      assert t[i..][1..] == t[i + 1..] && t[..i] + [t[i]] == t[..i + 1];
      assert IsInToken(t, i);
      TokenIsKept(t, i + 1);
    }
  }

  lemma {:induction false} TrimShortens(t: string)
    ensures |DecimalText.Trim(t)| <= |t| && (|DecimalText.Trim(t)| == |t| ==> DecimalText.Trim(t) == t)
    decreases |t|
  {
    if t != "" && DecimalText.IsWhitespace(t[0]) {
      TrimShortens(t[1..]);
    } else if t != "" && DecimalText.IsWhitespace(t[|t| - 1]) {
      TrimShortens(t[..|t| - 1]);
    }
  }

  /** A normalized text is its own normal form exactly if there is no white space at its ends. */
  lemma {:induction false} NormalizingTwice(s: string)
    ensures var t := NormalizeToken(s);
      NormalizeToken(t) == t <==> DecimalText.Trim(t) == t
  {
    hide Tokenize, DecimalText.Trim;
    var t := NormalizeToken(s);
    var u := DecimalText.Trim(t);
    TokenizedIsToken(DecimalText.Trim(s), "", false);
    TrimShortens(t);
    if u == t {
      assert t[0..] == t && t[..0] == "";
      TokenIsKept(t, 0);
    } else {
      TokenizedIsToken(u, "", false);
    }
  }

  /** A token with no white space at its ends is normalized to itself. */
  lemma {:induction false} TokenIsNormal(t: string)
    requires IsToken(t) && t != "" && !DecimalText.IsWhitespace(t[0]) && !DecimalText.IsWhitespace(t[|t| - 1])
    ensures NormalizeToken(t) == t
  {
    hide Tokenize, IsToken, DecimalText.Trim;
    DecimalText.TrimNothing(t);
    assert t[0..] == t && t[..0] == "";
    TokenIsKept(t, 0);
  }

  lemma {:induction false} DashIsSkipped(t: string)
    ensures Tokenize("-" + t, "", false) == Tokenize(t, "", false)
  {
    assert ("-" + t)[1..] == t;
  }

  lemma {:induction false} TabIsTrimmed(t: string)
    ensures DecimalText.Trim("\t" + t) == DecimalText.Trim(t)
  {
    assert ("\t" + t)[1..] == t;
  }

  /** White space behind a separator at the start survives, and is trimmed the next time. */
  lemma {:induction false} DashBeforeTab()
    ensures NormalizeToken("-\tx") == "\tx" && NormalizeToken("\tx") == "x"
  {
    hide Tokenize, DecimalText.Trim;
    assert "-\tx" == "-" + "\tx" && "\tx" == "\t" + "x";
    DecimalText.TrimNothing("-\tx");
    DashIsSkipped("\tx");
    assert "\tx"[0..] == "\tx" && "\tx"[..0] == "";
    TokenIsKept("\tx", 0);
    TabIsTrimmed("x");
    TokenIsNormal("x");
  }

  // ----- what normalizing means

  function Closed(word: string): seq<string> {
    if word == "" then [] else [word]
  }

  /** The runs of characters that are no separators, in lower case; `word` is the one that has begun. */
  function WordsIn(rest: string, word: string): seq<string>
    decreases |rest|
  {
    if rest == "" then Closed(word)
    else if rest[0] in "-_ .+" then Closed(word) + WordsIn(rest[1..], "")
    else WordsIn(rest[1..], word + [LowerAscii(rest[0])])
  }

  function Dashed(words: seq<string>): string {
    if words == [] then "" else if |words| == 1 then words[0] else words[0] + "-" + Dashed(words[1..])
  }

  /** Nothing put out yet, or words with a dash behind the last. */
  predicate IsClosed(out: string) {
    out == "" || out[|out| - 1] == '-'
  }

  lemma {:induction false} DropOneDash(out: string)
    requires !IsClosed(out)
    ensures DropEndDashes(out) == out && DropEndDashes(out + "-") == out
  {
    assert (out + "-")[..|out|] == out;
  }

  lemma {:induction false} SeparatorsAre(c: char)
    ensures IsSeparator(LowerAscii(c)) <==> c in "-_ .+"
    ensures !IsSeparator(LowerAscii(c)) ==> LowerAscii(c) != '-'
  {}

  lemma {:induction false} TokenizedIsDashed(rest: string, out: string, word: string, pending: bool)
    requires IsClosed(out) && (word != "" ==> !IsClosed(word)) && (pending <==> word == "" && out != "")
    ensures var words := WordsIn(rest, word);
      Tokenize(rest, out + word, pending) == if words == [] then DropEndDashes(out) else out + Dashed(words)
    decreases |rest|
  {
    hide DropEndDashes, IsSeparator, LowerAscii;
    if rest == "" {
      if word == "" {
        assert out + word == out;
      } else {
        DropOneDash(out + word);
      }
    } else {
      var c, tail := LowerAscii(rest[0]), rest[1..];
      SeparatorsAre(rest[0]);
      if !IsSeparator(c) {
        assert out + word + [c] == out + (word + [c]);
        TokenizedIsDashed(tail, out, word + [c], false);
      } else if word == "" {
        assert [] + WordsIn(tail, "") == WordsIn(tail, "");
        TokenizedIsDashed(tail, out, "", pending);
      } else {
        assert (out + word + "-") + "" == out + word + "-";
        TokenizedIsDashed(tail, out + word + "-", "", true);
        var words := WordsIn(tail, "");
        if words == [] {
          assert [word] + words == [word];
          DropOneDash(out + word);
        } else {
          assert ([word] + words)[1..] == words;
        }
      }
    }
  }

  /** A normalized text is its words, in lower case, with single dashes between them. */
  lemma {:induction false} NormalizedIsDashedWords(s: string)
    ensures NormalizeToken(s) == Dashed(WordsIn(DecimalText.Trim(s), ""))
  {
    hide DecimalText.Trim;
    TokenizedIsDashed(DecimalText.Trim(s), "", "", false);
    assert "" + "" == "";
  }
}
