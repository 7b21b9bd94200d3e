/** Printing and parsing of decimals (crates/model/src/decimal.rs). */
module DecimalText {
  import opened Wrappers
  import opened RustInt
  import opened Digits
  import opened Decimals

  // ----- printing

  /** The text without its sign, in one of three layouts: an integer, a point inside the digits, a point before them. */
  function PrintMagnitude(m: nat, e: int): string {
    var digits := ToText(m);
    var point := |digits| + e;
    if e >= 0 then digits + Zeros(e)
    else if point > 0 then digits[..point] + "." + digits[point..]
    else "0." + Zeros(-point) + digits
  }

  /** `to_string()`. For the least i128, whose `abs` overflows in the source, the magnitude is taken mathematically. */
  function Print(d: Decimal): string {
    if d.mant == 0 then "0"
    else (if d.mant < 0 then "-" else "") + PrintMagnitude(Abs(d.mant), d.exp)
  }

  /** The loop that writes n zeros. */
  method WriteZeros(f: string, n: nat) returns (g: string)
    ensures g == f + Zeros(n)
  {
    g := f;
    for i := 0 to n
      invariant g == f + Zeros(i)
    {
      g := g + "0";
    }
  }

  /** The printer; taking the absolute value of the least i128 overflows. */
  method Display(d: Decimal) returns (r: Result<string, ModelError>)
    ensures r == if d.mant == I128_MIN then Err(ArithmeticPanic) else Ok(Print(d))
  {
    if d.mant == 0 {
      return Ok("0");
    }
    if d.mant == I128_MIN {
      return Err(ArithmeticPanic);
    }
    var f: string;
    var digits := ToText(Abs(d.mant));
    var sign := if d.mant < 0 then "-" else "";
    if d.exp >= 0 {
      f := WriteZeros(sign + digits, d.exp);
      assert f == sign + (digits + Zeros(d.exp));
    } else {
      var point := |digits| + d.exp;
      if point > 0 {
        f := sign + digits[..point];
        f := f + ".";
        f := f + digits[point..];
        assert f == sign + (digits[..point] + "." + digits[point..]);
      } else {
        f := WriteZeros(sign + "0.", -point);
        f := f + digits;
        assert f == sign + ("0." + Zeros(-point) + digits);
      }
    }
    return Ok(f);
  }

  // ----- parsing

  /** Unicode White_Space. */
  predicate IsWhitespace(c: char) {
    var n := c as int;
    0x9 <= n <= 0xD || n == 0x20 || n == 0x85 || n == 0xA0 || n == 0x1680 || 0x2000 <= n <= 0x200A
    || n == 0x2028 || n == 0x2029 || n == 0x202F || n == 0x205F || n == 0x3000
  }

  /** `trim()`. */
  function Trim(s: string): string {
    if s != "" && IsWhitespace(s[0]) then Trim(s[1..])
    else if s != "" && IsWhitespace(s[|s| - 1]) then Trim(s[..|s| - 1])
    else s
  }

  /** Position of the first point, or the length. */
  function PointIn(s: string): (p: nat)
    ensures p <= |s|
    ensures p < |s| ==> s[p] == '.'
    ensures forall i :: 0 <= i < p ==> s[i] != '.'
  {
    if s == "" || s[0] == '.' then 0 else 1 + PointIn(s[1..])
  }

  /** A decimal literal without its sign: the digits with the point removed, and how many follow the point. */
  function ReadBody(body: string): (r: Option<(string, nat)>)
    ensures r.Some? ==> AllDigits(r.value.0) && r.value.0 != ""
  {
    var p := PointIn(body);
    var whole := body[..p];
    var frac := if p < |body| then body[p + 1..] else "";
    if AllDigits(whole) && AllDigits(frac) && whole + frac != "" then Some((whole + frac, |frac|)) else None
  }

  /** `str::parse`, by grammar: an optional sign, then digits with at most one point among them. */
  function Parse(input: string): Result<Decimal, ModelError> {
    var s := Trim(input);
    var neg := s != "" && s[0] == '-';
    var signed := neg || (s != "" && s[0] == '+');
    match ReadBody(if signed then s[1..] else s)
    case None => Err(BadDecimal)
    case Some((digits, frac)) =>
      var mant := if neg then -(NumberOf(digits) as int) else NumberOf(digits);
      if frac > 18 then Err(TooManyFractionalDigits)
      else if !InI128(mant) then Err(Overflow)
      else New(mant, 0 - frac)
  }

  /** The character loop of `from_str`. */
  method FromStr(input: string) returns (r: Result<Decimal, ModelError>)
    ensures r == Parse(input)
  {
    hide Scanned, ReadBody, Trim, NumberOf, InI128;
    var s := Trim(input);
    var neg, digits, frac, seenDot := false, "", 0, false;
    ghost var off := if s != "" && (s[0] == '-' || s[0] == '+') then 1 else 0;
    ghost var body := s[off..];
    ScanNothing(body);
    for i := 0 to |s|
      invariant neg == (i > 0 && s[0] == '-')
      invariant if i < off then digits == "" && frac == 0 && !seenDot
                else Scanned(body, i - off, digits, frac, seenDot)
      invariant AllDigits(digits)
    {
      var c := s[i];
      if c == '-' && i == 0 {
        neg := true;
        ScanNothing(body);
      } else if c == '+' && i == 0 {
        ScanNothing(body);
      } else {
        assert body[i - off] == c;
        ScanStep(body, i - off, digits, frac, seenDot);
        if IsDigit(c) {
          digits := digits + [c];
          if seenDot {
            frac := frac + 1;
          }
        } else if c == '.' && !seenDot {
          seenDot := true;
        } else {
          BadCharacter(body, i - off, digits, frac, seenDot);
          return Err(BadDecimal);
        }
      }
    }
    ScannedAll(body, digits, frac, seenDot);
    if digits == "" {
      return Err(BadDecimal);
    }
    if frac > 18 {
      return Err(TooManyFractionalDigits);
    }
    var mant := if neg then -(NumberOf(digits) as int) else NumberOf(digits);
    if !InI128(mant) {
      return Err(Overflow);
    }
    return New(mant, 0 - frac);
  }

  /** What the loop has collected after n characters of the body. */
  ghost predicate Scanned(body: string, n: int, digits: string, frac: int, seenDot: bool) {
    && 0 <= n <= |body|
    && AllDigits(digits)
    && var p := PointIn(body);
      && seenDot == (p < n)
      && (if seenDot then digits == body[..p] + body[p + 1..n] && frac == n - p - 1 else digits == body[..n] && frac == 0)
  }

  lemma {:induction false} ScanNothing(body: string)
    ensures Scanned(body, 0, "", 0, false)
  {}

  /** A digit, or the first point, extends what has been collected. */
  lemma {:induction false} ScanStep(body: string, n: int, digits: string, frac: int, seenDot: bool)
    requires Scanned(body, n, digits, frac, seenDot) && n < |body|
    ensures IsDigit(body[n]) ==>
              Scanned(body, n + 1, digits + [body[n]], if seenDot then frac + 1 else frac, seenDot)
    ensures body[n] == '.' && !seenDot ==> Scanned(body, n + 1, digits, frac, true)
  {
    var p := PointIn(body);
    if seenDot {
      assert body[p + 1..n + 1] == body[p + 1..n] + [body[n]];
      assert body[..p] + body[p + 1..n + 1] == (body[..p] + body[p + 1..n]) + [body[n]];
    } else {
      assert body[..n + 1] == body[..n] + [body[n]];
      assert body[n] == '.' ==> p == n && body[..p] + body[p + 1..n + 1] == body[..n];
    }
  }

  lemma {:induction false} ScannedAll(body: string, digits: string, frac: int, seenDot: bool)
    requires Scanned(body, |body|, digits, frac, seenDot)
    ensures frac >= 0
    ensures ReadBody(body) == if digits == "" then None else Some((digits, frac as nat))
  {
    var p := PointIn(body);
    if p < |body| {
      assert body[p + 1..|body|] == body[p + 1..];
      PartsAreDigits(body[..p], body[p + 1..]);
    } else {
      assert body[..|body|] == body && digits + "" == digits;
    }
  }

  lemma {:induction false} PartsAreDigits(a: string, b: string)
    requires AllDigits(a + b)
    ensures AllDigits(a) && AllDigits(b)
  {
    assert forall i :: 0 <= i < |a| ==> (a + b)[i] == a[i];
    assert forall i :: 0 <= i < |b| ==> (a + b)[|a| + i] == b[i];
  }

  /** A character that is neither a digit nor the first point spoils the literal. */
  lemma {:induction false} BadCharacter(body: string, n: int, digits: string, frac: int, seenDot: bool)
    requires Scanned(body, n, digits, frac, seenDot) && n < |body|
    requires !IsDigit(body[n]) && (body[n] == '.' ==> seenDot)
    ensures ReadBody(body).None?
  {
    var p := PointIn(body);
    if seenDot {
      assert body[p + 1..][n - p - 1] == body[n];
    } else {
      assert n < p;
      assert body[..p][n] == body[n];
    }
  }

  // ----- the round trip

  lemma {:induction false} PointAfterDigits(a: string, b: string)
    requires AllDigits(a)
    ensures PointIn(a) == |a| && PointIn(a + "." + b) == |a|
  {
    var s := a + "." + b;
    assert s[|a|] == '.';
    assert forall i :: 0 <= i < |a| ==> s[i] == a[i];
  }

  lemma {:induction false} ReadParts(a: string, b: string)
    requires AllDigits(a) && AllDigits(b) && a + b != ""
    ensures ReadBody(a + "." + b) == Some((a + b, |b|))
  {
    PointAfterDigits(a, b);
    var s := a + "." + b;
    assert s[..|a|] == a && s[|a| + 1..] == b;
  }

  lemma {:induction false} ReadWhole(a: string)
    requires AllDigits(a) && a != ""
    ensures ReadBody(a) == Some((a, 0))
  {
    PointAfterDigits(a, "");
    assert a[..|a|] == a && a + "" == a;
  }

  /** The printed digits, with the point at its place, read back as the number that was printed. */
  ghost predicate ReadsAs(text: string, v: nat, frac: nat) {
    var r := ReadBody(text);
    r.Some? && r.value.1 == frac && NumberOf(r.value.0) == v
  }

  lemma {:induction false} IntegerLayout(digits: string, e: nat)
    requires AllDigits(digits) && digits != ""
    ensures ReadsAs(digits + Zeros(e), NumberOf(digits) * Pow10(e), 0)
  {
    hide NumberOf, Pow10, ReadBody;
    TrailingZeros(digits, e);
    ReadWhole(digits + Zeros(e));
  }

  lemma {:induction false} PointInsideLayout(digits: string, point: nat)
    requires AllDigits(digits) && 0 < point <= |digits|
    ensures ReadsAs(digits[..point] + "." + digits[point..], NumberOf(digits), |digits| - point)
  {
    hide NumberOf, ReadBody;
    assert digits == digits[..point] + digits[point..];
    ReadParts(digits[..point], digits[point..]);
  }

  lemma {:induction false} PointBeforeLayout(digits: string, k: nat)
    requires AllDigits(digits) && digits != ""
    ensures ReadsAs("0." + Zeros(k) + digits, NumberOf(digits), k + |digits|)
  {
    hide NumberOf, ReadBody;
    var frac := Zeros(k) + digits;
    LeadingZeros(k + 1, digits);
    ZerosCons(k);
    assert Zeros(k + 1) + digits == "0" + frac;
    assert "0." + Zeros(k) + digits == "0" + "." + frac;
    PartsAreDigits("0", frac);
    ReadParts("0", frac);
  }

  /** All three layouts read back as the same number. */
  lemma {:induction false} ReadPrintedMagnitude(m: nat, e: int)
    requires m > 0 && MIN_EXP <= e <= MAX_EXP
    ensures e >= 0 ==> ReadsAs(PrintMagnitude(m, e), m * Pow10(e), 0)
    ensures e < 0 ==> ReadsAs(PrintMagnitude(m, e), m, -e)
  {
    hide ReadsAs, ToText, NumberOf, Pow10;
    var digits := ToText(m);
    ValueOfText(m);
    if e >= 0 {
      IntegerLayout(digits, e);
    } else if |digits| + e > 0 {
      PointInsideLayout(digits, |digits| + e);
    } else {
      PointBeforeLayout(digits, -(|digits| + e));
    }
  }

  lemma {:induction false} ZerosCons(k: nat)
    ensures Zeros(k + 1) == "0" + Zeros(k)
  {
    if k > 0 {
      ZerosCons(k - 1);
    }
  }

  lemma {:induction false} EndsInDigits(m: nat, e: int)
    requires m > 0 && MIN_EXP <= e <= MAX_EXP
    ensures var s := PrintMagnitude(m, e); s != "" && IsDigit(s[0]) && IsDigit(s[|s| - 1])
  {
    hide ToText;
    var digits := ToText(m);
    var point := |digits| + e;
    if e < 0 {
      if point > 0 {
        assert digits[point..] != "" && digits[..point] != "";
      } else {
        assert ("0." + Zeros(-point) + digits)[0] == '0';
      }
    }
  }

  lemma {:induction false} TrimNothing(s: string)
    requires s != "" && !IsWhitespace(s[0]) && !IsWhitespace(s[|s| - 1])
    ensures Trim(s) == s
  {}

  lemma {:induction false} ParsePrinted(neg: bool, body: string, v: nat, frac: nat)
    requires body != "" && IsDigit(body[0]) && IsDigit(body[|body| - 1]) && ReadsAs(body, v, frac) && frac <= 18
    ensures var mant := if neg then -(v as int) else v;
      Parse((if neg then "-" else "") + body) == if InI128(mant) then New(mant, 0 - frac) else Err(Overflow)
  {
    hide ReadBody;
    var s := (if neg then "-" else "") + body;
    TrimNothing(s);
    if neg {
      assert s[1..] == body;
    } else {
      assert s == body;
    }
  }

  lemma {:induction false} NormalStays(d: Decimal)
    requires IsNormal(d.mant, d.exp)
    ensures New(d.mant, d.exp) == Ok(d)
  {}

  /**
   The round trip, in full: the text of a decimal made by `new` parses to the identical pair, unless it is
   zero, which comes back with exponent 0, or its digits written out as an integer leave the 128-bit range.
   */
  lemma {:induction false} ParsePrint(d: Decimal)
    requires IsNormal(d.mant, d.exp) && d.mant != I128_MIN
    ensures Parse(Print(d)) ==
            if d.mant == 0 then Ok(Dec(0, 0))
            else if d.exp < 0 || InI128(d.mant * Pow10(d.exp)) then Ok(d)
            else Err(Overflow)
  {
    assert d.mant == 0 ==> Print(d) == "0";
    hide Parse, Print, New, Pow10, IsNormal, InI128;
    if d.mant == 0 {
      ParseZero();
    } else if d.exp < 0 {
      ParsePrintedFraction(d);
    } else {
      ParsePrintedInteger(d);
    }
  }

  lemma {:induction false} ParsePrintedFraction(d: Decimal)
    requires IsNormal(d.mant, d.exp) && d.mant != 0 && d.exp < 0
    ensures Parse(Print(d)) == Ok(d)
  {
    hide Parse, PrintMagnitude, ReadsAs, New, IsNormal;
    var m := Abs(d.mant);
    EndsInDigits(m, d.exp);
    ReadPrintedMagnitude(m, d.exp);
    ParsePrinted(d.mant < 0, PrintMagnitude(m, d.exp), m, -d.exp);
    NormalStays(d);
  }

  lemma {:induction false} ParsePrintedInteger(d: Decimal)
    requires IsNormal(d.mant, d.exp) && d.mant != 0 && d.exp >= 0
    ensures Parse(Print(d)) == if InI128(d.mant * Pow10(d.exp)) then Ok(d) else Err(Overflow)
  {
    hide Parse, PrintMagnitude, ReadsAs, New, IsNormal, InI128, Pow10;
    var m, p := Abs(d.mant), Pow10(d.exp);
    EndsInDigits(m, d.exp);
    ReadPrintedMagnitude(m, d.exp);
    ParsePrinted(d.mant < 0, PrintMagnitude(m, d.exp), m * p, 0);
    SignedProduct(d.mant, p);
    if InI128(d.mant * p) {
      IntegerRenormalizes(d);
    }
  }

  lemma {:induction false} SignedProduct(x: int, p: nat)
    ensures x * p == if x < 0 then -(Abs(x) * p) else Abs(x) * p
  {}

  lemma {:induction false} ParseZero()
    ensures Parse("0") == Ok(Dec(0, 0))
  {
    TrimNothing("0");
    ReadWhole("0");
    ValueOfText(0);
    assert ToText(0) == "0";
  }

  /** Written out as an integer and normalized again, the pair is the same. */
  lemma {:induction false} IntegerRenormalizes(d: Decimal)
    requires d.exp >= 0 && d.mant != 0 && IsNormal(d.mant, d.exp) && InI128(d.mant * Pow10(d.exp))
    ensures New(d.mant * Pow10(d.exp), 0) == Ok(d)
  {
    hide New, Scaled, IsNormal, Pow10;
    NewKeepsValue(d.mant * Pow10(d.exp), 0);
    ScaledShift(d.mant, d.exp, 0);
    ScaledSign(d.mant, d.exp);
    var r := New(d.mant * Pow10(d.exp), 0).value;
    ScaledSign(r.mant, r.exp);
    NormalFormUnique(d.mant, d.exp, r.mant, r.exp);
  }

  // ----- the text determines the value

  /** The value, in units of 10^-18, that a text without sign denotes. */
  function Denotes(body: string): Option<int> {
    match ReadBody(body)
    case Some((digits, frac)) => if frac <= 18 then Some(NumberOf(digits) * Pow10(18 - frac)) else None
    case None => None
  }

  /** Also where the text is too long to parse back, it denotes exactly the magnitude that was printed. */
  lemma {:induction false} PrintDenotes(m: nat, e: int)
    requires m > 0 && MIN_EXP <= e <= MAX_EXP
    ensures Denotes(PrintMagnitude(m, e)) == Some(Scaled(m, e))
  {
    hide PrintMagnitude, ReadBody, Pow10, NumberOf;
    ReadPrintedMagnitude(m, e);
    if e >= 0 {
      ScaledShift(m, e, 0);
    }
  }

  /** Two decimals with one text have one value. */
  lemma {:induction false} PrintInjective(a: Decimal, b: Decimal)
    requires Print(a) == Print(b)
    ensures Decimals.Value(a) == Decimals.Value(b)
  {
    hide PrintMagnitude, Denotes, Scaled;
    ScaledSign(a.mant, a.exp);
    ScaledSign(b.mant, b.exp);
    var m, n := Abs(a.mant), Abs(b.mant);
    if a.mant != 0 {
      EndsInDigits(m, a.exp);
      PrintDenotes(m, a.exp);
      ScaledSign(m, a.exp);
      ZeroDenotesZero(m, a.exp);
    }
    if b.mant != 0 {
      EndsInDigits(n, b.exp);
      PrintDenotes(n, b.exp);
      ScaledSign(n, b.exp);
      ZeroDenotesZero(n, b.exp);
    }
    if a.mant != 0 && b.mant != 0 {
      var x, y := PrintMagnitude(m, a.exp), PrintMagnitude(n, b.exp);
      assert a.mant < 0 <==> Print(a)[0] == '-';
      assert b.mant < 0 <==> Print(b)[0] == '-';
      assert x == if a.mant < 0 then Print(a)[1..] else Print(a);
      assert y == if b.mant < 0 then Print(b)[1..] else Print(b);
    }
  }

  lemma {:induction false} ZeroDenotesZero(m: nat, e: int)
    requires m > 0 && MIN_EXP <= e <= MAX_EXP
    ensures PrintMagnitude(m, e) != "0"
  {
    hide PrintMagnitude, Scaled, Pow10;
    PrintDenotes(m, e);
    ScaledSign(m, e);
    ReadWhole("0");
    ValueOfText(0);
    assert ToText(0) == "0";
    assert 0 * Pow10(18) == 0;
  }

  // ----- what the parser accepts

  /** A decimal literal, with the white space around it. */
  datatype Literal = Literal(before: string, sign: string, whole: string, pointed: bool, fraction: string, behind: string)

  predicate AllWhitespace(s: string) {
    forall i :: 0 <= i < |s| ==> IsWhitespace(s[i])
  }

  /** At least one digit, and none behind the point without a point. */
  predicate WellFormedLiteral(l: Literal) {
    && AllWhitespace(l.before) && AllWhitespace(l.behind) && (l.sign == "" || l.sign == "+" || l.sign == "-")
    && AllDigits(l.whole) && AllDigits(l.fraction) && l.whole + l.fraction != ""
    && (!l.pointed ==> l.fraction == "")
  }

  function Body(l: Literal): string {
    l.whole + (if l.pointed then "." else "") + l.fraction
  }

  function LiteralText(l: Literal): string {
    l.before + (l.sign + Body(l)) + l.behind
  }

  lemma {:induction false} JoinedDigits(a: string, b: string)
    requires AllDigits(a) && AllDigits(b)
    ensures AllDigits(a + b)
  {}

  /** The digits as a signed number, in units of the last place. */
  function Mantissa(l: Literal): int
    requires WellFormedLiteral(l)
  {
    JoinedDigits(l.whole, l.fraction);
    if l.sign == "-" then -(NumberOf(l.whole + l.fraction) as int) else NumberOf(l.whole + l.fraction)
  }

  predicate Bare(s: string) {
    s == "" || (!IsWhitespace(s[0]) && !IsWhitespace(s[|s| - 1]))
  }

  lemma {:induction false} TrimmedOf(before: string, core: string, behind: string)
    requires AllWhitespace(before) && AllWhitespace(behind) && core != "" && Bare(core)
    ensures Trim(before + core + behind) == core
    decreases |before| + |behind|
  {
    hide IsWhitespace;
    var s := before + core + behind;
    if before != "" {
      assert s[0] == before[0] && s[1..] == before[1..] + core + behind;
      TrimmedOf(before[1..], core, behind);
    } else if behind != "" {
      var n := |behind| - 1;
      assert s[0] == core[0] && s[|s| - 1] == behind[n] && s[..|s| - 1] == before + core + behind[..n];
      TrimmedOf(before, core, behind[..n]);
    } else {
      assert s == core;
      TrimNothing(core);
    }
  }

  lemma {:induction false} TrimSplits(s: string) returns (before: string, behind: string)
    ensures s == before + Trim(s) + behind && AllWhitespace(before) && AllWhitespace(behind) && Bare(Trim(s))
    decreases |s|
  {
    hide IsWhitespace;
    before, behind := "", "";
    if s != "" && IsWhitespace(s[0]) {
      before, behind := TrimSplits(s[1..]);
      assert s == [s[0]] + s[1..];
      before := [s[0]] + before;
    } else if s != "" && IsWhitespace(s[|s| - 1]) {
      before, behind := TrimSplits(s[..|s| - 1]);
      assert s == s[..|s| - 1] + [s[|s| - 1]];
      behind := behind + [s[|s| - 1]];
    } else {
      assert s == "" + s + "";
    }
  }

  lemma {:induction false} BodyIsBare(l: Literal)
    requires WellFormedLiteral(l)
    ensures Body(l) != "" && Bare(l.sign + Body(l)) && Body(l)[0] != '-' && Body(l)[0] != '+'
  {
    var body := Body(l);
    assert IsDigit(body[0]) || body[0] == '.';
    assert IsDigit(body[|body| - 1]) || body[|body| - 1] == '.';
    var s := l.sign + body;
    assert s[|s| - 1] == body[|body| - 1] && s[0] == if l.sign == "" then body[0] else l.sign[0];
  }

  lemma {:induction false} BodyIsRead(l: Literal)
    requires WellFormedLiteral(l)
    ensures ReadBody(Body(l)) == Some((l.whole + l.fraction, |l.fraction|))
  {
    hide ReadBody;
    if l.pointed {
      ReadParts(l.whole, l.fraction);
    } else {
      assert l.whole + "" + l.fraction == l.whole && l.whole + l.fraction == l.whole;
      ReadWhole(l.whole);
    }
  }

  /** Every literal is parsed, exactly, if it has at most eighteen places and its digits fit 128 bits. */
  lemma {:induction false} LiteralParses(l: Literal)
    requires WellFormedLiteral(l)
    ensures Parse(LiteralText(l)) ==
            if |l.fraction| > 18 then Err(TooManyFractionalDigits)
            else if InI128(Mantissa(l)) then New(Mantissa(l), -|l.fraction|) else Err(Overflow)
  {
    hide ReadBody, Trim, Body, New, InI128;
    BodyIsBare(l);
    BodyIsRead(l);
    var s := l.sign + Body(l);
    TrimmedOf(l.before, s, l.behind);
    assert l.sign != "" ==> s[1..] == Body(l);
    assert l.sign == "" ==> s == Body(l);
  }

  lemma {:induction false} ReadBodyParts(body: string) returns (whole: string, pointed: bool, fraction: string)
    requires ReadBody(body).Some?
    ensures body == whole + (if pointed then "." else "") + fraction && (!pointed ==> fraction == "")
    ensures AllDigits(whole) && AllDigits(fraction) && ReadBody(body).value == (whole + fraction, |fraction|)
  {
    var p := PointIn(body);
    whole, pointed, fraction := body[..p], p < |body|, if p < |body| then body[p + 1..] else "";
  }

  lemma {:induction false} ParsedIsLiteral(input: string) returns (l: Literal)
    requires Parse(input) != Err(BadDecimal)
    ensures IsLiteral(l, input)
  {
    hide ReadBody, Trim, New, InI128;
    var s := Trim(input);
    var before, behind := TrimSplits(input);
    var signed := s != "" && (s[0] == '-' || s[0] == '+');
    var body := if signed then s[1..] else s;
    var whole, pointed, fraction := ReadBodyParts(body);
    l := Literal(before, if signed then [s[0]] else "", whole, pointed, fraction, behind);
    assert s == l.sign + Body(l);
  }

  ghost predicate IsLiteral(l: Literal, input: string) {
    WellFormedLiteral(l) && input == LiteralText(l)
  }

  /** The text is this literal, and the decimal is its number in normal form. */
  ghost predicate Spells(l: Literal, input: string, d: Decimal) {
    && IsLiteral(l, input) && |l.fraction| <= 18 && InI128(Mantissa(l))
    && Value(d) == Scaled(Mantissa(l), -|l.fraction|) && IsNormal(d.mant, d.exp)
  }

  /**
   What the parser makes of a text: exactly the literals of at most eighteen places whose digits fit 128 bits are read, each
   as the number it spells; other literals are refused for their places or their size, and what is no literal as such.
   */
  lemma {:induction false} ParsesExactly(input: string)
    ensures Parse(input).Ok? <==> exists l :: IsLiteral(l, input) && |l.fraction| <= 18 && InI128(Mantissa(l))
    ensures Parse(input).Ok? ==> exists l :: Spells(l, input, Parse(input).value)
    ensures Parse(input) == Err(TooManyFractionalDigits) <==> exists l :: IsLiteral(l, input) && |l.fraction| > 18
    ensures Parse(input) == Err(Overflow) <==>
            exists l :: IsLiteral(l, input) && |l.fraction| <= 18 && !InI128(Mantissa(l))
    ensures Parse(input) == Err(BadDecimal) <==> !exists l :: IsLiteral(l, input)
  {
    hide Parse, LiteralText, Mantissa, InI128, Scaled;
    forall l | IsLiteral(l, input)
      ensures Parse(input) == if |l.fraction| > 18 then Err(TooManyFractionalDigits)
                              else if InI128(Mantissa(l)) then New(Mantissa(l), -|l.fraction|) else Err(Overflow)
    {
      LiteralParses(l);
    }
    if Parse(input) != Err(BadDecimal) {
      var l := ParsedIsLiteral(input);
      assert IsLiteral(l, input);
      if Parse(input).Ok? {
        NewKeepsValue(Mantissa(l), -|l.fraction|);
        assert Spells(l, input, Parse(input).value);
      }
    }
  }

  /** The whole part and the fraction of a printed magnitude. */
  function WholeOf(digits: string, e: int): string
    requires digits != ""
  {
    if e >= 0 then digits + Zeros(e) else if |digits| + e > 0 then digits[..|digits| + e] else "0"
  }

  function FractionOf(digits: string, e: int): string
    requires digits != ""
  {
    if e >= 0 then "" else if |digits| + e > 0 then digits[|digits| + e..] else Zeros(-(|digits| + e)) + digits
  }

  lemma {:induction false} MagnitudeParts(m: nat, e: int)
    ensures var whole, fraction := WholeOf(ToText(m), e), FractionOf(ToText(m), e);
      PrintMagnitude(m, e) == whole + (if e < 0 then "." else "") + fraction
  {
    hide ToText;
    var k := -(|ToText(m)| + e);
    if e < 0 && k >= 0 {
      assert "0" + "." + (Zeros(k) + ToText(m)) == "0." + Zeros(k) + ToText(m);
    }
  }

  lemma {:induction false} PartsOfDigits(digits: string, e: int)
    requires AllDigits(digits) && digits != "" && digits[0] != '0'
    ensures var whole, fraction := WholeOf(digits, e), FractionOf(digits, e);
      && AllDigits(whole) && AllDigits(fraction) && whole != "" && (whole[0] == '0' ==> whole == "0")
      && |fraction| == if e < 0 then -e else 0
  {}

  /** How a decimal is printed: without white space, plus sign or needless zero in front, all its places behind the point. */
  lemma {:induction false} PrintedLayout(d: Decimal) returns (l: Literal)
    ensures WellFormedLiteral(l) && Print(d) == LiteralText(l) && l.before == l.behind == ""
    ensures l.sign == if d.mant < 0 then "-" else ""
    ensures l.whole != "" && (l.whole[0] == '0' ==> l.whole == "0")
    ensures l.pointed <==> d.mant != 0 && d.exp < 0
    ensures |l.fraction| == if l.pointed then -d.exp else 0
  {
    hide ToText, IsWhitespace, WholeOf, FractionOf, PrintMagnitude, Pow10;
    if d.mant == 0 {
      l := Literal("", "", "0", false, "", "");
    } else {
      var m := Abs(d.mant);
      TextLength(m);
      MagnitudeParts(m, d.exp);
      PartsOfDigits(ToText(m), d.exp);
      l := Literal("", if d.mant < 0 then "-" else "", WholeOf(ToText(m), d.exp), d.exp < 0, FractionOf(ToText(m), d.exp), "");
    }
  }
}
