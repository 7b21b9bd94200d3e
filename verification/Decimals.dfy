/**
 Exact fixed-point decimals (crates/model/src/decimal.rs): `mant * 10^exp` with a 128-bit mantissa
 and an exponent in [-18, 18]. As no exponent is below -18, every decimal is a whole number of units of
 10^-18; `Value` is that number, and all arithmetic is stated in terms of it.
 */
module Decimals {
  import opened Wrappers
  import opened RustInt
  import opened Digits

  datatype ModelError =
    | Overflow
    | ExponentRange
    | DivideByZero
    | InexactRatio
    | BadDecimal
    | TooManyFractionalDigits
      /** `abs` or negation of the least 128-bit integer: an arithmetic overflow, which panics in a checked build. */
    | ArithmeticPanic

  const MAX_EXP := 18
  const MIN_EXP := -18

  datatype Dec = Dec(mant: int, exp: int)

  type Decimal = d: Dec | InI128(d.mant) && MIN_EXP <= d.exp <= MAX_EXP witness Dec(0, 0)

  const ZERO: Decimal := Dec(0, 0)

  /** m * 10^e in units of 10^-18. */
  function Scaled(m: int, e: int): int
    requires e >= MIN_EXP
  {
    m * Pow10(e + 18)
  }

  function Value(d: Decimal): int { Scaled(d.mant, d.exp) }

  // ----- normal form

  function Normalized(m: int, e: int): (int, int)
    decreases MAX_EXP - e
  {
    if m != 0 && TruncMod(m, 10) == 0 && e < MAX_EXP then Normalized(TruncDiv(m, 10), e + 1) else (m, e)
  }

  /** No trailing zero is left that could be moved into the exponent. */
  predicate IsNormal(m: int, e: int) {
    m != 0 ==> TruncMod(m, 10) != 0 || e == MAX_EXP
  }

  method Normalize(mant: int, exp: int) returns (m: int, e: int)
    requires exp <= MAX_EXP
    ensures (m, e) == Normalized(mant, exp)
    ensures IsNormal(m, e)
  {
    m, e := mant, exp;
    while m != 0 && TruncMod(m, 10) == 0 && e < MAX_EXP
      invariant e <= MAX_EXP
      invariant Normalized(m, e) == Normalized(mant, exp)
      decreases MAX_EXP - e
    {
      m := TruncDiv(m, 10);
      e := e + 1;
    }
  }

  lemma {:induction false} ScaledShift(m: int, k: nat, e: int)
    requires e >= MIN_EXP
    ensures Scaled(m * Pow10(k), e) == Scaled(m, e + k)
  {
    Pow10Sum(k, e + 18);
    assert m * Pow10(k) * Pow10(e + 18) == m * (Pow10(k) * Pow10(e + 18));
  }

  lemma {:induction false} DropZero(m: int, e: int)
    requires e >= MIN_EXP && TruncMod(m, 10) == 0
    ensures Scaled(TruncDiv(m, 10), e + 1) == Scaled(m, e)
    ensures InI128(m) ==> InI128(TruncDiv(m, 10))
    ensures m != 0 ==> TruncDiv(m, 10) != 0
  {
    ExactDivision(m, 10);
    ScaledShift(TruncDiv(m, 10), 1, e);
    assert Pow10(1) == 10 * Pow10(0);
  }

  /** Normalizing keeps the value and stays in range. */
  lemma {:induction false} NormalizedKeeps(m: int, e: int)
    requires InI128(m) && MIN_EXP <= e <= MAX_EXP
    ensures var (m', e') := Normalized(m, e);
      && InI128(m') && e <= e' <= MAX_EXP && IsNormal(m', e')
      && Scaled(m', e') == Scaled(m, e) && (m' == 0 <==> m == 0)
    decreases MAX_EXP - e
  {
    if m != 0 && TruncMod(m, 10) == 0 && e < MAX_EXP {
      DropZero(m, e);
      NormalizedKeeps(TruncDiv(m, 10), e + 1);
    }
  }

  lemma {:induction false} TrailingZero(m: int, k: nat)
    requires k > 0
    ensures TruncMod(m * Pow10(k), 10) == 0
  {
    assert m * Pow10(k) == (m * Pow10(k - 1)) * 10;
    DivideMultiple(m * Pow10(k - 1), 10);
  }

  lemma {:induction false} LowerExponent(m1: int, e1: int, m2: int, e2: int)
    requires MIN_EXP <= e1 <= e2 && Scaled(m1, e1) == Scaled(m2, e2)
    ensures m1 == m2 * Pow10(e2 - e1)
  {
    ScaledShift(m2, e2 - e1, e1);
    MulCancel(m1, m2 * Pow10(e2 - e1), Pow10(e1 + 18));
  }

  /** A non-zero value has exactly one normal form. */
  lemma {:induction false} NormalFormUnique(m1: int, e1: int, m2: int, e2: int)
    requires MIN_EXP <= e1 <= MAX_EXP && MIN_EXP <= e2 <= MAX_EXP
    requires IsNormal(m1, e1) && IsNormal(m2, e2) && m1 != 0 && m2 != 0
    requires Scaled(m1, e1) == Scaled(m2, e2)
    ensures m1 == m2 && e1 == e2
  {
    hide TruncMod, Pow10;
    if e1 <= e2 {
      LowerExponent(m1, e1, m2, e2);
      ZeroExponentUnit(m2, e2 - e1);
    } else {
      LowerExponent(m2, e2, m1, e1);
      ZeroExponentUnit(m1, e1 - e2);
    }
  }

  lemma {:induction false} ZeroExponentUnit(m: int, k: nat)
    ensures if k == 0 then m * Pow10(k) == m else TruncMod(m * Pow10(k), 10) == 0
  {
    if k > 0 {
      TrailingZero(m, k);
    }
  }

  // ----- comparison

  function PadRight(s: string, n: nat): (p: string)
    requires |s| <= n
    ensures |p| == n
  {
    s + Zeros(n - |s|)
  }

  /** Magnitudes compared by the lengths and then the digits of their texts. */
  function CmpMagnitudes(m1: nat, e1: int, m2: nat, e2: int): Ordering {
    if m1 == 0 && m2 == 0 then Equal
    else if m1 == 0 then Less
    else if m2 == 0 then Greater
    else
      var s1, s2 := ToText(m1), ToText(m2);
      var l1, l2 := |s1| + e1, |s2| + e2;
      if l1 != l2 then CompareInts(l1, l2)
      else
        var n := if |s1| >= |s2| then |s1| else |s2|;
        CompareText(PadRight(s1, n), PadRight(s2, n))
  }

  function Neg(a: Decimal): Result<Decimal, ModelError> {
    if a.mant == I128_MIN then Err(ArithmeticPanic) else Ok(Dec(-a.mant, a.exp))
  }

  function CmpValue(a: Decimal, b: Decimal): Result<Ordering, ModelError> {
    if a.mant >= 0 && b.mant < 0 then Ok(Greater)
    else if a.mant < 0 && b.mant >= 0 then Ok(Less)
    else if a.mant == I128_MIN || b.mant == I128_MIN then Err(ArithmeticPanic)
    else
      var ord := CmpMagnitudes(Abs(a.mant), a.exp, Abs(b.mant), b.exp);
      Ok(if a.mant < 0 then ord.Reverse() else ord)
  }

  lemma {:induction false} ShorterIsLess(m1: nat, e1: int, m2: nat, e2: int)
    requires m1 > 0 && m2 > 0 && e1 >= MIN_EXP && e2 >= MIN_EXP
    requires |ToText(m1)| + e1 < |ToText(m2)| + e2
    ensures Scaled(m1, e1) < Scaled(m2, e2)
  {
    var n1, n2 := |ToText(m1)|, |ToText(m2)|;
    TextLength(m1);
    TextLength(m2);
    Pow10Sum(n1, e1 + 18);
    Pow10Sum(n2 - 1, e2 + 18);
    Pow10Monotone(n1 + e1 + 18, n2 - 1 + e2 + 18);
    MulStrict(m1, Pow10(n1), Pow10(e1 + 18));
    MulWeak(Pow10(n2 - 1), m2, Pow10(e2 + 18));
  }

  lemma {:induction false} MulStrict(a: int, b: int, p: int)
    requires p > 0 && a < b
    ensures a * p < b * p
  {}

  lemma {:induction false} MulWeak(a: int, b: int, p: int)
    requires p > 0 && a <= b
    ensures a * p <= b * p
  {}

  lemma {:induction false} PaddedScale(m: nat, e: int, n: nat, k: nat)
    requires m > 0 && |ToText(m)| <= n && e >= MIN_EXP && e + 18 == n - |ToText(m)| + k
    ensures AllDigits(PadRight(ToText(m), n))
    ensures Scaled(m, e) == NumberOf(PadRight(ToText(m), n)) * Pow10(k)
  {
    hide Pow10, ToText, NumberOf;
    var pad := n - |ToText(m)|;
    TrailingZeros(ToText(m), pad);
    ValueOfText(m);
    Pow10Sum(pad, k);
    MulAssoc(m, Pow10(pad), Pow10(k));
  }

  lemma {:induction false} MulAssoc(x: int, p: int, q: int)
    ensures x * (p * q) == (x * p) * q
  {}

  lemma {:induction false} CompareScaled(a: int, b: int, p: int)
    requires p > 0
    ensures CompareInts(a * p, b * p) == CompareInts(a, b)
  {
    if a < b {
      MulStrict(a, b, p);
    } else if b < a {
      MulStrict(b, a, p);
    }
  }

  lemma {:induction false} PositiveScaled(m: nat, e: int)
    requires m > 0 && e >= MIN_EXP
    ensures Scaled(m, e) > 0
  {
    MulStrict(0, m, Pow10(e + 18));
  }

  lemma {:induction false} CmpMagnitudesIsNumeric(m1: nat, e1: int, m2: nat, e2: int)
    requires e1 >= MIN_EXP && e2 >= MIN_EXP
    ensures CmpMagnitudes(m1, e1, m2, e2) == CompareInts(Scaled(m1, e1), Scaled(m2, e2))
  {
    hide Pow10, ToText, NumberOf, CompareText;
    if m1 == 0 || m2 == 0 {
      assert Scaled(0, e1) == 0 && Scaled(0, e2) == 0;
      if m1 > 0 {
        PositiveScaled(m1, e1);
      }
      if m2 > 0 {
        PositiveScaled(m2, e2);
      }
    } else {
      var s1, s2 := ToText(m1), ToText(m2);
      if |s1| + e1 < |s2| + e2 {
        ShorterIsLess(m1, e1, m2, e2);
      } else if |s1| + e1 > |s2| + e2 {
        ShorterIsLess(m2, e2, m1, e1);
      } else {
        var n := if |s1| >= |s2| then |s1| else |s2|;
        var k := e1 + 18 - (n - |s1|);
        PaddedScale(m1, e1, n, k);
        PaddedScale(m2, e2, n, k);
        CompareDigits(PadRight(s1, n), PadRight(s2, n));
        CompareScaled(NumberOf(PadRight(s1, n)), NumberOf(PadRight(s2, n)), Pow10(k));
      }
    }
  }

  lemma {:induction false} ScaledSign(m: int, e: int)
    requires e >= MIN_EXP
    ensures Scaled(-m, e) == -Scaled(m, e)
    ensures m > 0 ==> Scaled(m, e) > 0
    ensures m == 0 ==> Scaled(m, e) == 0
    ensures m < 0 ==> Scaled(m, e) < 0
  {
    if m > 0 {
      PositiveScaled(m, e);
    } else if m < 0 {
      PositiveScaled(-m, e);
    }
    assert -m * Pow10(e + 18) == -(m * Pow10(e + 18));
  }

  /** Of two negative amounts, neither has a mantissa whose absolute value overflows. */
  predicate Comparable(a: Decimal, b: Decimal) {
    !(a.mant < 0 && b.mant < 0 && (a.mant == I128_MIN || b.mant == I128_MIN))
  }

  /** The digit-string comparison is the numeric one, and it never panics unless a mantissa is the least i128. */
  lemma {:induction false} CmpValueIsNumeric(a: Decimal, b: Decimal)
    ensures CmpValue(a, b).Ok? ==> CmpValue(a, b).value == CompareInts(Value(a), Value(b))
    ensures a.mant != I128_MIN && b.mant != I128_MIN ==> CmpValue(a, b).Ok?
    ensures CmpValue(a, b).Ok? <==> Comparable(a, b)
  {
    hide Scaled, CmpMagnitudes;
    ScaledSign(a.mant, a.exp);
    ScaledSign(b.mant, b.exp);
    CmpMagnitudesIsNumeric(Abs(a.mant), a.exp, Abs(b.mant), b.exp);
  }

  /** `Hash` works on the normal form: equal values hash alike, except that zeros of different exponents do not. */
  lemma {:induction false} HashAgreesOffZero(a: Decimal, b: Decimal)
    requires CmpValue(a, b) == Ok(Equal)
    ensures Normalized(a.mant, a.exp) == Normalized(b.mant, b.exp) <==> a.mant != 0 || a.exp == b.exp
  {
    CmpValueIsNumeric(a, b);
    hide Scaled, CmpValue;
    NormalizedKeeps(a.mant, a.exp);
    NormalizedKeeps(b.mant, b.exp);
    ScaledSign(a.mant, a.exp);
    ScaledSign(b.mant, b.exp);
    if a.mant != 0 {
      var (m, e) := Normalized(a.mant, a.exp);
      var (m', e') := Normalized(b.mant, b.exp);
      NormalFormUnique(m, e, m', e');
    }
  }

  /** Zero has several normal forms: these two are equal, and hash apart. */
  lemma {:induction false} ZerosHashApart()
    ensures CmpValue(Dec(0, 0), Dec(0, 1)) == Ok(Equal) && Normalized(0, 0) != Normalized(0, 1)
  {
    var a: Decimal, b: Decimal := Dec(0, 0), Dec(0, 1);
    CmpValueIsNumeric(a, b);
    ScaledSign(0, 0);
    ScaledSign(0, 1);
    HashAgreesOffZero(a, b);
  }

  // ----- arithmetic

  function New(mant: int, exp: int): (r: Result<Decimal, ModelError>)
    requires InI128(mant)
    ensures r.Ok? <==> MIN_EXP <= exp <= MAX_EXP
    ensures r.Err? ==> r.error == ExponentRange
  {
    if MIN_EXP <= exp <= MAX_EXP then
      NormalizedKeeps(mant, exp);
      var (m, e) := Normalized(mant, exp);
      Ok(Dec(m, e))
    else Err(ExponentRange)
  }

  lemma {:induction false} NewKeepsValue(mant: int, exp: int)
    requires InI128(mant) && MIN_EXP <= exp <= MAX_EXP
    ensures Value(New(mant, exp).value) == Scaled(mant, exp)
    ensures IsNormal(New(mant, exp).value.mant, New(mant, exp).value.exp)
  {
    NormalizedKeeps(mant, exp);
  }

  /** `10i128.checked_pow(exp)`. */
  function CheckedPow10(exp: nat): Option<int> {
    if InI128(Pow10(exp)) then Some(Pow10(exp)) else None
  }

  function CheckedMul(a: int, b: int): Option<int> {
    if InI128(a * b) then Some(a * b) else None
  }

  function ScaleTo(m: int, from: int, to: int): (r: Result<int, ModelError>)
    requires to <= from
  {
    if from == to then Ok(m) else
      match CheckedPow10(from - to)
      case None => Err(Overflow)
      case Some(factor) =>
        match CheckedMul(m, factor)
        case None => Err(Overflow)
        case Some(v) => Ok(v)
  }

  function Align(a: Decimal, b: Decimal): Result<(int, int, int), ModelError> {
    var e := if a.exp <= b.exp then a.exp else b.exp;
    var ma :- ScaleTo(a.mant, a.exp, e);
    var mb :- ScaleTo(b.mant, b.exp, e);
    Ok((ma, mb, e))
  }

  function Add(a: Decimal, b: Decimal): Result<Decimal, ModelError> {
    var (ma, mb, e) :- Align(a, b);
    if InI128(ma + mb) then New(ma + mb, e) else Err(Overflow)
  }

  function Sub(a: Decimal, b: Decimal): Result<Decimal, ModelError> {
    var nb :- Neg(b);
    Add(a, nb)
  }

  function Mul(a: Decimal, b: Decimal): Result<Decimal, ModelError> {
    match CheckedMul(a.mant, b.mant)
    case None => Err(Overflow)
    case Some(m) => New(m, a.exp + b.exp)
  }

  lemma {:induction false} ScaleToExact(m: int, from: int, to: int)
    requires MIN_EXP <= to <= from
    ensures ScaleTo(m, from, to).Ok? ==> Scaled(ScaleTo(m, from, to).value, to) == Scaled(m, from)
  {
    ScaledShift(m, from - to, to);
  }

  lemma {:induction false} ScaledSum(x: int, y: int, e: int)
    requires e >= MIN_EXP
    ensures Scaled(x + y, e) == Scaled(x, e) + Scaled(y, e)
  {}

  /** Addition is exact whenever it succeeds. */
  lemma {:induction false} AddExact(a: Decimal, b: Decimal)
    requires Add(a, b).Ok?
    ensures Value(Add(a, b).value) == Value(a) + Value(b)
    ensures IsNormal(Add(a, b).value.mant, Add(a, b).value.exp)
  {
    hide Scaled;
    var e := if a.exp <= b.exp then a.exp else b.exp;
    ScaleToExact(a.mant, a.exp, e);
    ScaleToExact(b.mant, b.exp, e);
    var (ma, mb, e') := Align(a, b).value;
    ScaledSum(ma, mb, e);
    NewKeepsValue(ma + mb, e);
  }

  /** Brought to the smaller exponent, both mantissas and their sum fit 128 bits. */
  predicate Addable(a: Decimal, b: Decimal) {
    var e := if a.exp <= b.exp then a.exp else b.exp;
    var ma, mb := a.mant * Pow10(a.exp - e), b.mant * Pow10(b.exp - e);
    InI128(ma) && InI128(mb) && InI128(ma + mb)
  }

  lemma {:induction false} ScalePowersFit(k: nat)
    requires k <= 36
    ensures InI128(Pow10(k))
  {
    hide Pow10;
    SmallPowers();
    Pow10Sum(12, 12);
    Pow10Sum(24, 12);
    Pow10Monotone(k, 36);
  }

  lemma {:induction false} ScaleToSucceeds(m: int, from: int, to: int)
    requires MIN_EXP <= to <= from <= MAX_EXP && InI128(m)
    ensures ScaleTo(m, from, to) ==
            if InI128(m * Pow10(from - to)) then Ok(m * Pow10(from - to)) else Err(Overflow)
  {
    ScalePowersFit(from - to);
  }

  /** When addition succeeds. */
  lemma {:induction false} AddSucceedsExactly(a: Decimal, b: Decimal)
    ensures Add(a, b).Ok? <==> Addable(a, b)
    ensures Add(a, b).Err? ==> Add(a, b) == Err(Overflow)
  {
    hide Pow10, ScaleTo;
    var e := if a.exp <= b.exp then a.exp else b.exp;
    ScaleToSucceeds(a.mant, a.exp, e);
    ScaleToSucceeds(b.mant, b.exp, e);
  }

  /** The mantissa to subtract can be negated, and the rest added. */
  predicate Subtractable(a: Decimal, b: Decimal) {
    b.mant != I128_MIN && Addable(a, Dec(-b.mant, b.exp))
  }

  lemma {:induction false} SubSucceedsExactly(a: Decimal, b: Decimal)
    ensures Sub(a, b).Ok? <==> Subtractable(a, b)
  {
    hide Addable, Add;
    if b.mant != I128_MIN {
      AddSucceedsExactly(a, Dec(-b.mant, b.exp));
    }
  }

  lemma {:induction false} SubExact(a: Decimal, b: Decimal)
    requires Sub(a, b).Ok?
    ensures Value(Sub(a, b).value) == Value(a) - Value(b)
    ensures IsNormal(Sub(a, b).value.mant, Sub(a, b).value.exp)
  {
    hide Scaled, Add;
    ScaledSign(b.mant, b.exp);
    AddExact(a, Neg(b).value);
  }

  /** Multiplication is exact whenever it succeeds. */
  lemma {:induction false} MulExact(a: Decimal, b: Decimal)
    requires Mul(a, b).Ok?
    ensures Value(Mul(a, b).value) * Pow10(18) == Value(a) * Value(b)
    ensures IsNormal(Mul(a, b).value.mant, Mul(a, b).value.exp)
  {
    hide Pow10, New;
    NewKeepsValue(a.mant * b.mant, a.exp + b.exp);
    var p, q := Pow10(a.exp + 18), Pow10(b.exp + 18);
    Pow10Sum(a.exp + b.exp + 18, 18);
    Pow10Sum(a.exp + 18, b.exp + 18);
    FourFactors(a.mant, b.mant, p, q);
    FourFactors(a.mant, b.mant, Pow10(a.exp + b.exp + 18), Pow10(18));
  }

  /** When multiplication succeeds. */
  lemma {:induction false} MulSucceedsExactly(a: Decimal, b: Decimal)
    ensures Mul(a, b).Ok? <==> InI128(a.mant * b.mant) && MIN_EXP <= a.exp + b.exp <= MAX_EXP
    ensures Mul(a, b).Err? ==> Mul(a, b) == Err(if InI128(a.mant * b.mant) then ExponentRange else Overflow)
  {
    hide New;
  }

  lemma {:induction false} FourFactors(x: int, y: int, p: int, q: int)
    ensures x * p * (y * q) == x * y * (p * q)
    ensures x * y * p * q == x * y * (p * q)
  {}

  // ----- exact ratios

  /** The search of `mul_ratio_exact` from exponent shift k on; den is positive. */
  function RatioSearch(mant: int, exp: int, num: int, den: int, k: nat): Result<Decimal, ModelError>
    requires den > 0
    decreases 10 - k
  {
    if k > 9 then Err(InexactRatio) else
      match CheckedMul(mant, Pow10(k))
      case None => Err(InexactRatio)
      case Some(scaled) =>
        match CheckedMul(scaled, num)
        case None => Err(InexactRatio)
        case Some(v) =>
          if TruncMod(v, den) == 0 then
            QuotientInRange(v, den);
            New(TruncDiv(v, den), exp - k)
          else RatioSearch(mant, exp, num, den, k + 1)
  }

  lemma {:induction false} QuotientInRange(v: int, den: int)
    requires InI128(v) && den > 0
    ensures InI128(TruncDiv(v, den))
  {
    QuotientSmaller(Abs(v), den);
  }

  lemma {:induction false} QuotientSmaller(n: nat, den: int)
    requires den > 0
    ensures 0 <= n / den <= n
  {
    var q, r := n / den, n % den;
    assert n == q * den + r;
    if q > 0 {
      MulAtLeast(den, q);
    } else if q < 0 {
      MulAtLeast(q, den);
    }
  }

  function MulRatioExact(a: Decimal, num: int, den: int): Result<Decimal, ModelError> {
    if den == 0 then Err(DivideByZero)
    else if den < 0 then
      if num == I128_MIN || den == I128_MIN then Err(ArithmeticPanic)
      else Reported(a, RatioSearch(a.mant, a.exp, -num, -den, 0))
    else Reported(a, RatioSearch(a.mant, a.exp, num, den, 0))
  }

  /** The report of an inexact ratio prints the amount, which overflows for the least i128. */
  function Reported(a: Decimal, r: Result<Decimal, ModelError>): Result<Decimal, ModelError> {
    if r == Err(InexactRatio) && a.mant == I128_MIN then Err(ArithmeticPanic) else r
  }

  method MulRatio(a: Decimal, num: int, den: int) returns (r: Result<Decimal, ModelError>)
    ensures r == MulRatioExact(a, num, den)
  {
    if den == 0 {
      return Err(DivideByZero);
    }
    if den < 0 && (num == I128_MIN || den == I128_MIN) {
      return Err(ArithmeticPanic);
    }
    var num', den' := if den < 0 then -num else num, if den < 0 then -den else den;
    var k := 0;
    while k <= 9
      invariant 0 <= k <= 10
      invariant RatioSearch(a.mant, a.exp, num', den', k) == RatioSearch(a.mant, a.exp, num', den', 0)
    {
      var scaled := CheckedMul(a.mant, Pow10(k));
      if scaled.None? {
        break;
      }
      var v := CheckedMul(scaled.value, num');
      if v.None? {
        break;
      }
      if TruncMod(v.value, den') == 0 {
        QuotientInRange(v.value, den');
        return New(TruncDiv(v.value, den'), a.exp - k);
      }
      k := k + 1;
    }
    if a.mant == I128_MIN {
      return Err(ArithmeticPanic);
    }
    return Err(InexactRatio);
  }

  /** Both products of shift k stay within 128 bits. */
  predicate RatioInRange(mant: int, num: int, k: nat) {
    InI128(mant * Pow10(k)) && InI128(mant * Pow10(k) * num)
  }

  /** Shift k clears the denominator. */
  predicate Clears(mant: int, num: int, den: int, k: nat)
    requires den > 0
  {
    TruncMod(mant * Pow10(k) * num, den) == 0
  }

  lemma {:induction false} RatioSearchExact(mant: int, exp: int, num: int, den: int, k: nat)
    requires den > 0 && InI128(mant) && MIN_EXP <= exp <= MAX_EXP
    requires RatioSearch(mant, exp, num, den, k).Ok?
    ensures var r := RatioSearch(mant, exp, num, den, k).value;
      Value(r) * den == Scaled(mant, exp) * num && IsNormal(r.mant, r.exp)
    decreases 10 - k
  {
    var v := mant * Pow10(k) * num;
    if TruncMod(v, den) == 0 {
      ExactDivision(v, den);
      QuotientInRange(v, den);
      NewKeepsValue(TruncDiv(v, den), exp - k);
      RatioOfScaled(mant, exp, num, den, k, TruncDiv(v, den));
    } else {
      RatioSearchExact(mant, exp, num, den, k + 1);
    }
  }

  lemma {:induction false} RatioOfScaled(mant: int, exp: int, num: int, den: int, k: nat, q: int)
    requires exp - k >= MIN_EXP && q * den == mant * Pow10(k) * num
    ensures Scaled(q, exp - k) * den == Scaled(mant, exp) * num
  {
    ScaledShift(mant, k, exp - k);
    var p := Pow10(exp - k + 18);
    Rotate(q, p, den);
    Rotate(mant * Pow10(k), p, num);
  }

  lemma {:induction false} Rotate(x: int, p: int, y: int)
    ensures x * p * y == x * y * p
  {}

  /** A ratio is applied exactly whenever it succeeds: the result times den is the amount times num. */
  lemma {:induction false} MulRatioIsExact(a: Decimal, num: int, den: int)
    requires MulRatioExact(a, num, den).Ok?
    ensures den != 0 && Value(MulRatioExact(a, num, den).value) * den == Value(a) * num
    ensures IsNormal(MulRatioExact(a, num, den).value.mant, MulRatioExact(a, num, den).value.exp)
  {
    hide Scaled, RatioSearch;
    if den > 0 {
      RatioSearchExact(a.mant, a.exp, num, den, 0);
    } else {
      RatioSearchExact(a.mant, a.exp, -num, -den, 0);
      var v := Value(MulRatioExact(a, num, den).value);
      assert v * -den == -(v * den) && Value(a) * -num == -(Value(a) * num);
    }
  }

  /** The bounds are monotone: once a product has left the range, it stays out. */
  lemma {:induction false} RangeShrinks(mant: int, num: int, k: nat)
    requires RatioInRange(mant, num, k + 1)
    ensures RatioInRange(mant, num, k)
  {
    var x := mant * Pow10(k);
    assert mant * Pow10(k + 1) == 10 * x;
    assert 10 * x * num == 10 * (x * num);
  }

  lemma {:induction false} RangeDownwards(mant: int, num: int, j: nat, k: nat)
    requires j <= k && RatioInRange(mant, num, k)
    ensures RatioInRange(mant, num, j)
  {
    hide Pow10, RatioInRange;
    if j < k {
      RangeShrinks(mant, num, k - 1);
      RangeDownwards(mant, num, j, k - 1);
    }
  }

  /**
   The search reports an inexact ratio exactly when no shift from k to 9 that stays in range clears the
   denominator; otherwise it takes the least such shift.
   */
  lemma {:induction false} RatioSearchComplete(mant: int, exp: int, num: int, den: int, k: nat)
    requires den > 0 && k <= 10
    ensures RatioSearch(mant, exp, num, den, k) == Err(InexactRatio) <==>
            forall j :: k <= j <= 9 && RatioInRange(mant, num, j) ==> !Clears(mant, num, den, j)
    decreases 10 - k
  {
    if k <= 9 && RatioInRange(mant, num, k) && !Clears(mant, num, den, k) {
      RatioSearchComplete(mant, exp, num, den, k + 1);
    } else if k <= 9 && !RatioInRange(mant, num, k) {
      forall j | k <= j <= 9 ensures !RatioInRange(mant, num, j) {
        if RatioInRange(mant, num, j) {
          RangeDownwards(mant, num, k, j);
        }
      }
    }
  }

  /** The ratio with a positive denominator. */
  function PositiveRatio(num: int, den: int): (ratio: (int, int))
    requires den != 0
    ensures ratio.1 > 0 && ratio.0 * den == num * ratio.1
  {
    if den < 0 then (-num, -den) else (num, den)
  }

  /** The denominator is not zero, and turning the signs does not overflow. */
  predicate Invertible(num: int, den: int) {
    den != 0 && (den < 0 ==> num != I128_MIN && den != I128_MIN)
  }

  /** `mul_ratio_exact` reports inexact only if no shift of at most nine places clears the denominator within 128 bits. */
  lemma {:induction false} InexactOnlyIfNothingClears(a: Decimal, num: int, den: int)
    ensures MulRatioExact(a, num, den) == Err(InexactRatio) <==>
            && Invertible(num, den) && a.mant != I128_MIN
            && var (n, d) := PositiveRatio(num, den);
              forall j :: 0 <= j <= 9 && RatioInRange(a.mant, n, j) ==> !Clears(a.mant, n, d, j)
  {
    hide RatioSearch, RatioInRange, Clears;
    if Invertible(num, den) {
      var (n, d) := PositiveRatio(num, den);
      RatioSearchComplete(a.mant, a.exp, n, d, 0);
    }
  }

  /** Shift j is the first from k on that clears the denominator. */
  predicate FirstToClear(mant: int, num: int, den: int, k: nat, j: nat)
    requires den > 0
  {
    k <= j && Clears(mant, num, den, j) && forall i :: k <= i < j ==> !Clears(mant, num, den, i)
  }

  lemma {:induction false} RatioSearchSucceeds(mant: int, exp: int, num: int, den: int, k: nat)
    requires den > 0 && k <= 10
    ensures RatioSearch(mant, exp, num, den, k).Ok? <==>
            exists j :: 0 <= j <= 9 && FirstToClear(mant, num, den, k, j) && RatioInRange(mant, num, j)
                        && MIN_EXP <= exp - j <= MAX_EXP
    decreases 10 - k
  {
    hide Pow10;
    if k <= 9 && RatioInRange(mant, num, k) {
      if Clears(mant, num, den, k) {
        assert FirstToClear(mant, num, den, k, k);
        assert forall j :: FirstToClear(mant, num, den, k, j) ==> j == k;
      } else {
        RatioSearchSucceeds(mant, exp, num, den, k + 1);
        assert forall j :: 0 <= j <= 9 ==>
            (FirstToClear(mant, num, den, k, j) <==> FirstToClear(mant, num, den, k + 1, j));
      }
    } else if k <= 9 {
      forall j | k <= j <= 9 ensures !RatioInRange(mant, num, j) {
        if RatioInRange(mant, num, j) {
          RangeDownwards(mant, num, k, j);
        }
      }
    }
  }

  /** The first shift that clears the denominator is at most nine, stays within 128 bits, and leaves an exponent in range. */
  ghost predicate RatioApplies(a: Decimal, num: int, den: int) {
    && Invertible(num, den)
    && var (n, d) := PositiveRatio(num, den);
      exists j :: 0 <= j <= 9 && FirstToClear(a.mant, n, d, 0, j) && RatioInRange(a.mant, n, j) && a.exp - j >= MIN_EXP
  }

  /** Success, in full. */
  lemma {:induction false} MulRatioSucceedsExactly(a: Decimal, num: int, den: int)
    ensures MulRatioExact(a, num, den).Ok? <==> RatioApplies(a, num, den)
  {
    hide RatioSearch, RatioInRange, Clears, FirstToClear;
    if Invertible(num, den) {
      var (n, d) := PositiveRatio(num, den);
      RatioSearchSucceeds(a.mant, a.exp, n, d, 0);
    }
  }

  lemma {:induction false} CancelScale(x: int, y: int, p: int)
    requires p > 0 && x * p == y * p
    ensures x == y
  {}

  lemma {:induction false} MultipleClears(q: int, mant: int, num: int, den: int, k: nat)
    requires den > 0 && q * den == mant * Pow10(k) * num
    ensures Clears(mant, num, den, k)
  {
    DivideMultiple(q, den);
  }

  /** If the exact result is a decimal, some shift clears the denominator and leaves an exponent in range. */
  lemma {:induction false} RepresentableClears(a: Decimal, n: int, d: int, r: Decimal) returns (k: nat)
    requires d > 0 && Value(r) * d == Value(a) * n
    ensures Clears(a.mant, n, d, k) && a.exp - k >= MIN_EXP
  {
    hide Clears, Pow10;
    if a.exp > r.exp {
      k := a.exp - r.exp;
      ScaledShift(a.mant, k, r.exp);
      var p, m := Pow10(r.exp + 18), a.mant * Pow10(k);
      Rotate(r.mant, p, d);
      Rotate(m, p, n);
      CancelScale(r.mant * d, m * n, p);
      MultipleClears(r.mant, a.mant, n, d, k);
    } else {
      k := 0;
      var q := r.mant * Pow10(r.exp - a.exp);
      ScaledShift(r.mant, r.exp - a.exp, a.exp);
      var p := Pow10(a.exp + 18);
      Rotate(q, p, d);
      Rotate(a.mant, p, n);
      CancelScale(q * d, a.mant * n, p);
      assert Pow10(0) == 1 by { PowZero(); }
      MultipleClears(q, a.mant, n, d, 0);
    }
  }

  lemma {:induction false} PowZero()
    ensures Pow10(0) == 1
  {}

  lemma {:induction false} LeastClearing(mant: int, num: int, den: int, k: nat) returns (j: nat)
    requires den > 0 && Clears(mant, num, den, k)
    ensures j <= k && FirstToClear(mant, num, den, 0, j)
  {
    hide Clears;
    j := 0;
    while !Clears(mant, num, den, j)
      invariant j <= k && forall i :: 0 <= i < j ==> !Clears(mant, num, den, i)
      decreases k - j
    {
      j := j + 1;
    }
  }

  /**
   Success against representability: if the exact result is a decimal, there is a first shift that clears the
   denominator, and the ratio is applied if and only if that shift is at most nine and stays within 128 bits.
   */
  lemma {:induction false} RepresentableSucceedsExactly(a: Decimal, num: int, den: int, r: Decimal) returns (j: nat)
    requires Invertible(num, den) && Value(r) * den == Value(a) * num
    ensures var (n, d) := PositiveRatio(num, den);
      && FirstToClear(a.mant, n, d, 0, j)
      && (MulRatioExact(a, num, den).Ok? <==> j <= 9 && RatioInRange(a.mant, n, j))
  {
    var (n, d) := PositiveRatio(num, den);
    hide MulRatioExact, Clears, RatioInRange, Scaled;
    SameRatio(Value(r), Value(a), num, den);
    var k := RepresentableClears(a, n, d, r);
    j := LeastClearing(a.mant, n, d, k);
    MulRatioSucceedsExactly(a, num, den);
    assert forall i :: FirstToClear(a.mant, n, d, 0, i) ==> i == j;
  }

  lemma {:induction false} SameRatio(x: int, y: int, num: int, den: int)
    requires den != 0 && x * den == y * num
    ensures var (n, d) := PositiveRatio(num, den); x * d == y * n
  {
    assert x * -den == -(x * den) && y * -num == -(y * num);
  }

  /** A result that is a decimal can be refused: a twelfth power of ten in the denominator needs twelve places. */
  lemma {:induction false} RepresentableButRefused()
    ensures var a, r := Dec(1, 0), Dec(1, -12);
      Value(r) * 1_000_000_000_000 == Value(a) * 1 && MulRatioExact(a, 1, 1_000_000_000_000) == Err(InexactRatio)
  {
    var a, den := Dec(1, 0), 1_000_000_000_000;
    assert Value(Dec(1, -12)) * den == Value(a) by {
      hide Pow10;
      SmallPowers();
      Pow10Sum(6, 12);
    }
    forall j | 0 <= j <= 9 ensures !Clears(1, 1, den, j) {
      hide *;
      SmallPowers();
      Pow10Monotone(j, 9);
      NotAMultiple(Pow10(j), den);
    }
    InexactOnlyIfNothingClears(a, 1, den);
  }

  lemma {:induction false} NotAMultiple(p: int, den: int)
    requires 0 < p < den
    ensures TruncMod(p, den) != 0
  {}

  lemma {:induction false} SmallPowers()
    ensures Pow10(6) == 1_000_000 && Pow10(9) == 1_000_000_000 && Pow10(12) == 1_000_000_000_000
  {
    assert Pow10(3) == 1_000 by {
      assert Pow10(1) == 10 * Pow10(0) && Pow10(2) == 10 * Pow10(1) && Pow10(3) == 10 * Pow10(2);
    }
    Pow10Sum(3, 3);
    Pow10Sum(6, 3);
    Pow10Sum(6, 6);
  }

  /** There and back again: the ratio and its inverse restore the amount. */
  lemma {:induction false} RatioThereAndBack(a: Decimal, num: int, den: int)
    requires MulRatioExact(a, num, den).Ok?
    requires MulRatioExact(MulRatioExact(a, num, den).value, den, num).Ok?
    ensures var c := MulRatioExact(MulRatioExact(a, num, den).value, den, num).value;
      Value(c) == Value(a) && (a.mant != 0 && IsNormal(a.mant, a.exp) ==> c == a)
  {
    var b := MulRatioExact(a, num, den).value;
    var c := MulRatioExact(b, den, num).value;
    MulRatioIsExact(a, num, den);
    MulRatioIsExact(b, den, num);
    hide MulRatioExact, Scaled;
    MulCancel(Value(c), Value(a), num);
    ScaledSign(a.mant, a.exp);
    ScaledSign(c.mant, c.exp);
    if a.mant != 0 && IsNormal(a.mant, a.exp) {
      NormalFormUnique(a.mant, a.exp, c.mant, c.exp);
    }
  }

  // ----- sums

  function SumFrom(acc: Decimal, items: seq<Decimal>): Result<Decimal, ModelError>
    decreases |items|
  {
    if items == [] then Ok(acc) else
      var next :- Add(acc, items[0]);
      SumFrom(next, items[1..])
  }

  method Sum(items: seq<Decimal>) returns (r: Result<Decimal, ModelError>)
    ensures r == SumFrom(ZERO, items)
  {
    var acc: Decimal := ZERO;
    for i := 0 to |items|
      invariant SumFrom(acc, items[i..]) == SumFrom(ZERO, items)
    {
      assert items[i..][1..] == items[i + 1..];
      var next := Add(acc, items[i]);
      if next.Err? {
        return Err(next.error);
      }
      acc := next.value;
    }
    return Ok(acc);
  }

  function TotalValue(items: seq<Decimal>): int {
    if items == [] then 0 else Value(items[0]) + TotalValue(items[1..])
  }

  lemma {:induction false} SumExact(acc: Decimal, items: seq<Decimal>)
    requires SumFrom(acc, items).Ok?
    ensures Value(SumFrom(acc, items).value) == Value(acc) + TotalValue(items)
    decreases |items|
  {
    hide Scaled, Add;
    if items != [] {
      AddExact(acc, items[0]);
      SumExact(Add(acc, items[0]).value, items[1..]);
    }
  }

  // ----- when sums succeed

  /** The sum of `acc` and the first k items; `acc` alone if there is none. */
  function PartialTotal(acc: Decimal, items: seq<Decimal>, k: nat): Decimal
    requires k <= |items|
  {
    var r := SumFrom(acc, items[..k]);
    if r.Ok? then r.value else acc
  }

  /** Every item can be added to the sum of those before it. */
  ghost predicate CanTotal(acc: Decimal, items: seq<Decimal>) {
    forall k :: 0 <= k < |items| ==> Addable(PartialTotal(acc, items, k), items[k])
  }

  lemma {:induction false} SumFromLast(acc: Decimal, items: seq<Decimal>)
    requires items != []
    ensures var n := |items| - 1;
      var before := SumFrom(acc, items[..n]);
      SumFrom(acc, items) == if before.Err? then before else Add(before.value, items[n])
    decreases |items|
  {
    hide Add;
    var n := |items| - 1;
    if n == 0 {
      assert items[..n] == [] && items[1..] == [];
      SumOfNothing(acc);
    } else {
      assert items[..n][0] == items[0] && items[..n][1..] == items[1..][..n - 1];
      var next := Add(acc, items[0]);
      if next.Ok? {
        SumFromLast(next.value, items[1..]);
      }
    }
  }

  lemma {:induction false} SumOfNothing(acc: Decimal)
    ensures SumFrom(acc, []) == Ok(acc)
    ensures forall d: Decimal :: Add(acc, d).Ok? ==> SumFrom(Add(acc, d).value, []) == Add(acc, d)
  {
    hide Add;
  }

  lemma {:induction false} CanTotalButLast(acc: Decimal, items: seq<Decimal>)
    requires items != []
    ensures var n := |items| - 1;
      CanTotal(acc, items) <==> CanTotal(acc, items[..n]) && Addable(PartialTotal(acc, items, n), items[n])
  {
    hide Addable, SumFrom;
    var n := |items| - 1;
    assert forall k :: 0 <= k < n ==> items[..n][..k] == items[..k] && items[..n][k] == items[k];
    assert forall k :: 0 <= k < n ==> PartialTotal(acc, items[..n], k) == PartialTotal(acc, items, k);
  }

  /** When a sum succeeds. */
  lemma {:induction false} TotalSucceedsExactly(acc: Decimal, items: seq<Decimal>)
    ensures SumFrom(acc, items).Ok? <==> CanTotal(acc, items)
    decreases |items|
  {
    hide Addable, Add;
    if items == [] {
      SumOfNothing(acc);
    } else {
      var n := |items| - 1;
      TotalSucceedsExactly(acc, items[..n]);
      SumFromLast(acc, items);
      CanTotalButLast(acc, items);
      AddSucceedsExactly(PartialTotal(acc, items, n), items[n]);
    }
  }
}
