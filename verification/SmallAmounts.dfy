/** Amounts of one digit in a canonical unit, for which every operation succeeds: the material of examples. */
module SmallAmounts {
  import opened Wrappers
  import opened RustInt
  import opened Digits
  import opened Decimals
  import opened Normalization
  import opened Quantities

  const UNITSML := "https://unitsml.org/units"
  const KILOGRAM := Unit("kg", UNITSML)

  /** The registered unit has factor one, as the canonical unit of every dimension has. */
  predicate IsCanonicalUnit(unit: Unit, reg: Registry) {
    var key := NormalizeToken(unit.uom);
    key in reg && reg[key].factorNum == 1 && reg[key].factorDen == 1
  }

  function Amount(m: int, unit: Unit): Quantity
    requires -9 <= m <= 9
  {
    Quantity(Dec(m, 0), unit)
  }

  lemma {:induction false} NoTrailingZero(m: int)
    requires -9 <= m <= 9 && m != 0
    ensures TruncMod(m, 10) != 0
  {}

  lemma {:induction false} SmallIsNormal(m: int)
    requires -9 <= m <= 9
    ensures New(m, 0) == Ok(Dec(m, 0))
  {
    hide TruncMod, TruncDiv;
    if m != 0 {
      NoTrailingZero(m);
    }
  }

  lemma {:induction false} ByOne(x: int)
    ensures x * 1 == x && TruncMod(x, 1) == 0 && TruncDiv(x, 1) == x
  {}

  /** With factor one, the first shift clears, and the amount is brought to its normal form. */
  lemma {:induction false} TimesOne(d: Decimal)
    ensures MulRatioExact(d, 1, 1) == New(d.mant, d.exp)
  {
    hide TruncMod, TruncDiv, New;
    PowZero();
    ByOne(d.mant);
  }

  lemma {:induction false} SmallTimesOne(m: int)
    requires -9 <= m <= 9
    ensures MulRatioExact(Dec(m, 0), 1, 1) == Ok(Dec(m, 0))
  {
    hide MulRatioExact, New;
    SmallIsNormal(m);
    TimesOne(Dec(m, 0));
  }

  lemma {:induction false} SmallConverts(m: int, unit: Unit, reg: Registry)
    requires -9 <= m <= 9 && IsCanonicalUnit(unit, reg)
    ensures CanonicalAmount(Amount(m, unit), reg) == Ok(Dec(m, 0))
    ensures FromCanonical(Dec(m, 0), unit, reg) == Ok(Amount(m, unit))
    ensures Canon(Amount(m, unit), reg) == Scaled(m, 0) as real
  {
    hide MulRatioExact, NormalizeToken, Scaled;
    SmallTimesOne(m);
  }

  lemma {:induction false} SmallOrder(a: int, b: int)
    requires -9 <= a <= 9 && -9 <= b <= 9
    ensures CmpValue(Dec(a, 0), Dec(b, 0)) == Ok(CompareInts(a, b))
    ensures a < b <==> Scaled(a, 0) < Scaled(b, 0)
  {
    var x: Decimal, y: Decimal := Dec(a, 0), Dec(b, 0);
    hide Pow10, CmpValue;
    CmpValueIsNumeric(x, y);
    CompareScaled(a, b, Pow10(18));
  }

  lemma {:induction false} SmallSums(a: int, b: int)
    requires -9 <= a <= 9 && -9 <= b <= 9 && -9 <= a + b <= 9
    ensures Add(Dec(a, 0), Dec(b, 0)) == Ok(Dec(a + b, 0))
    ensures Sub(Dec(a + b, 0), Dec(b, 0)) == Ok(Dec(a, 0))
  {
    hide Scaled, New;
    SmallIsNormal(a + b);
    SmallIsNormal(a);
  }

  lemma {:induction false} SmallQuantitiesAdd(a: int, b: int, unit: Unit, reg: Registry)
    requires -9 <= a <= 9 && -9 <= b <= 9 && -9 <= a + b <= 9 && IsCanonicalUnit(unit, reg)
    ensures AddQuantities(Amount(a, unit), Amount(b, unit), reg) == Ok(Amount(a + b, unit))
  {
    hide CanonicalAmount, FromCanonical, Add, NormalizeToken, Scaled;
    SmallConverts(a, unit, reg);
    SmallConverts(b, unit, reg);
    SmallConverts(a + b, unit, reg);
    SmallSums(a, b);
  }
}
