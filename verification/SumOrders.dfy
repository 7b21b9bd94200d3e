/**
 What it means that a sum is kept in its first unit (crates/transform/src/quantity.rs, rollup.rs, combine.rs): behind an
 amount in the canonical unit it is a sum of canonical amounts; behind another it may be refused, where the same
 quantities in another order are added up.
 */
module SumOrders {
  import opened Wrappers
  import opened RustInt
  import opened Digits
  import opened Decimals
  import opened Identifiers
  import opened OrderedMap
  import opened Normalization
  import opened Quantities
  import opened Rollups
  import opened Attestations
  import opened Combines
  import opened SmallAmounts
  import Hashing
  import Splits

  // ----- behind an amount in the canonical unit

  lemma {:induction false} CanonicalIsNormal(q: Quantity, reg: Registry)
    requires IsCanonicalUnit(q.unit, reg)
    ensures CanonicalAmount(q, reg).Ok?
    ensures IsNormal(q.amount.mant, q.amount.exp) ==> CanonicalAmount(q, reg) == Ok(q.amount)
  {
    hide MulRatioExact, NormalizeToken, TruncMod, TruncDiv;
    TimesOne(q.amount);
  }

  /** One step adds canonical amounts. */
  lemma {:induction false} AddInCanonicalUnit(acc: Quantity, q: Quantity, reg: Registry)
    requires IsCanonicalUnit(acc.unit, reg)
    ensures var r := AddQuantities(acc, q, reg);
      var s := Add(CanonicalOr(acc, reg, Decimals.ZERO), CanonicalOr(q, reg, Decimals.ZERO));
      && (r.Ok? <==> Commensurable(q, acc, reg) && Canonicalizes(q, reg) && s.Ok?)
      && (r.Ok? ==> r.value == Quantity(s.value, acc.unit) && CanonicalOr(r.value, reg, Decimals.ZERO) == s.value)
  {
    hide MulRatioExact, CanonicalAmount, Canonicalizes, Add, NormalizeToken, IsNormal;
    CanonicalIsNormal(acc, reg);
    CanonicalizesExactly(q, reg);
    if CanonicalAmount(q, reg).Ok? {
      var ca, cq := CanonicalAmount(acc, reg).value, CanonicalAmount(q, reg).value;
      if Add(ca, cq).Ok? {
        AddExact(ca, cq);
        InCanonicalUnit(Add(ca, cq).value, acc.unit, reg);
      }
    }
  }

  lemma {:induction false} InCanonicalUnit(c: Decimal, unit: Unit, reg: Registry)
    requires IsCanonicalUnit(unit, reg) && IsNormal(c.mant, c.exp)
    ensures FromCanonical(c, unit, reg) == Ok(Quantity(c, unit))
    ensures CanonicalAmount(Quantity(c, unit), reg) == Ok(c)
  {
    hide MulRatioExact, NormalizeToken, TruncMod, TruncDiv;
    TimesOne(c);
  }

  lemma {:induction false} SumFromInCanonicalUnit(acc: Quantity, items: seq<Quantity>, reg: Registry)
    requires IsCanonicalUnit(acc.unit, reg) && (items != [] || CanonicalAmount(acc, reg) == Ok(acc.amount))
    ensures var r := SumQuantitiesFrom(acc, items, reg);
      var s := SumFrom(CanonicalOr(acc, reg, Decimals.ZERO), CanonicalAmounts(items, reg));
      && (r.Ok? <==>
            && (forall i :: 0 <= i < |items| ==> Commensurable(items[i], acc, reg) && Canonicalizes(items[i], reg))
            && s.Ok?)
      && (r.Ok? ==> r.value == Quantity(s.value, acc.unit))
    decreases |items|
  {
    hide AddQuantities, CanonicalAmount, Canonicalizes, Add, NormalizeToken, IsCanonicalUnit;
    if items != [] {
      AddInCanonicalUnit(acc, items[0], reg);
      var next := AddQuantities(acc, items[0], reg);
      assert forall i :: 1 <= i < |items| ==> items[i] == items[1..][i - 1];
      if next.Ok? {
        CanonicalIsNormal(next.value, reg);
        SumFromInCanonicalUnit(next.value, items[1..], reg);
      }
    }
  }

  /**
   Two or more quantities of which the first is in a canonical unit: their sum is, as documented, the sum of their
   canonical amounts, and succeeds exactly if all are of one dimension and canonicalize, and that sum succeeds.
   */
  lemma {:induction false} SumInCanonicalUnitExactly(items: seq<Quantity>, reg: Registry)
    requires |items| >= 2 && IsCanonicalUnit(items[0].unit, reg)
    ensures var r := SumQuantities(items, reg);
      var s := SumFrom(CanonicalOr(items[0], reg, Decimals.ZERO), CanonicalAmounts(items[1..], reg));
      && (r.Ok? <==>
            && (forall i :: 0 <= i < |items| ==> Commensurable(items[i], items[0], reg) && Canonicalizes(items[i], reg))
            && s.Ok?)
      && (r.Ok? ==> r.value == Quantity(s.value, items[0].unit))
  {
    hide CanonicalAmount, Canonicalizes, NormalizeToken, SumQuantitiesFrom, SumFrom, CanonicalAmounts;
    SumFromInCanonicalUnit(items[0], items[1..], reg);
    CanonicalIsNormal(items[0], reg);
    CanonicalizesExactly(items[0], reg);
    assert forall i :: 1 <= i < |items| ==> items[i] == items[1..][i - 1];
    hide IsCanonicalUnit;
    assert Commensurable(items[0], items[0], reg) by { KnownIfCanonical(items[0], reg); }
  }

  lemma {:induction false} KnownIfCanonical(q: Quantity, reg: Registry)
    requires IsCanonicalUnit(q.unit, reg)
    ensures Known(q, reg)
  {}

  // ----- behind an amount in pounds

  const POUND_NUM := 45_359_237
  const POUND_DEN := 100_000_000

  /** Two registered units of one dimension: one with the factor of the pound, one canonical, as the kilogram is. */
  ghost predicate PoundsAndKilograms(lb: Unit, kg: Unit, reg: Registry) {
    && IsCanonicalUnit(kg, reg) && Commensurable(Amount(1, kg), Amount(1, lb), reg)
    && DefOf(Amount(1, lb), reg).factorNum == POUND_NUM && DefOf(Amount(1, lb), reg).factorDen == POUND_DEN
  }

  lemma {:induction false} PowersUsed()
    ensures Pow10(8) == 100_000_000 && Pow10(9) == 1_000_000_000
    ensures Pow10(10) == 10_000_000_000 && Pow10(18) == 1_000_000_000_000_000_000
  {
    SmallPowers();
    Pow10Sum(9, 9);
  }

  /** A decimal with the value of a normal one is that one. */
  lemma {:induction false} SameAs(d: Decimal, m: int, e: int)
    requires InI128(m) && MIN_EXP <= e <= MAX_EXP && m != 0 && IsNormal(m, e) && IsNormal(d.mant, d.exp)
    requires Value(d) == Scaled(m, e)
    ensures d == Dec(m, e)
  {
    hide Scaled, IsNormal;
    ScaledSign(m, e);
    ScaledSign(d.mant, d.exp);
    NormalFormUnique(d.mant, d.exp, m, e);
  }

  lemma {:induction false} PoundInKilograms()
    ensures MulRatioExact(Dec(1, 0), POUND_NUM, POUND_DEN) == Ok(Dec(POUND_NUM, -8))
  {
    hide Pow10, MulRatioExact, IsNormal;
    PowersUsed();
    var one: Decimal, pound: Decimal := Dec(1, 0), Dec(POUND_NUM, -8);
    assert Value(pound) * POUND_DEN == Value(one) * POUND_NUM;
    var j := RepresentableSucceedsExactly(one, POUND_NUM, POUND_DEN, pound);
    assert Clears(1, POUND_NUM, POUND_DEN, 8);
    assert j <= 8;
    assert RatioInRange(1, POUND_NUM, 9);
    RangeDownwards(1, POUND_NUM, j, 9);
    MulRatioIsExact(one, POUND_NUM, POUND_DEN);
    assert IsNormal(POUND_NUM, -8) by { PoundIsNormal(); }
    SameAs(MulRatioExact(one, POUND_NUM, POUND_DEN).value, POUND_NUM, -8);
  }

  lemma {:induction false} PoundIsNormal()
    ensures IsNormal(POUND_NUM, -8) && IsNormal(POUND_NUM + POUND_DEN, -8)
  {}

  lemma {:induction false} PoundAndKilogramAdd()
    ensures Add(Dec(POUND_NUM, -8), Dec(1, 0)) == Ok(Dec(POUND_NUM + POUND_DEN, -8))
    ensures Add(Dec(1, 0), Dec(POUND_NUM, -8)) == Ok(Dec(POUND_NUM + POUND_DEN, -8))
  {
    hide Pow10, Add, IsNormal;
    PowersUsed();
    PowZero();
    PoundIsNormal();
    var one: Decimal, pound: Decimal := Dec(1, 0), Dec(POUND_NUM, -8);
    AddSucceedsExactly(pound, one);
    AddSucceedsExactly(one, pound);
    AddExact(pound, one);
    AddExact(one, pound);
    SameAs(Add(pound, one).value, POUND_NUM + POUND_DEN, -8);
    SameAs(Add(one, pound).value, POUND_NUM + POUND_DEN, -8);
  }

  /** No decimal number of pounds is a pound and a kilogram: 45359237 would have to divide a power of ten times the sum. */
  lemma {:induction false} NoPounds()
    ensures MulRatioExact(Dec(POUND_NUM + POUND_DEN, -8), POUND_DEN, POUND_NUM).Err?
  {
    hide Pow10, MulRatioExact, IsNormal;
    PowersUsed();
    var total: Decimal := Dec(POUND_NUM + POUND_DEN, -8);
    match MulRatioExact(total, POUND_DEN, POUND_NUM)
    case Ok(r) =>
      MulRatioIsExact(total, POUND_DEN, POUND_NUM);
      NoMultipleOfPounds(Value(r));
    case Err(_) =>
  }

  lemma {:induction false} NoMultipleOfPounds(r: int)
    ensures r * POUND_NUM != (POUND_NUM + POUND_DEN) * 10_000_000_000 * POUND_DEN
  {}

  /** One pound and one kilogram cannot be added up; one kilogram and one pound can. */
  lemma {:induction false} OrderMatters(lb: Unit, kg: Unit, reg: Registry)
    requires PoundsAndKilograms(lb, kg, reg)
    ensures AddQuantities(Amount(1, lb), Amount(1, kg), reg).Err?
    ensures AddQuantities(Amount(1, kg), Amount(1, lb), reg) == Ok(Quantity(Dec(POUND_NUM + POUND_DEN, -8), kg))
  {
    hide MulRatioExact, Add, NormalizeToken, IsNormal;
    PoundInKilograms();
    SmallConverts(1, kg, reg);
    PoundAndKilogramAdd();
    NoPounds();
    PoundIsNormal();
    InCanonicalUnit(Dec(POUND_NUM + POUND_DEN, -8), kg, reg);
  }

  /** So nothing that begins with them in that order has a sum. */
  lemma {:induction false} PoundFirstHasNoSum(lb: Unit, kg: Unit, rest: seq<Quantity>, reg: Registry)
    requires PoundsAndKilograms(lb, kg, reg)
    ensures !CanSum([Amount(1, lb), Amount(1, kg)] + rest, reg)
  {
    hide AddQuantities, PoundsAndKilograms, CanAdd;
    var items := [Amount(1, lb), Amount(1, kg)] + rest;
    OrderMatters(lb, kg, reg);
    SumSucceedsExactly(items, reg);
    assert items[1..][0] == Amount(1, kg);
  }

  lemma {:induction false} KilogramFirstHasSum(lb: Unit, kg: Unit, reg: Registry)
    requires PoundsAndKilograms(lb, kg, reg)
    ensures SumQuantities([Amount(1, kg), Amount(1, lb)], reg) == Ok(Quantity(Dec(POUND_NUM + POUND_DEN, -8), kg))
    ensures CanSum([Amount(1, kg), Amount(1, lb)], reg)
  {
    hide AddQuantities, PoundsAndKilograms, CanSum;
    var items := [Amount(1, kg), Amount(1, lb)];
    OrderMatters(lb, kg, reg);
    SumSucceedsExactly(items, reg);
    assert items[1..][0] == Amount(1, lb) && items[1..][1..] == [];
    NothingMore(Amount(1, kg), reg);
  }

  const POUND := Unit("lb", UNITSML)

  function KilogramsAndPounds(): Registry {
    map["kg" := UnitDef(KILOGRAM, Mass, 1, 1), "lb" := UnitDef(POUND, Mass, POUND_NUM, POUND_DEN)]
  }

  /** The two units as they are seeded. */
  lemma {:induction false} SeededPounds()
    ensures WellFormed(KilogramsAndPounds()) && PoundsAndKilograms(POUND, KILOGRAM, KilogramsAndPounds())
  {
    hide NormalizeToken;
    TokenIsNormal("kg");
    TokenIsNormal("lb");
  }

  // ----- what follows for aggregates and combines

  /** A set in which the first two contributions under some label are a pound and a kilogram cannot be aggregated. */
  lemma {:induction false} PoundFirstIsNotAggregated(
    ms: Members, key: string, lb: Unit, kg: Unit, rest: seq<Quantity>, reg: Registry)
    requires PoundsAndKilograms(lb, kg, reg)
    requires Contributions(ms, key) == [Amount(1, lb), Amount(1, kg)] + rest
    ensures AggregateSet(ms, reg).Err?
  {
    hide AggregateSet, Contributions, PoundsAndKilograms, CanSum, LabelsOf, SomeCarries, KeysSorted;
    PoundFirstHasNoSum(lb, kg, rest, reg);
    LabelsExactly(ms);
    ContributesIffCarried(ms, key);
    AggregateSucceedsExactly(ms, reg);
  }

  /** Two members that carry one quantity each, under one label. */
  function Carrying(first: TraversalMember, second: TraversalMember, key: string, a: Quantity, b: Quantity): Members {
    [first.(quantities := [Entry(key, a)]), second.(quantities := [Entry(key, b)])]
  }

  lemma {:induction false} ContributionsOfTwo(
    first: TraversalMember, second: TraversalMember, key: string, a: Quantity, b: Quantity)
    ensures var ms := Carrying(first, second, key, a, b);
      Contributions(ms, key) == [a, b] && forall k :: k in LabelsOf(ms) <==> k == key
  {
    hide LabelsOf, KeysSorted;
    var ms := Carrying(first, second, key, a, b);
    LabelsExactly(ms);
    assert ms[1..][1..] == [];
    GetOnly(key, a);
    GetOnly(key, b);
    assert Contributions(ms[1..], key) == [b] by {
      assert Contributions(ms[1..][1..], key) == [];
    }
    assert Carries(ms[0], key) by {
      assert ms[0].quantities[0].key == key;
    }
    assert forall k :: SomeCarries(ms, k) ==> k == key;
  }

  lemma {:induction false} GetOnly(key: string, q: Quantity)
    ensures Get([Entry(key, q)], key) == Some(q)
  {}

  /** A pound and a kilogram under one label: which of the two members comes first in the set decides. */
  lemma {:induction false} AggregatesDependOnOrder(
    first: TraversalMember, second: TraversalMember, key: string, lb: Unit, kg: Unit, reg: Registry)
    requires PoundsAndKilograms(lb, kg, reg)
    ensures AggregateSet(Carrying(first, second, key, Amount(1, lb), Amount(1, kg)), reg).Err?
    ensures AggregateSet(Carrying(first, second, key, Amount(1, kg), Amount(1, lb)), reg).Ok?
  {
    hide AggregateSet, Contributions, PoundsAndKilograms, CanSum, LabelsOf, Carrying;
    ContributionsOfTwo(first, second, key, Amount(1, lb), Amount(1, kg));
    ContributionsOfTwo(first, second, key, Amount(1, kg), Amount(1, lb));
    PoundFirstIsNotAggregated(
      Carrying(first, second, key, Amount(1, lb), Amount(1, kg)), key, lb, kg, [], reg);
    KilogramFirstHasSum(lb, kg, reg);
    AggregateSucceedsExactly(Carrying(first, second, key, Amount(1, kg), Amount(1, lb)), reg);
  }

  /** All that is available of two passports is combined into one kilogram. */
  function Merging(a: PassportId, qa: Quantity, b: PassportId, qb: Quantity, output: PassportId, kg: Unit): CombineSpec {
    CombineSpec(output, Amount(1, kg), [InputReference(a, qa, Hashing.ZERO), InputReference(b, qb, Hashing.ZERO)],
                map[a := qa, b := qb], [])
  }

  lemma {:induction false} WholeIsSupported(id: PassportId, q: Quantity, spec: CombineSpec, kg: Unit, reg: Registry)
    requires WellFormed(reg) && q.amount.mant == 1 && spec.outputQuantity == Amount(1, kg)
    requires Commensurable(q, Amount(1, kg), reg) && CanonicalAmount(q, reg).Ok?
    requires id in spec.available && spec.available[id] == q
    ensures Supported(InputReference(id, q, Hashing.ZERO), spec, reg)
  {
    hide CanonicalAmount, Canonicalizes, Canon, Commensurable, WellFormed;
    CanonicalizesExactly(q, reg);
    Splits.CanonNonNegative(q, reg);
  }

  lemma {:induction false} AnyIsExpressible(c: Decimal, unit: Unit, reg: Registry)
    requires IsCanonicalUnit(unit, reg)
    ensures Expressible(c, unit, reg)
  {
    hide MulRatioExact, NormalizeToken, Expressible;
    TimesOne(c);
    ExpressibleExactly(c, unit, reg);
  }

  lemma {:induction false} OneOfTheTotal(kg: Unit, reg: Registry)
    requires WellFormed(reg) && IsCanonicalUnit(kg, reg)
    ensures CanBalance(Quantity(Dec(POUND_NUM + POUND_DEN, -8), kg), Amount(1, kg), reg)
  {
    hide CanonicalAmount, Canonicalizes, Canon, Expressible, IsNormal, Pow10, Scaled, IsCanonicalUnit;
    var total: Decimal := Dec(POUND_NUM + POUND_DEN, -8);
    PoundIsNormal();
    SmallConverts(1, kg, reg);
    InCanonicalUnit(total, kg, reg);
    CanonicalizesExactly(Quantity(total, kg), reg);
    CanonicalizesExactly(Amount(1, kg), reg);
    CanonicalExact(Quantity(total, kg), reg);
    CanonicalExact(Amount(1, kg), reg);
    OneIsLess();
    forall loss: Decimal ensures Expressible(loss, kg, reg) {
      AnyIsExpressible(loss, kg, reg);
    }
  }

  lemma {:induction false} OneIsLess()
    ensures Value(Dec(1, 0)) <= Value(Dec(POUND_NUM + POUND_DEN, -8))
    ensures Subtractable(Dec(POUND_NUM + POUND_DEN, -8), Dec(1, 0))
  {
    hide Pow10;
    PowersUsed();
    PowZero();
  }

  /** The same for a combine: which of the two inputs is listed first decides. */
  lemma {:induction false} CombinesDependOnOrder(
    a: PassportId, b: PassportId, output: PassportId, lb: Unit, kg: Unit, reg: Registry)
    requires WellFormed(reg) && PoundsAndKilograms(lb, kg, reg) && a != b
    ensures Combine(Merging(a, Amount(1, lb), b, Amount(1, kg), output, kg), reg).Err?
    ensures Combine(Merging(b, Amount(1, kg), a, Amount(1, lb), output, kg), reg).Ok?
  {
    hide Combine, Supported, CanSum, CanBalance, SumQuantities, CanonicalAmount, Commensurable, IsCanonicalUnit, WellFormed;
    var bad := Merging(a, Amount(1, lb), b, Amount(1, kg), output, kg);
    var good := Merging(b, Amount(1, kg), a, Amount(1, lb), output, kg);
    assert bad.inputs[1..][1..] == [] && good.inputs[1..][1..] == [];
    assert QuantitiesOf(bad.inputs) == [Amount(1, lb), Amount(1, kg)] + [];
    assert QuantitiesOf(good.inputs) == [Amount(1, kg), Amount(1, lb)];
    PoundFirstHasNoSum(lb, kg, [], reg);
    CombineSucceedsExactly(bad, reg);
    KilogramFirstHasSum(lb, kg, reg);
    OneOfTheTotal(kg, reg);
    BothConvert(lb, kg, reg);
    WholeIsSupported(b, Amount(1, kg), good, kg, reg);
    WholeIsSupported(a, Amount(1, lb), good, kg, reg);
    CombineSucceedsExactly(good, reg);
  }

  lemma {:induction false} BothConvert(lb: Unit, kg: Unit, reg: Registry)
    requires PoundsAndKilograms(lb, kg, reg)
    ensures CanonicalAmount(Amount(1, lb), reg).Ok? && CanonicalAmount(Amount(1, kg), reg).Ok?
    ensures Commensurable(Amount(1, lb), Amount(1, kg), reg) && Commensurable(Amount(1, kg), Amount(1, kg), reg)
  {
    hide MulRatioExact, NormalizeToken;
    PoundInKilograms();
    SmallConverts(1, kg, reg);
  }
}
