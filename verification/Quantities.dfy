/**
 Quantities in registered units (crates/transform/src/quantity.rs). A unit carries an exact rational factor to
 the canonical unit of its dimension. `Canon` is the exact canonical amount of a quantity, as a real number
 of units of 10^-18; every operation that succeeds is exact with respect to it.
 */
module Quantities {
  import opened Wrappers
  import opened RustInt
  import opened Digits
  import opened Decimals
  import opened Identifiers
  import opened Normalization
  import DecimalText

  datatype Dimension = Mass | Energy | Volume | Count | Dimensionless | Custom(name: string)

  datatype Unit = Unit(uom: string, registryUri: string)

  datatype UnitDef = UnitDef(unit: Unit, dimension: Dimension, factorNum: int, factorDen: int)

  datatype Quantity = Quantity(amount: Decimal, unit: Unit) {
    predicate IsZero() { amount.mant == 0 }
  }

  datatype TransformError =
    | UnknownUnit(uom: string)
    | DimensionMismatch
    | OverCarve(requested: Decimal, available: Decimal)
    | OverConsumption(input: PassportId, overRequested: Decimal, overAvailable: Decimal)
    | NegativeBalance(totalIn: Decimal, output: Decimal)
    | Empty
    | RegistryConflict
    | Provenance(about: string)
    | Model(cause: ModelError)

  function FromModel<T>(r: Result<T, ModelError>): (q: Result<T, TransformError>)
    ensures q.Ok? <==> r.Ok?
    ensures r.Ok? ==> q.value == r.value
  {
    match r
    case Ok(v) => Ok(v)
    case Err(e) => Err(Model(e))
  }

  // ----- the registry

  /** What a registry knows: one definition per normalized symbol. */
  type Registry = map<string, UnitDef>

  predicate Meaningful(def: UnitDef) {
    def.factorDen > 0 && def.factorNum >= 0 && InI128(def.factorNum) && InI128(def.factorDen)
  }

  ghost predicate WellFormed(reg: Registry) {
    forall key :: key in reg ==> Meaningful(reg[key]) && reg[key].unit.uom == key
  }

  function NewUnit(uom: string, uri: string): Result<Unit, TransformError> {
    var token := NormalizeToken(uom);
    if token == "" || DecimalText.Trim(uri) == "" then Err(RegistryConflict) else Ok(Unit(token, DecimalText.Trim(uri)))
  }

  class UnitRegistry {
    var defs: seq<UnitDef>
    var index: map<string, nat>

    ghost predicate Valid()
      reads this
    {
      && (forall key :: key in index ==> index[key] < |defs| && defs[index[key]].unit.uom == key)
      && (forall i :: 0 <= i < |defs| ==>
            Meaningful(defs[i]) && defs[i].unit.uom in index && index[defs[i].unit.uom] == i)
    }

    ghost function View(): (reg: Registry)
      reads this
      requires Valid()
      ensures WellFormed(reg)
    {
      map key | key in index :: defs[index[key]]
    }

    constructor ()
      ensures Valid() && View() == map[]
    {
      defs, index := [], map[];
    }

    /**
     Registers a unit. A symbol keeps its first definition for ever: registering it again is accepted if
     nothing changes and refused otherwise, and no failure leaves a trace.
     */
    method Register(uom: string, uri: string, dimension: Dimension, num: int, den: int)
      returns (r: Result<(), TransformError>)
      requires Valid() && InI128(num) && InI128(den)
      modifies this
      ensures Valid()
      ensures forall key :: key in old(View()) ==> key in View() && View()[key] == old(View())[key]
      ensures r.Err? ==> View() == old(View())
      ensures r.Ok? ==>
                var def := UnitDef(Unit(NormalizeToken(uom), DecimalText.Trim(uri)), dimension, num, den);
                View() == old(View())[NormalizeToken(uom) := def]
      ensures r.Ok? <==>
              && den > 0 && num >= 0 && NormalizeToken(uom) != "" && DecimalText.Trim(uri) != ""
              && (NormalizeToken(uom) in old(View()) ==>
                    old(View())[NormalizeToken(uom)]
                    == UnitDef(Unit(NormalizeToken(uom), DecimalText.Trim(uri)), dimension, num, den))
    {
      if den == 0 || num < 0 || den < 0 {
        return Err(RegistryConflict);
      }
      var unit := NewUnit(uom, uri);
      if unit.Err? {
        return Err(unit.error);
      }
      var key := unit.value.uom;
      var def := UnitDef(unit.value, dimension, num, den);
      if key in index {
        if defs[index[key]] == def {
          return Ok(());
        }
        return Err(RegistryConflict);
      }
      defs := defs + [def];
      index := index[key := |defs| - 1];
      return Ok(());
    }
  }

  function Lookup(reg: Registry, uom: string): Result<UnitDef, TransformError> {
    var key := NormalizeToken(uom);
    if key in reg then Ok(reg[key]) else Err(UnknownUnit(uom))
  }

  /** A registered unit is found under its own symbol exactly if there is no white space at the ends of that symbol. */
  lemma {:induction false} RegisteredFindsItself(reg: Registry, uom: string)
    requires WellFormed(reg) && NormalizeToken(uom) in reg
    ensures var def := reg[NormalizeToken(uom)];
      Lookup(reg, def.unit.uom) == Ok(def) <==> DecimalText.Trim(def.unit.uom) == def.unit.uom
  {
    hide NormalizeToken, DecimalText.Trim;
    NormalizingTwice(uom);
  }

  // ----- conversion and arithmetic

  function CanonicalAmount(q: Quantity, reg: Registry): Result<Decimal, TransformError> {
    var def :- Lookup(reg, q.unit.uom);
    FromModel(MulRatioExact(q.amount, def.factorNum, def.factorDen))
  }

  function FromCanonical(canonical: Decimal, target: Unit, reg: Registry): Result<Quantity, TransformError> {
    var def :- Lookup(reg, target.uom);
    var amount :- FromModel(MulRatioExact(canonical, def.factorDen, def.factorNum));
    Ok(Quantity(amount, target))
  }

  function ConvertTo(q: Quantity, target: Unit, reg: Registry): Result<Quantity, TransformError> {
    var tdef :- Lookup(reg, target.uom);
    var sdef :- Lookup(reg, q.unit.uom);
    if sdef.dimension != tdef.dimension then Err(DimensionMismatch) else
      var canonical :- CanonicalAmount(q, reg);
      var amount :- FromModel(MulRatioExact(canonical, tdef.factorDen, tdef.factorNum));
      Ok(Quantity(amount, target))
  }

  function SameDimension(a: Quantity, b: Quantity, reg: Registry): Result<bool, TransformError> {
    var adef :- Lookup(reg, a.unit.uom);
    var bdef :- Lookup(reg, b.unit.uom);
    Ok(adef.dimension == bdef.dimension)
  }

  /** The exact sum, in the unit of the first summand. */
  function AddQuantities(a: Quantity, b: Quantity, reg: Registry): Result<Quantity, TransformError> {
    var same :- SameDimension(a, b, reg);
    if !same then Err(DimensionMismatch) else
      var ca :- CanonicalAmount(a, reg);
      var cb :- CanonicalAmount(b, reg);
      var total :- FromModel(Add(ca, cb));
      FromCanonical(total, a.unit, reg)
  }

  function SubQuantities(a: Quantity, b: Quantity, reg: Registry): Result<Quantity, TransformError> {
    var neg :- FromModel(Neg(b.amount));
    AddQuantities(a, Quantity(neg, b.unit), reg)
  }

  function CmpQuantities(a: Quantity, b: Quantity, reg: Registry): Result<Ordering, TransformError> {
    var same :- SameDimension(a, b, reg);
    if !same then Err(DimensionMismatch) else
      var ca :- CanonicalAmount(a, reg);
      var cb :- CanonicalAmount(b, reg);
      FromModel(CmpValue(ca, cb))
  }

  function SumQuantitiesFrom(acc: Quantity, items: seq<Quantity>, reg: Registry): Result<Quantity, TransformError>
    decreases |items|
  {
    if items == [] then Ok(acc) else
      var next :- AddQuantities(acc, items[0], reg);
      SumQuantitiesFrom(next, items[1..], reg)
  }

  /** The sum, in the unit of the first quantity. */
  function SumQuantities(items: seq<Quantity>, reg: Registry): Result<Quantity, TransformError> {
    if items == [] then Err(Empty) else SumQuantitiesFrom(items[0], items[1..], reg)
  }

  method Sum(items: seq<Quantity>, reg: Registry) returns (r: Result<Quantity, TransformError>)
    ensures r == SumQuantities(items, reg)
  {
    if items == [] {
      return Err(Empty);
    }
    var acc := items[0];
    for i := 1 to |items|
      invariant SumQuantitiesFrom(acc, items[i..], reg) == SumQuantities(items, reg)
    {
      assert items[i..][1..] == items[i + 1..];
      var next := AddQuantities(acc, items[i], reg);
      if next.Err? {
        return next;
      }
      acc := next.value;
    }
    return Ok(acc);
  }

  // ----- exactness

  predicate Known(q: Quantity, reg: Registry) {
    NormalizeToken(q.unit.uom) in reg
  }

  function DefOf(q: Quantity, reg: Registry): UnitDef
    requires Known(q, reg)
  {
    reg[NormalizeToken(q.unit.uom)]
  }

  /** v * num / den, exactly. */
  function Ratio(v: int, num: int, den: int): real
    requires den != 0
  {
    v as real * num as real / den as real
  }

  /** The exact amount in the canonical unit, in units of 10^-18; zero for an unregistered unit. */
  function Canon(q: Quantity, reg: Registry): real {
    if !Known(q, reg) || DefOf(q, reg).factorDen == 0 then 0.0
    else Ratio(Value(q.amount), DefOf(q, reg).factorNum, DefOf(q, reg).factorDen)
  }

  lemma {:induction false} RatioOfProduct(x: int, d: int, y: int, n: int)
    requires d != 0 && x * d == y * n
    ensures x as real == Ratio(y, n, d)
  {
    assert (x * d) as real == x as real * d as real;
    assert (y * n) as real == y as real * n as real;
  }

  lemma {:induction false} ProductOfRatio(x: int, d: int, y: int, n: int)
    requires d != 0 && n != 0 && x * n == y * d
    ensures Ratio(x, n, d) == y as real
  {
    RatioOfProduct(y, d, x, n);
  }

  /** The canonical amount is exact. */
  lemma {:induction false} CanonicalExact(q: Quantity, reg: Registry)
    requires WellFormed(reg) && CanonicalAmount(q, reg).Ok?
    ensures Known(q, reg) && Value(CanonicalAmount(q, reg).value) as real == Canon(q, reg)
  {
    hide MulRatioExact, Decimals.Value, NormalizeToken, Ratio;
    var def := DefOf(q, reg);
    MulRatioIsExact(q.amount, def.factorNum, def.factorDen);
    RatioOfProduct(Value(CanonicalAmount(q, reg).value), def.factorDen, Value(q.amount), def.factorNum);
  }

  lemma {:induction false} FromCanonicalExact(c: Decimal, target: Unit, reg: Registry)
    requires WellFormed(reg) && FromCanonical(c, target, reg).Ok?
    ensures var q := FromCanonical(c, target, reg).value;
      && q.unit == target && Known(q, reg) && DefOf(q, reg).factorNum > 0
      && Canon(q, reg) == Value(c) as real && IsNormal(q.amount.mant, q.amount.exp)
  {
    hide MulRatioExact, Decimals.Value, NormalizeToken, Ratio, IsNormal;
    var q := FromCanonical(c, target, reg).value;
    var def := DefOf(q, reg);
    MulRatioIsExact(c, def.factorDen, def.factorNum);
    ProductOfRatio(Value(q.amount), def.factorDen, Value(c), def.factorNum);
  }

  /** Conversion keeps the exact canonical amount. */
  lemma {:induction false} ConvertExact(q: Quantity, target: Unit, reg: Registry)
    requires WellFormed(reg) && ConvertTo(q, target, reg).Ok?
    ensures var r := ConvertTo(q, target, reg).value;
      && r.unit == target && Commensurable(r, q, reg) && DefOf(r, reg).factorNum > 0
      && Canon(r, reg) == Canon(q, reg) && IsNormal(r.amount.mant, r.amount.exp)
  {
    CanonicalExact(q, reg);
    FromCanonicalExact(CanonicalAmount(q, reg).value, target, reg);
  }

  lemma {:induction false} RatioInjective(x: int, y: int, n: int, d: int)
    requires n > 0 && d > 0 && Ratio(x, n, d) == Ratio(y, n, d)
    ensures x == y
  {
    var f := n as real / d as real;
    assert Ratio(x, n, d) == x as real * f && Ratio(y, n, d) == y as real * f;
    assert f > 0.0;
    assert (x as real - y as real) * f == 0.0;
  }

  /** Two quantities in one unit with one canonical amount have one value, and one normal form off zero. */
  lemma {:induction false} SameUnitSameCanon(a: Quantity, b: Quantity, reg: Registry)
    requires WellFormed(reg) && a.unit == b.unit && Known(a, reg) && DefOf(a, reg).factorNum > 0
    requires Canon(a, reg) == Canon(b, reg)
    ensures Value(a.amount) == Value(b.amount)
    ensures a.amount.mant != 0 && IsNormal(a.amount.mant, a.amount.exp) && IsNormal(b.amount.mant, b.amount.exp)
            ==> a == b
  {
    hide Scaled, Ratio, NormalizeToken, IsNormal;
    RatioInjective(Value(a.amount), Value(b.amount), DefOf(a, reg).factorNum, DefOf(a, reg).factorDen);
    ScaledSign(a.amount.mant, a.amount.exp);
    ScaledSign(b.amount.mant, b.amount.exp);
    if a.amount.mant != 0 && IsNormal(a.amount.mant, a.amount.exp) && IsNormal(b.amount.mant, b.amount.exp) {
      NormalFormUnique(a.amount.mant, a.amount.exp, b.amount.mant, b.amount.exp);
    }
  }

  /** Converting there and back restores the amount. */
  lemma {:induction false} ConvertThereAndBack(q: Quantity, target: Unit, reg: Registry)
    requires WellFormed(reg) && ConvertTo(q, target, reg).Ok?
    requires ConvertTo(ConvertTo(q, target, reg).value, q.unit, reg).Ok?
    ensures var back := ConvertTo(ConvertTo(q, target, reg).value, q.unit, reg).value;
      && Value(back.amount) == Value(q.amount)
      && (q.amount.mant != 0 && IsNormal(q.amount.mant, q.amount.exp) ==> back == q)
  {
    hide ConvertTo, Canon, Decimals.Value, IsNormal, NormalizeToken;
    var r := ConvertTo(q, target, reg).value;
    ConvertExact(q, target, reg);
    ConvertExact(r, q.unit, reg);
    SameUnitSameCanon(q, ConvertTo(r, q.unit, reg).value, reg);
  }

  /** A chain of conversions equals the direct one. */
  lemma {:induction false} ConvertChain(q: Quantity, via: Unit, target: Unit, reg: Registry)
    requires WellFormed(reg) && ConvertTo(q, via, reg).Ok? && ConvertTo(q, target, reg).Ok?
    requires ConvertTo(ConvertTo(q, via, reg).value, target, reg).Ok?
    ensures var chained := ConvertTo(ConvertTo(q, via, reg).value, target, reg).value;
      var direct := ConvertTo(q, target, reg).value;
      Value(chained.amount) == Value(direct.amount) && (direct.amount.mant != 0 ==> chained == direct)
  {
    hide ConvertTo, Canon, Decimals.Value, IsNormal, NormalizeToken;
    ConvertExact(q, via, reg);
    ConvertExact(ConvertTo(q, via, reg).value, target, reg);
    ConvertExact(q, target, reg);
    SameUnitSameCanon(ConvertTo(q, target, reg).value, ConvertTo(ConvertTo(q, via, reg).value, target, reg).value, reg);
  }

  /** Sums are exact, whatever units are mixed. */
  lemma {:induction false} AddQuantitiesExact(a: Quantity, b: Quantity, reg: Registry)
    requires WellFormed(reg) && AddQuantities(a, b, reg).Ok?
    ensures var r := AddQuantities(a, b, reg).value;
      && r.unit == a.unit && Known(a, reg) && Known(b, reg) && Known(r, reg)
      && DefOf(a, reg).dimension == DefOf(b, reg).dimension && DefOf(r, reg) == DefOf(a, reg)
      && Canon(r, reg) == Canon(a, reg) + Canon(b, reg)
  {
    hide CanonicalAmount, FromCanonical, Canon, Decimals.Value, Add, NormalizeToken;
    CanonicalExact(a, reg);
    CanonicalExact(b, reg);
    var ca, cb := CanonicalAmount(a, reg).value, CanonicalAmount(b, reg).value;
    AddExact(ca, cb);
    FromCanonicalExact(Add(ca, cb).value, a.unit, reg);
  }

  lemma {:induction false} CanonOfNeg(q: Quantity, reg: Registry)
    requires q.amount.mant != I128_MIN
    ensures Canon(Quantity(Dec(-q.amount.mant, q.amount.exp), q.unit), reg) == -Canon(q, reg)
  {
    hide Scaled, NormalizeToken;
    ScaledSign(q.amount.mant, q.amount.exp);
  }

  lemma {:induction false} SubQuantitiesExact(a: Quantity, b: Quantity, reg: Registry)
    requires WellFormed(reg) && SubQuantities(a, b, reg).Ok?
    ensures Canon(SubQuantities(a, b, reg).value, reg) == Canon(a, reg) - Canon(b, reg)
  {
    hide AddQuantities, Canon;
    CanonOfNeg(b, reg);
    AddQuantitiesExact(a, Quantity(Neg(b.amount).value, b.unit), reg);
  }

  function CompareReals(x: real, y: real): Ordering {
    if x < y then Less else if x > y then Greater else Equal
  }

  /** Quantities are compared by their exact canonical amounts. */
  lemma {:induction false} CmpQuantitiesExact(a: Quantity, b: Quantity, reg: Registry)
    requires WellFormed(reg) && CmpQuantities(a, b, reg).Ok?
    ensures CmpQuantities(a, b, reg).value == CompareReals(Canon(a, reg), Canon(b, reg))
  {
    hide CanonicalAmount, Canon, Decimals.Value, NormalizeToken;
    CanonicalExact(a, reg);
    CanonicalExact(b, reg);
    CmpValueIsNumeric(CanonicalAmount(a, reg).value, CanonicalAmount(b, reg).value);
  }

  function TotalCanon(items: seq<Quantity>, reg: Registry): real {
    if items == [] then 0.0 else Canon(items[0], reg) + TotalCanon(items[1..], reg)
  }

  /** Registered, and of the dimension of the other quantity. */
  ghost predicate Commensurable(q: Quantity, other: Quantity, reg: Registry) {
    Known(q, reg) && Known(other, reg) && DefOf(q, reg).dimension == DefOf(other, reg).dimension
  }

  lemma {:induction false} SumFromExact(acc: Quantity, items: seq<Quantity>, reg: Registry)
    requires WellFormed(reg) && SumQuantitiesFrom(acc, items, reg).Ok?
    ensures var r := SumQuantitiesFrom(acc, items, reg).value;
      && r.unit == acc.unit && Canon(r, reg) == Canon(acc, reg) + TotalCanon(items, reg)
      && forall i :: 0 <= i < |items| ==> Commensurable(items[i], acc, reg)
    decreases |items|
  {
    hide AddQuantities, Canon, NormalizeToken;
    if items != [] {
      AddQuantitiesExact(acc, items[0], reg);
      var next := AddQuantities(acc, items[0], reg).value;
      SumFromExact(next, items[1..], reg);
      assert forall i :: 1 <= i < |items| ==> items[i] == items[1..][i - 1];
    }
  }

  /**
   A sum is exact, in the unit of the first quantity. A single quantity is returned as it is, even in an unregistered
   unit; two or more are all in registered units of one dimension.
   */
  lemma {:induction false} SumQuantitiesExact(items: seq<Quantity>, reg: Registry)
    requires WellFormed(reg) && SumQuantities(items, reg).Ok?
    ensures items != [] && SumQuantities(items, reg).value.unit == items[0].unit
    ensures Canon(SumQuantities(items, reg).value, reg) == TotalCanon(items, reg)
    ensures |items| == 1 ==> SumQuantities(items, reg).value == items[0]
    ensures |items| >= 2 ==> forall i :: 0 <= i < |items| ==> Commensurable(items[i], items[0], reg)
  {
    hide Canon, Known, DefOf;
    SumFromExact(items[0], items[1..], reg);
    if |items| >= 2 {
      assert Commensurable(items[1..][0], items[0], reg);
      assert forall i :: 1 <= i < |items| ==> items[i] == items[1..][i - 1];
    }
  }

  // ----- when sums succeed

  /** The amount can be brought to the canonical unit. */
  ghost predicate Canonicalizes(q: Quantity, reg: Registry) {
    Known(q, reg) && RatioApplies(q.amount, DefOf(q, reg).factorNum, DefOf(q, reg).factorDen)
  }

  /** The canonical amount can be brought to the unit. */
  ghost predicate Expressible(c: Decimal, unit: Unit, reg: Registry) {
    var q := Quantity(c, unit);
    Known(q, reg) && RatioApplies(c, DefOf(q, reg).factorDen, DefOf(q, reg).factorNum)
  }

  function CanonicalOr(q: Quantity, reg: Registry, other: Decimal): Decimal {
    if CanonicalAmount(q, reg).Ok? then CanonicalAmount(q, reg).value else other
  }

  /** The canonical amounts, in order. */
  function CanonicalAmounts(items: seq<Quantity>, reg: Registry): (ds: seq<Decimal>)
    ensures |ds| == |items| && forall i :: 0 <= i < |ds| ==> ds[i] == CanonicalOr(items[i], reg, ZERO)
  {
    hide CanonicalOr;
    if items == [] then [] else [CanonicalOr(items[0], reg, ZERO)] + CanonicalAmounts(items[1..], reg)
  }

  /** Both are of one dimension and canonicalize, and their canonical sum fits and can be expressed in the first unit. */
  ghost predicate CanAdd(a: Quantity, b: Quantity, reg: Registry) {
    && Commensurable(b, a, reg) && Canonicalizes(a, reg) && Canonicalizes(b, reg)
    && var ca, cb := CanonicalOr(a, reg, ZERO), CanonicalOr(b, reg, ZERO);
      && Addable(ca, cb)
      && forall sum :: Add(ca, cb) == Ok(sum) ==> Expressible(sum, a.unit, reg)
  }

  lemma {:induction false} CanonicalizesExactly(q: Quantity, reg: Registry)
    ensures CanonicalAmount(q, reg).Ok? <==> Canonicalizes(q, reg)
  {
    hide MulRatioExact, RatioApplies, NormalizeToken;
    if Known(q, reg) {
      MulRatioSucceedsExactly(q.amount, DefOf(q, reg).factorNum, DefOf(q, reg).factorDen);
    }
  }

  lemma {:induction false} ExpressibleExactly(c: Decimal, unit: Unit, reg: Registry)
    ensures FromCanonical(c, unit, reg).Ok? <==> Expressible(c, unit, reg)
  {
    hide MulRatioExact, RatioApplies, NormalizeToken;
    var q := Quantity(c, unit);
    if Known(q, reg) {
      MulRatioSucceedsExactly(c, DefOf(q, reg).factorDen, DefOf(q, reg).factorNum);
    }
  }

  /** When a quantity can be converted: the dimension is that of the target, and the canonical amount fits its unit. */
  lemma {:induction false} ConvertSucceedsExactly(q: Quantity, target: Unit, reg: Registry)
    ensures ConvertTo(q, target, reg).Ok? <==>
            && Commensurable(q, Quantity(q.amount, target), reg) && Canonicalizes(q, reg)
            && Expressible(CanonicalOr(q, reg, ZERO), target, reg)
  {
    hide MulRatioExact, Canonicalizes, Expressible, NormalizeToken;
    CanonicalizesExactly(q, reg);
    ExpressibleExactly(CanonicalOr(q, reg, ZERO), target, reg);
  }

  /** When two quantities can be compared: they are of one dimension and canonicalize, and one amount can be negated. */
  lemma {:induction false} CmpQuantitiesSucceedsExactly(a: Quantity, b: Quantity, reg: Registry)
    ensures CmpQuantities(a, b, reg).Ok? <==>
            && Commensurable(b, a, reg) && Canonicalizes(a, reg) && Canonicalizes(b, reg)
            && Comparable(CanonicalOr(a, reg, ZERO), CanonicalOr(b, reg, ZERO))
  {
    hide CanonicalAmount, Canonicalizes, CmpValue, NormalizeToken;
    CanonicalizesExactly(a, reg);
    CanonicalizesExactly(b, reg);
    CmpValueIsNumeric(CanonicalOr(a, reg, ZERO), CanonicalOr(b, reg, ZERO));
  }

  /** When one can be taken from another: its mantissa can be negated, and the two can then be added. */
  lemma {:induction false} SubQuantitiesSucceedsExactly(a: Quantity, b: Quantity, reg: Registry)
    ensures SubQuantities(a, b, reg).Ok? <==>
            b.amount.mant != I128_MIN && CanAdd(a, Quantity(Dec(-b.amount.mant, b.amount.exp), b.unit), reg)
  {
    hide AddQuantities, CanAdd;
    if b.amount.mant != I128_MIN {
      AddQuantitiesSucceedsExactly(a, Quantity(Dec(-b.amount.mant, b.amount.exp), b.unit), reg);
    }
  }

  /** When two quantities can be added. */
  lemma {:induction false} AddQuantitiesSucceedsExactly(a: Quantity, b: Quantity, reg: Registry)
    ensures AddQuantities(a, b, reg).Ok? <==> CanAdd(a, b, reg)
  {
    hide CanonicalAmount, FromCanonical, Canonicalizes, Expressible, Add, Addable, NormalizeToken;
    CanonicalizesExactly(a, reg);
    CanonicalizesExactly(b, reg);
    var ca, cb := CanonicalOr(a, reg, ZERO), CanonicalOr(b, reg, ZERO);
    AddSucceedsExactly(ca, cb);
    if Add(ca, cb).Ok? {
      ExpressibleExactly(Add(ca, cb).value, a.unit, reg);
    }
  }

  /** Converting b to the unit of a, adding b to a and comparing a with b are all refused with this error. */
  ghost predicate RefusedWith(a: Quantity, b: Quantity, e: TransformError, reg: Registry) {
    ConvertTo(b, a.unit, reg) == Err(e) && AddQuantities(a, b, reg) == Err(e) && CmpQuantities(a, b, reg) == Err(e)
  }

  /** For which unit an operation is refused: the one that is not registered, or two of different dimensions. */
  lemma {:induction false} UnitsRefused(a: Quantity, b: Quantity, reg: Registry)
    ensures !Known(a, reg) ==> CanonicalAmount(a, reg) == Err(UnknownUnit(a.unit.uom))
    ensures !Known(a, reg) ==> RefusedWith(a, b, UnknownUnit(a.unit.uom), reg)
    ensures Known(a, reg) && !Known(b, reg) ==> RefusedWith(a, b, UnknownUnit(b.unit.uom), reg)
    ensures Known(a, reg) && Known(b, reg) && !Commensurable(a, b, reg) ==> RefusedWith(a, b, DimensionMismatch, reg)
  {
    hide MulRatioExact, NormalizeToken, Add, CmpValue;
  }

  lemma {:induction false} SumFromSnoc(acc: Quantity, items: seq<Quantity>, last: Quantity, reg: Registry)
    ensures var before := SumQuantitiesFrom(acc, items, reg);
      SumQuantitiesFrom(acc, items + [last], reg) ==
        if before.Err? then before else AddQuantities(before.value, last, reg)
    decreases |items|
  {
    hide AddQuantities;
    if items == [] {
      assert (items + [last])[0] == last && (items + [last])[1..] == [];
      NothingMore(acc, reg);
    } else {
      assert (items + [last])[0] == items[0] && (items + [last])[1..] == items[1..] + [last];
      var next := AddQuantities(acc, items[0], reg);
      if next.Ok? {
        SumFromSnoc(next.value, items[1..], last, reg);
      }
    }
    OneMore(acc, items + [last], reg);
  }

  lemma {:induction false} NothingMore(acc: Quantity, reg: Registry)
    ensures SumQuantitiesFrom(acc, [], reg) == Ok(acc)
    ensures forall q :: AddQuantities(acc, q, reg).Ok? ==>
              SumQuantitiesFrom(AddQuantities(acc, q, reg).value, [], reg) == AddQuantities(acc, q, reg)
  {
    hide AddQuantities;
  }

  lemma {:induction false} OneMore(acc: Quantity, items: seq<Quantity>, reg: Registry)
    requires items != []
    ensures var next := AddQuantities(acc, items[0], reg);
      SumQuantitiesFrom(acc, items, reg) == if next.Err? then next else SumQuantitiesFrom(next.value, items[1..], reg)
  {
    hide AddQuantities;
  }

  /** The last quantity is added to the sum of those before it. */
  lemma {:induction false} SumOfLast(items: seq<Quantity>, reg: Registry)
    requires |items| >= 2
    ensures var before := SumQuantities(items[..|items| - 1], reg);
      SumQuantities(items, reg) == if before.Err? then before else AddQuantities(before.value, items[|items| - 1], reg)
  {
    hide AddQuantities, SumQuantitiesFrom;
    var n := |items| - 1;
    assert items[1..] == items[1..n] + [items[n]] && items[..n][1..] == items[1..n];
    SumFromSnoc(items[0], items[1..n], items[n], reg);
  }

  /** The sum of the first k quantities, in the unit of the first; the first alone if there is no such sum. */
  function PartialSum(items: seq<Quantity>, k: nat, reg: Registry): Quantity
    requires 1 <= k <= |items|
  {
    var r := SumQuantities(items[..k], reg);
    if r.Ok? then r.value else items[0]
  }

  /** Every quantity can be added to the sum of those before it. */
  ghost predicate CanSum(items: seq<Quantity>, reg: Registry) {
    items != [] && forall k :: 1 <= k < |items| ==> CanAdd(PartialSum(items, k, reg), items[k], reg)
  }

  lemma {:induction false} CanSumButLast(items: seq<Quantity>, reg: Registry)
    requires |items| >= 2
    ensures var n := |items| - 1;
      CanSum(items, reg) <==> CanSum(items[..n], reg) && CanAdd(PartialSum(items, n, reg), items[n], reg)
  {
    hide CanAdd, SumQuantities;
    var n := |items| - 1;
    assert forall k :: 1 <= k < n ==> items[..n][..k] == items[..k] && items[..n][k] == items[k];
    assert forall k :: 1 <= k < n ==> PartialSum(items[..n], k, reg) == PartialSum(items, k, reg);
  }

  /**
   When a sum succeeds: at every step the next quantity is of the dimension of the first, it and the sum so far
   canonicalize, and their canonical sum fits 128 bits and can be expressed in the unit of the first.
   */
  lemma {:induction false} SumSucceedsExactly(items: seq<Quantity>, reg: Registry)
    ensures SumQuantities(items, reg).Ok? <==> CanSum(items, reg)
    decreases |items|
  {
    hide CanAdd, AddQuantities, SumQuantitiesFrom;
    if |items| == 1 {
      NothingMore(items[0], reg);
      assert items[1..] == [];
    } else if |items| >= 2 {
      var n := |items| - 1;
      SumSucceedsExactly(items[..n], reg);
      SumOfLast(items, reg);
      CanSumButLast(items, reg);
      AddQuantitiesSucceedsExactly(PartialSum(items, n, reg), items[n], reg);
    }
  }
}
