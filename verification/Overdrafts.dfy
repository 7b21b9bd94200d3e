/**
 What `combine` leaves to its caller (crates/transform/src/combine.rs): with which inputs it can take more from a passport
 than there is, and what an output below zero does.
 */
module Overdrafts {
  import opened Wrappers
  import opened RustInt
  import opened Digits
  import opened Decimals
  import opened Identifiers
  import opened Normalization
  import opened Quantities
  import opened Combines
  import opened Ledgers
  import opened SmallAmounts
  import Hashing
  import Splits

  /** All that a combine takes from a passport in all is available, and of the dimension of what is available. */
  ghost predicate Respects(spec: CombineSpec, reg: Registry) {
    forall id :: id in InputsOf(spec.inputs) ==>
      && id in spec.available && Commensurable(spec.available[id], spec.outputQuantity, reg)
      && TakenFrom(id, spec.inputs, reg) <= Canon(spec.available[id], reg)
  }

  /** What is available of the listed passports is of the dimension of the output, and so of the inputs. */
  ghost predicate InDimension(spec: CombineSpec, reg: Registry) {
    forall id :: id in InputsOf(spec.inputs) && id in spec.available ==>
      Commensurable(spec.available[id], spec.outputQuantity, reg)
  }

  // ----- a passport listed twice

  /** One unit is taken at places i and j, which may be one place, and nothing elsewhere. */
  function TakenAt(k: int, i: int, j: int): int {
    if k == i || k == j then 1 else 0
  }

  function Takings(ids: seq<PassportId>, i: nat, j: nat, unit: Unit): (inputs: seq<InputReference>)
    ensures |inputs| == |ids|
    ensures forall k :: 0 <= k < |ids| ==>
              inputs[k] == InputReference(ids[k], Amount(TakenAt(k, i, j), unit), Hashing.ZERO)
  {
    seq(|ids|, k requires 0 <= k < |ids| => InputReference(ids[k], Amount(TakenAt(k, i, j), unit), Hashing.ZERO))
  }

  /** In which unit something of a passport is available. */
  type Kinds = map<PassportId, Unit>

  /** One unit of each passport is available, and nothing is put out. */
  function Taking(ids: seq<PassportId>, i: nat, j: nat, unit: Unit, kinds: Kinds, output: PassportId): CombineSpec
    requires forall id :: id in ids ==> id in kinds
  {
    CombineSpec(output, Amount(0, unit), Takings(ids, i, j, unit), map id | id in ids :: Amount(1, kinds[id]), [])
  }

  lemma {:induction false} SmallInputPasses(
    input: InputReference, m: int, spec: CombineSpec, o: int, unit: Unit, kind: Unit, reg: Registry)
    requires IsCanonicalUnit(unit, reg) && IsCanonicalUnit(kind, reg) && 0 <= m <= 1 && -9 <= o <= 9
    requires input.quantity == Amount(m, unit) && spec.outputQuantity == Amount(o, unit)
    requires input.input in spec.available && spec.available[input.input] == Amount(1, kind)
    ensures CheckInput(input, spec, reg).Ok?
  {
    hide CanonicalAmount, CmpValue, NormalizeToken, Scaled;
    SmallConverts(m, unit, reg);
    SmallConverts(1, kind, reg);
    SmallOrder(m, 1);
  }

  lemma {:induction false} AllPass(inputs: seq<InputReference>, spec: CombineSpec, reg: Registry)
    requires forall k :: 0 <= k < |inputs| ==> CheckInput(inputs[k], spec, reg).Ok?
    ensures CheckInputs(inputs, spec, reg).Ok?
  {
    hide CheckInput;
    if inputs != [] {
      AllPass(inputs[1..], spec, reg);
    }
  }

  /** What is taken before place k. */
  function TakenBefore(k: int, i: int, j: int): int {
    (if i < k then 1 else 0) + (if i != j && j < k then 1 else 0)
  }

  lemma {:induction false} QuantitiesFrom(inputs: seq<InputReference>, k: nat)
    requires k < |inputs|
    ensures QuantitiesOf(inputs[k..]) == [inputs[k].quantity] + QuantitiesOf(inputs[k + 1..])
  {
    assert inputs[k..][1..] == inputs[k + 1..];
  }

  lemma {:induction false} TakingsAddUp(inputs: seq<InputReference>, i: nat, j: nat, k: nat, unit: Unit, reg: Registry)
    requires IsCanonicalUnit(unit, reg) && i <= j < |inputs| && k <= |inputs|
    requires forall h :: 0 <= h < |inputs| ==> inputs[h].quantity == Amount(TakenAt(h, i, j), unit)
    ensures SumQuantitiesFrom(Amount(TakenBefore(k, i, j), unit), QuantitiesOf(inputs[k..]), reg)
            == Ok(Amount(if i == j then 1 else 2, unit))
    decreases |inputs| - k
  {
    hide AddQuantities, NormalizeToken, IsCanonicalUnit;
    if k < |inputs| {
      QuantitiesFrom(inputs, k);
      var rest := QuantitiesOf(inputs[k + 1..]);
      assert ([inputs[k].quantity] + rest)[1..] == rest;
      SmallQuantitiesAdd(TakenBefore(k, i, j), TakenAt(k, i, j), unit, reg);
      TakingsAddUp(inputs, i, j, k + 1, unit, reg);
    }
  }

  lemma {:induction false} TakingsSum(inputs: seq<InputReference>, i: nat, j: nat, unit: Unit, reg: Registry)
    requires IsCanonicalUnit(unit, reg) && i <= j < |inputs|
    requires forall h :: 0 <= h < |inputs| ==> inputs[h].quantity == Amount(TakenAt(h, i, j), unit)
    ensures SumQuantities(QuantitiesOf(inputs), reg) == Ok(Amount(if i == j then 1 else 2, unit))
  {
    hide AddQuantities, NormalizeToken, IsCanonicalUnit, SumQuantitiesFrom;
    assert inputs[0..] == inputs;
    QuantitiesFrom(inputs, 0);
    var rest := QuantitiesOf(inputs[1..]);
    assert ([inputs[0].quantity] + rest)[1..] == rest;
    TakingsAddUp(inputs, i, j, 1, unit, reg);
  }

  /** The balance of small amounts in a canonical unit. */
  lemma {:induction false} SmallCombine(spec: CombineSpec, total: int, o: int, unit: Unit, reg: Registry)
    requires IsCanonicalUnit(unit, reg) && 0 <= total <= 2 && -2 <= o <= total && spec.inputs != []
    requires CheckInputs(spec.inputs, spec, reg).Ok? && spec.outputQuantity == Amount(o, unit)
    requires SumQuantities(QuantitiesOf(spec.inputs), reg) == Ok(Amount(total, unit))
    ensures Combine(spec, reg).Ok? && Combine(spec, reg).value.loss == Amount(total - o, unit)
  {
    hide CheckInputs, SumQuantities, CanonicalAmount, FromCanonical, CmpValue, Sub, NormalizeToken, Scaled, IsCanonicalUnit;
    SmallConverts(total, unit, reg);
    SmallConverts(o, unit, reg);
    SmallConverts(total - o, unit, reg);
    SmallOrder(o, total);
    SmallSums(total - o, o);
  }

  ghost predicate AllCanonical(ids: seq<PassportId>, kinds: Kinds, reg: Registry) {
    forall id :: id in ids ==> id in kinds && IsCanonicalUnit(kinds[id], reg)
  }

  lemma {:induction false} TakingSucceeds(
    ids: seq<PassportId>, i: nat, j: nat, unit: Unit, kinds: Kinds, output: PassportId, reg: Registry)
    requires IsCanonicalUnit(unit, reg) && AllCanonical(ids, kinds, reg) && i <= j < |ids|
    ensures Combine(Taking(ids, i, j, unit, kinds, output), reg).Ok?
  {
    hide CheckInput, Combine, SumQuantities, IsCanonicalUnit;
    var spec := Taking(ids, i, j, unit, kinds, output);
    forall k | 0 <= k < |ids| ensures CheckInput(spec.inputs[k], spec, reg).Ok? {
      assert ids[k] in ids;
      SmallInputPasses(spec.inputs[k], TakenAt(k, i, j), spec, 0, unit, kinds[ids[k]], reg);
    }
    AllPass(spec.inputs, spec, reg);
    TakingsSum(spec.inputs, i, j, unit, reg);
    SmallCombine(spec, if i == j then 1 else 2, 0, unit, reg);
  }

  lemma {:induction false} TakenOnce(id: PassportId, inputs: seq<InputReference>, i: nat, reg: Registry)
    requires i < |inputs| && inputs[i].input == id
    requires forall k :: 0 <= k < |inputs| ==> Canon(inputs[k].quantity, reg) >= 0.0
    ensures TakenFrom(id, inputs, reg) >= Canon(inputs[i].quantity, reg)
    decreases |inputs|
  {
    hide Canon;
    NothingTakenBack(id, inputs[1..], reg);
    if i > 0 {
      TakenOnce(id, inputs[1..], i - 1, reg);
    }
  }

  lemma {:induction false} NothingTakenBack(id: PassportId, inputs: seq<InputReference>, reg: Registry)
    requires forall k :: 0 <= k < |inputs| ==> Canon(inputs[k].quantity, reg) >= 0.0
    ensures TakenFrom(id, inputs, reg) >= 0.0
  {
    hide Canon;
    if inputs != [] {
      NothingTakenBack(id, inputs[1..], reg);
    }
  }

  lemma {:induction false} TakenTwice(id: PassportId, inputs: seq<InputReference>, i: nat, j: nat, reg: Registry)
    requires i < j < |inputs| && inputs[i].input == id && inputs[j].input == id
    requires forall k :: 0 <= k < |inputs| ==> Canon(inputs[k].quantity, reg) >= 0.0
    ensures TakenFrom(id, inputs, reg) >= Canon(inputs[i].quantity, reg) + Canon(inputs[j].quantity, reg)
    decreases |inputs|
  {
    hide Canon;
    if i == 0 {
      TakenOnce(id, inputs[1..], j - 1, reg);
    } else {
      TakenTwice(id, inputs[1..], i - 1, j - 1, reg);
    }
  }

  /** A passport listed twice: a combine that succeeds, and takes the whole of it twice. */
  lemma {:induction false} ListedTwiceIsOverdrawn(
    ids: seq<PassportId>, i: nat, j: nat, unit: Unit, kinds: Kinds, output: PassportId, reg: Registry)
    requires WellFormed(reg) && IsCanonicalUnit(unit, reg) && AllCanonical(ids, kinds, reg)
    requires i < j < |ids| && ids[i] == ids[j]
    ensures var spec := Taking(ids, i, j, unit, kinds, output);
      && InputsOf(spec.inputs) == ids && Combine(spec, reg).Ok? && !Respects(spec, reg)
      && spec.inputs[i].quantity == spec.inputs[j].quantity == Amount(1, unit)
      && spec.available[ids[i]] == Amount(1, kinds[ids[i]])
      && TakenFrom(ids[i], spec.inputs, reg) >= 2.0 * Canon(spec.available[ids[i]], reg) > 0.0
  {
    hide Combine, IsCanonicalUnit, Canon, Scaled, CheckInputs, WellFormed, Commensurable;
    var spec := Taking(ids, i, j, unit, kinds, output);
    assert ids[i] in ids;
    TakingSucceeds(ids, i, j, unit, kinds, output, reg);
    SmallConverts(0, unit, reg);
    SmallConverts(1, unit, reg);
    SmallConverts(1, kinds[ids[i]], reg);
    SmallOrder(0, 1);
    ScaledSign(0, 0);
    TakenTwice(ids[i], spec.inputs, i, j, reg);
    assert InputsOf(spec.inputs) == ids;
    assert ids[i] in InputsOf(spec.inputs);
  }

  /** Only something of another dimension available: a combine that succeeds all the same, and takes it one for one. */
  lemma {:induction false} OtherDimensionAccepted(
    ids: seq<PassportId>, i: nat, unit: Unit, kinds: Kinds, output: PassportId, reg: Registry)
    requires IsCanonicalUnit(unit, reg) && AllCanonical(ids, kinds, reg) && i < |ids|
    requires !Commensurable(Amount(1, kinds[ids[i]]), Amount(1, unit), reg)
    ensures var spec := Taking(ids, i, i, unit, kinds, output);
      && InputsOf(spec.inputs) == ids && Combine(spec, reg).Ok? && !Respects(spec, reg)
      && spec.inputs[i].quantity == Amount(1, unit) && spec.available[ids[i]] == Amount(1, kinds[ids[i]])
  {
    hide Combine, IsCanonicalUnit, Canon, CheckInputs, DefOf;
    var spec := Taking(ids, i, i, unit, kinds, output);
    assert ids[i] in ids;
    TakingSucceeds(ids, i, i, unit, kinds, output, reg);
    assert InputsOf(spec.inputs) == ids;
    assert ids[i] in InputsOf(spec.inputs);
    CommensurableByUnit(Amount(1, kinds[ids[i]]), Amount(1, unit), spec.available[ids[i]], spec.outputQuantity, reg);
  }

  /** Amounts do not matter for that, only units. */
  lemma {:induction false} CommensurableByUnit(a: Quantity, b: Quantity, c: Quantity, d: Quantity, reg: Registry)
    requires a.unit == c.unit && b.unit == d.unit
    ensures Commensurable(a, b, reg) <==> Commensurable(c, d, reg)
  {}

  lemma {:induction false} DuplicatePlaces(ids: seq<PassportId>) returns (i: nat, j: nat)
    requires !Distinct(ids)
    ensures i < j < |ids| && ids[i] == ids[j]
  {
    i, j :| 0 <= i < j < |ids| && ids[i] == ids[j];
  }

  lemma {:induction false} SucceededIsChecked(spec: CombineSpec, reg: Registry)
    requires Combine(spec, reg).Ok?
    ensures CheckInputs(spec.inputs, spec, reg).Ok?
  {
    hide CheckInputs, SumQuantities;
  }

  lemma {:induction false} AllListedAvailable(inputs: seq<InputReference>, spec: CombineSpec, reg: Registry)
    requires WellFormed(reg) && CheckInputs(inputs, spec, reg).Ok?
    ensures forall id :: id in InputsOf(inputs) ==> id in spec.available
  {
    hide Canon, CheckInput, CheckInputs, WellFormed, Known, DefOf;
    AllCheckedExactly(inputs, spec, reg);
    forall id | id in InputsOf(inputs) ensures id in spec.available {
      var k :| 0 <= k < |InputsOf(inputs)| && InputsOf(inputs)[k] == id;
      assert Supported(inputs[k], spec, reg);
    }
  }

  /**
   A successful combine of distinct inputs, in any registry, respects what is available if and only if that is of the
   dimension of the output.
   */
  lemma {:induction false} RespectsExactly(spec: CombineSpec, reg: Registry)
    requires WellFormed(reg) && Combine(spec, reg).Ok? && Distinct(InputsOf(spec.inputs))
    ensures Respects(spec, reg) <==> InDimension(spec, reg)
  {
    hide Combine, Canon, CheckInputs, WellFormed, Commensurable;
    SucceededIsChecked(spec, reg);
    AllListedAvailable(spec.inputs, spec, reg);
    forall id | id in InputsOf(spec.inputs)
      ensures id in spec.available && TakenFrom(id, spec.inputs, reg) <= Canon(spec.available[id], reg)
    {
      DistinctInputsAreAvailable(id, spec.inputs, spec, reg);
    }
  }

  /** A combine of these passports, of each of which something is available in the given unit. */
  ghost predicate Fits(spec: CombineSpec, ids: seq<PassportId>, unit: Unit, kinds: Kinds)
    requires forall id :: id in ids ==> id in kinds
  {
    && InputsOf(spec.inputs) == ids && spec.outputQuantity.unit == unit
    && forall id :: id in ids && id in spec.available ==> spec.available[id].unit == kinds[id]
  }

  /** What a caller can look at: no passport is listed twice, and all is available in units of one dimension. */
  ghost predicate WellListed(ids: seq<PassportId>, unit: Unit, kinds: Kinds, reg: Registry)
    requires forall id :: id in ids ==> id in kinds
  {
    Distinct(ids) && forall id :: id in ids ==> Commensurable(Amount(1, kinds[id]), Amount(1, unit), reg)
  }

  /**
   When availability is respected, for canonical units: no passport is listed twice and all that is available is of the
   dimension of the output, if and only if every successful combine so listed, whatever its amounts, respects it.
   */
  lemma {:induction false} WellListedExactly(ids: seq<PassportId>, unit: Unit, kinds: Kinds, reg: Registry)
    requires WellFormed(reg) && IsCanonicalUnit(unit, reg) && AllCanonical(ids, kinds, reg)
    ensures WellListed(ids, unit, kinds, reg) <==>
            forall spec: CombineSpec :: Fits(spec, ids, unit, kinds) && Combine(spec, reg).Ok? ==> Respects(spec, reg)
  {
    hide Combine, Respects, IsCanonicalUnit, WellFormed, Distinct, Commensurable;
    if WellListed(ids, unit, kinds, reg) {
      forall spec: CombineSpec | Fits(spec, ids, unit, kinds) && Combine(spec, reg).Ok? ensures Respects(spec, reg) {
        forall id | id in ids && id in spec.available ensures Commensurable(spec.available[id], spec.outputQuantity, reg) {
          CommensurableByUnit(Amount(1, kinds[id]), Amount(1, unit), spec.available[id], spec.outputQuantity, reg);
        }
        RespectsExactly(spec, reg);
      }
    } else if !Distinct(ids) {
      var i, j := DuplicatePlaces(ids);
      ListedTwiceIsOverdrawn(ids, i, j, unit, kinds, ids[i], reg);
      assert Fits(Taking(ids, i, j, unit, kinds, ids[i]), ids, unit, kinds);
    } else {
      var id :| id in ids && !Commensurable(Amount(1, kinds[id]), Amount(1, unit), reg);
      var i :| 0 <= i < |ids| && ids[i] == id;
      OtherDimensionAccepted(ids, i, unit, kinds, id, reg);
      assert Fits(Taking(ids, i, i, unit, kinds, id), ids, unit, kinds);
    }
  }

  // ----- a unit of positive factor is not enough

  const TWO_TO_THE_100: int := 0x10_0000_0000_0000_0000_0000_0000

  /** Every unit has the factor (2^100 + 1) / 2^100: positive, and of no use for any amount but zero. */
  ghost predicate ConvertsNothing(reg: Registry) {
    forall key :: key in reg ==> reg[key].factorNum == TWO_TO_THE_100 + 1 && reg[key].factorDen == TWO_TO_THE_100
  }

  lemma {:induction false} TooLargeToScale(x: int)
    requires InI128(x * (TWO_TO_THE_100 + 1)) && TruncMod(x * (TWO_TO_THE_100 + 1), TWO_TO_THE_100) == 0
    ensures x == 0
  {
    var q := TruncDiv(x * (TWO_TO_THE_100 + 1), TWO_TO_THE_100);
    ExactDivision(x * (TWO_TO_THE_100 + 1), TWO_TO_THE_100);
    assert (q - x) * TWO_TO_THE_100 == x;
  }

  lemma {:induction false} OnlyZeroConverts(q: Quantity, reg: Registry)
    requires ConvertsNothing(reg) && CanonicalAmount(q, reg).Ok?
    ensures Canon(q, reg) == 0.0
  {
    hide NormalizeToken, MulRatioExact, Clears, RatioInRange, Scaled, Pow10;
    var num, den := TWO_TO_THE_100 + 1, TWO_TO_THE_100;
    MulRatioSucceedsExactly(q.amount, num, den);
    var j :| 0 <= j <= 9 && FirstToClear(q.amount.mant, num, den, 0, j) && RatioInRange(q.amount.mant, num, j);
    ClearingIsZero(q.amount.mant, j);
    ScaledSign(0, q.amount.exp);
    Splits.RatioOfZero(num, den);
  }

  lemma {:induction false} ClearingIsZero(mant: int, j: nat)
    requires Clears(mant, TWO_TO_THE_100 + 1, TWO_TO_THE_100, j) && RatioInRange(mant, TWO_TO_THE_100 + 1, j)
    ensures mant == 0
  {
    TooLargeToScale(mant * Pow10(j));
    NoZeroFactor(mant, Pow10(j));
  }

  lemma {:induction false} NoZeroFactor(x: int, p: int)
    requires p > 0 && x * p == 0
    ensures x == 0
  {}

  /** In such a registry even duplicates are respected: nothing can be taken at all. */
  lemma {:induction false} NothingToOverdraw(spec: CombineSpec, reg: Registry)
    requires WellFormed(reg) && ConvertsNothing(reg) && Combine(spec, reg).Ok?
    ensures Respects(spec, reg) <==> InDimension(spec, reg)
  {
    hide Combine, Canon, CheckInputs, WellFormed, ConvertsNothing, Commensurable;
    SucceededIsChecked(spec, reg);
    AllTakeNothing(spec.inputs, spec, reg);
    forall id | id in InputsOf(spec.inputs)
      ensures id in spec.available && TakenFrom(id, spec.inputs, reg) <= Canon(spec.available[id], reg)
    {
      var k :| 0 <= k < |InputsOf(spec.inputs)| && InputsOf(spec.inputs)[k] == id;
      assert spec.inputs[k].input == id;
      NothingInAll(id, spec.inputs, reg);
    }
  }

  lemma {:induction false} AllTakeNothing(inputs: seq<InputReference>, spec: CombineSpec, reg: Registry)
    requires ConvertsNothing(reg) && CheckInputs(inputs, spec, reg).Ok?
    ensures forall k :: 0 <= k < |inputs| ==>
              && Canon(inputs[k].quantity, reg) == 0.0
              && inputs[k].input in spec.available && Canon(spec.available[inputs[k].input], reg) == 0.0
  {
    hide ConvertsNothing, CanonicalAmount, Canon, CmpValue, NormalizeToken;
    if inputs != [] {
      OnlyZeroConverts(inputs[0].quantity, reg);
      OnlyZeroConverts(spec.available[inputs[0].input], reg);
      AllTakeNothing(inputs[1..], spec, reg);
    }
  }

  lemma {:induction false} NothingInAll(id: PassportId, inputs: seq<InputReference>, reg: Registry)
    requires forall k :: 0 <= k < |inputs| ==> Canon(inputs[k].quantity, reg) == 0.0
    ensures TakenFrom(id, inputs, reg) == 0.0
  {
    hide Canon;
    if inputs != [] {
      NothingInAll(id, inputs[1..], reg);
    }
  }

  // ----- an output below zero

  /** Nothing is taken, and one unit less than nothing is put out. */
  function BelowZero(id: PassportId, unit: Unit, output: PassportId): CombineSpec {
    var inputs := [InputReference(id, Amount(0, unit), Hashing.ZERO)];
    CombineSpec(output, Amount(-1, unit), inputs, map[id := Amount(1, unit)], [])
  }

  /** An output below zero is accepted, with a loss above all that went in. */
  lemma {:induction false} OutputBelowZeroAccepted(id: PassportId, unit: Unit, output: PassportId, reg: Registry)
    requires WellFormed(reg) && IsCanonicalUnit(unit, reg)
    ensures var spec := BelowZero(id, unit, output);
      && Combine(spec, reg).Ok? && spec.outputQuantity.amount.mant == -1
      && Canon(Combine(spec, reg).value.loss, reg) > TakenCanon(spec.inputs, reg)
  {
    hide CheckInput, Combine, IsCanonicalUnit, Canon, Scaled, AddQuantities, NormalizeToken;
    var spec := BelowZero(id, unit, output);
    SmallInputPasses(spec.inputs[0], 0, spec, -1, unit, unit, reg);
    AllPass(spec.inputs, spec, reg);
    assert spec.inputs[1..] == [];
    assert QuantitiesOf(spec.inputs) == [Amount(0, unit)];
    SmallCombine(spec, 0, -1, unit, reg);
    SmallConverts(-1, unit, reg);
    SmallOrder(-1, 0);
    ScaledSign(0, 0);
    LossWithinInputsUnlessOutputNegative(spec, reg);
  }

  // ----- one registry, spelled out

  const JOULE := Unit("j", UNITSML)

  function KilogramsAndJoules(): Registry {
    map["kg" := UnitDef(KILOGRAM, Mass, 1, 1), "j" := UnitDef(JOULE, Energy, 1, 1)]
  }

  lemma {:induction false} BothAreCanonical()
    ensures WellFormed(KilogramsAndJoules())
    ensures IsCanonicalUnit(KILOGRAM, KilogramsAndJoules()) && IsCanonicalUnit(JOULE, KilogramsAndJoules())
    ensures !Commensurable(Amount(1, JOULE), Amount(1, KILOGRAM), KilogramsAndJoules())
  {
    hide NormalizeToken;
    TokenIsNormal("kg");
    TokenIsNormal("j");
  }

  /**
   Two kilograms are taken out of the one that a passport has; a kilogram is taken where a joule is available; and minus
   one kilogram is made of nothing.
   */
  lemma {:induction false} KilogramsOverdrawn(id: PassportId, output: PassportId)
    ensures var reg := KilogramsAndJoules();
      var twice := Taking([id, id], 0, 1, KILOGRAM, map[id := KILOGRAM], output);
      var other := Taking([id], 0, 0, KILOGRAM, map[id := JOULE], output);
      var below := BelowZero(id, KILOGRAM, output);
      && Combine(twice, reg).Ok? && TakenFrom(id, twice.inputs, reg) > Canon(twice.available[id], reg)
      && Combine(other, reg).Ok? && Distinct(InputsOf(other.inputs)) && !Respects(other, reg)
      && Combine(below, reg).Ok? && Canon(Combine(below, reg).value.loss, reg) > TakenCanon(below.inputs, reg)
  {
    hide Combine, Canon, WellFormed, Commensurable, KilogramsAndJoules, IsCanonicalUnit, TakenFrom, TakenCanon, Respects;
    var reg := KilogramsAndJoules();
    BothAreCanonical();
    ListedTwiceIsOverdrawn([id, id], 0, 1, KILOGRAM, map[id := KILOGRAM], output, reg);
    OtherDimensionAccepted([id], 0, KILOGRAM, map[id := JOULE], output, reg);
    OutputBelowZeroAccepted(id, KILOGRAM, output, reg);
  }
}
