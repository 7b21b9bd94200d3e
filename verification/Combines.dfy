/** Combine, many into one (crates/transform/src/combine.rs): per-input availability and the mass balance. */
module Combines {
  import opened Wrappers
  import opened Digits
  import opened Decimals
  import opened Identifiers
  import opened Normalization
  import opened Quantities
  import opened Hashing
  import Splits

  datatype InputReference = InputReference(input: PassportId, quantity: Quantity, asOfStateHash: Digest)

  /** The attester, quantity and time of a stamp; carried along unchanged. */
  datatype StampContext = StampContext(attester: string, quantity: Quantity, asOf: int)

  datatype CombineSpec = CombineSpec(
    output: PassportId,
    outputQuantity: Quantity,
    inputs: seq<InputReference>,
    available: map<PassportId, Quantity>,
    stampContexts: seq<StampContext>)

  datatype CombineOutcome = CombineOutcome(
    output: PassportId,
    outputQuantity: Quantity,
    totalIn: Quantity,
    loss: Quantity,
    consumed: seq<(PassportId, Quantity)>,
    inheritedStampContexts: seq<StampContext>)

  /** The checks on one input. */
  function CheckInput(input: InputReference, spec: CombineSpec, reg: Registry): Result<(), TransformError> {
    if input.quantity.amount.mant < 0 then Err(OverConsumption(input.input, input.quantity.amount, Decimals.ZERO)) else
      var same :- SameDimension(spec.outputQuantity, input.quantity, reg);
      if !same then Err(DimensionMismatch)
      else if input.input !in spec.available then
        var requested :- CanonicalAmount(input.quantity, reg);
        Err(OverConsumption(input.input, requested, Decimals.ZERO))
      else
        var avail :- CanonicalAmount(spec.available[input.input], reg);
        var requested :- CanonicalAmount(input.quantity, reg);
        var order :- FromModel(CmpValue(requested, avail));
        if order == Greater then Err(OverConsumption(input.input, requested, avail)) else Ok(())
  }

  function CheckInputs(inputs: seq<InputReference>, spec: CombineSpec, reg: Registry): Result<(), TransformError> {
    if inputs == [] then Ok(()) else
      var first :- CheckInput(inputs[0], spec, reg);
      CheckInputs(inputs[1..], spec, reg)
  }

  function QuantitiesOf(inputs: seq<InputReference>): (qs: seq<Quantity>)
    ensures |qs| == |inputs|
  {
    if inputs == [] then [] else [inputs[0].quantity] + QuantitiesOf(inputs[1..])
  }

  function ConsumedBy(inputs: seq<InputReference>): (consumed: seq<(PassportId, Quantity)>)
    ensures |consumed| == |inputs|
    ensures forall i :: 0 <= i < |inputs| ==> consumed[i] == (inputs[i].input, inputs[i].quantity)
  {
    if inputs == [] then [] else [(inputs[0].input, inputs[0].quantity)] + ConsumedBy(inputs[1..])
  }

  function Combine(spec: CombineSpec, reg: Registry): Result<CombineOutcome, TransformError> {
    if spec.inputs == [] then Err(Empty) else
      var checked :- CheckInputs(spec.inputs, spec, reg);
      var totalIn :- SumQuantities(QuantitiesOf(spec.inputs), reg);
      var outCanonical :- CanonicalAmount(spec.outputQuantity, reg);
      var inCanonical :- CanonicalAmount(totalIn, reg);
      var order :- FromModel(CmpValue(outCanonical, inCanonical));
      if order == Greater then Err(NegativeBalance(inCanonical, outCanonical)) else
        var lossCanonical :- FromModel(Sub(inCanonical, outCanonical));
        var loss :- FromCanonical(lossCanonical, spec.outputQuantity.unit, reg);
        Ok(CombineOutcome(
             spec.output, spec.outputQuantity, totalIn, loss, ConsumedBy(spec.inputs), spec.stampContexts))
  }

  method ExecuteCombine(spec: CombineSpec, reg: Registry) returns (r: Result<CombineOutcome, TransformError>)
    ensures r == Combine(spec, reg)
  {
    if spec.inputs == [] {
      return Err(Empty);
    }
    for i := 0 to |spec.inputs|
      invariant CheckInputs(spec.inputs[i..], spec, reg) == CheckInputs(spec.inputs, spec, reg)
    {
      var input := spec.inputs[i];
      assert spec.inputs[i..][1..] == spec.inputs[i + 1..];
      if input.quantity.amount.mant < 0 {
        return Err(OverConsumption(input.input, input.quantity.amount, Decimals.ZERO));
      }
      var same :- SameDimension(spec.outputQuantity, input.quantity, reg);
      if !same {
        return Err(DimensionMismatch);
      }
      if input.input !in spec.available {
        var requested :- CanonicalAmount(input.quantity, reg);
        return Err(OverConsumption(input.input, requested, Decimals.ZERO));
      }
      var avail :- CanonicalAmount(spec.available[input.input], reg);
      var requested :- CanonicalAmount(input.quantity, reg);
      var order :- FromModel(CmpValue(requested, avail));
      if order == Greater {
        return Err(OverConsumption(input.input, requested, avail));
      }
    }
    var totalIn := Quantities.Sum(QuantitiesOf(spec.inputs), reg);
    if totalIn.Err? {
      return Err(totalIn.error);
    }
    var outCanonical :- CanonicalAmount(spec.outputQuantity, reg);
    var inCanonical :- CanonicalAmount(totalIn.value, reg);
    var order :- FromModel(CmpValue(outCanonical, inCanonical));
    if order == Greater {
      return Err(NegativeBalance(inCanonical, outCanonical));
    }
    var lossCanonical :- FromModel(Sub(inCanonical, outCanonical));
    var loss :- FromCanonical(lossCanonical, spec.outputQuantity.unit, reg);
    return Ok(CombineOutcome(
      spec.output, spec.outputQuantity, totalIn.value, loss, ConsumedBy(spec.inputs), spec.stampContexts));
  }

  /**
   What an accepted input satisfies: it is of the dimension of the output, and as a number of canonical units at most what
   is available, whatever that is a number of.
   */
  ghost predicate Supported(input: InputReference, spec: CombineSpec, reg: Registry) {
    && input.quantity.amount.mant >= 0 && Commensurable(input.quantity, spec.outputQuantity, reg)
    && input.input in spec.available
    && Canonicalizes(input.quantity, reg) && Canonicalizes(spec.available[input.input], reg)
    && 0.0 <= Canon(input.quantity, reg) <= Canon(spec.available[input.input], reg)
  }

  /** When an input is accepted. */
  lemma {:induction false} CheckedExactly(input: InputReference, spec: CombineSpec, reg: Registry)
    requires WellFormed(reg)
    ensures CheckInput(input, spec, reg).Ok? <==> Supported(input, spec, reg)
  {
    hide CanonicalAmount, Canon, Canonicalizes, Decimals.Value, CmpValue, NormalizeToken;
    var q := input.quantity;
    CanonicalizesExactly(q, reg);
    if input.input in spec.available {
      CanonicalizesExactly(spec.available[input.input], reg);
    }
    if q.amount.mant >= 0 && input.input in spec.available
       && Canonicalizes(q, reg) && Canonicalizes(spec.available[input.input], reg) {
      var requested, avail := CanonicalAmount(q, reg).value, CanonicalAmount(spec.available[input.input], reg).value;
      Splits.CanonNonNegative(q, reg);
      CanonicalExact(q, reg);
      CanonicalExact(spec.available[input.input], reg);
      NonNegativeValue(requested);
      CmpValueIsNumeric(requested, avail);
    }
  }

  lemma {:induction false} NonNegativeValue(d: Decimal)
    ensures Decimals.Value(d) >= 0 ==> d.mant >= 0
  {
    hide Scaled;
    ScaledSign(d.mant, d.exp);
  }

  lemma {:induction false} AllCheckedExactly(inputs: seq<InputReference>, spec: CombineSpec, reg: Registry)
    requires WellFormed(reg)
    ensures CheckInputs(inputs, spec, reg).Ok? <==> forall i :: 0 <= i < |inputs| ==> Supported(inputs[i], spec, reg)
  {
    hide CheckInput, Supported;
    if inputs != [] {
      CheckedExactly(inputs[0], spec, reg);
      AllCheckedExactly(inputs[1..], spec, reg);
      assert forall i :: 1 <= i < |inputs| ==> inputs[i] == inputs[1..][i - 1];
    }
  }

  /** Availability is checked entry by entry: entries of one passport are never added up. */
  lemma {:induction false} ChecksAreIndependent(
    a: seq<InputReference>, b: seq<InputReference>, spec: CombineSpec, reg: Registry)
    ensures CheckInputs(a + b, spec, reg).Ok? <==> CheckInputs(a, spec, reg).Ok? && CheckInputs(b, spec, reg).Ok?
  {
    hide CheckInput;
    if a == [] {
      assert a + b == b;
    } else {
      ChecksAreIndependent(a[1..], b, spec, reg);
      assert (a + b)[1..] == a[1..] + b;
    }
  }

  function TakenCanon(inputs: seq<InputReference>, reg: Registry): real {
    if inputs == [] then 0.0 else Canon(inputs[0].quantity, reg) + TakenCanon(inputs[1..], reg)
  }

  lemma {:induction false} TakenIsTotal(inputs: seq<InputReference>, reg: Registry)
    ensures TotalCanon(QuantitiesOf(inputs), reg) == TakenCanon(inputs, reg)
  {
    hide Canon;
    if inputs != [] {
      TakenIsTotal(inputs[1..], reg);
      assert QuantitiesOf(inputs)[1..] == QuantitiesOf(inputs[1..]);
    }
  }

  /** A successful combine balances exactly: input is output plus loss. No loss is negative, every input is accepted. */
  lemma {:induction false} CombineBalances(spec: CombineSpec, reg: Registry)
    requires WellFormed(reg) && Combine(spec, reg).Ok?
    ensures var o := Combine(spec, reg).value;
      && o.output == spec.output && o.outputQuantity == spec.outputQuantity
      && o.loss.unit == spec.outputQuantity.unit && spec.inputs != []
      && o.totalIn.unit == spec.inputs[0].quantity.unit
      && Canon(o.totalIn, reg) == TakenCanon(spec.inputs, reg)
      && TakenCanon(spec.inputs, reg) == Canon(spec.outputQuantity, reg) + Canon(o.loss, reg)
      && Canon(o.loss, reg) >= 0.0
      && o.inheritedStampContexts == spec.stampContexts && |o.consumed| == |spec.inputs|
      && forall i :: 0 <= i < |spec.inputs| ==> o.consumed[i] == (spec.inputs[i].input, spec.inputs[i].quantity)
    ensures forall i :: 0 <= i < |spec.inputs| ==> Supported(spec.inputs[i], spec, reg)
  {
    hide CanonicalAmount, CheckInputs, SumQuantities, FromCanonical, Canon, Decimals.Value, CmpValue, Sub, NormalizeToken,
      Supported, ConsumedBy, TakenCanon, TotalCanon;
    var totalIn := SumQuantities(QuantitiesOf(spec.inputs), reg).value;
    var out := CanonicalAmount(spec.outputQuantity, reg).value;
    var inn := CanonicalAmount(totalIn, reg).value;
    AllCheckedExactly(spec.inputs, spec, reg);
    SumQuantitiesExact(QuantitiesOf(spec.inputs), reg);
    TakenIsTotal(spec.inputs, reg);
    CanonicalExact(spec.outputQuantity, reg);
    CanonicalExact(totalIn, reg);
    CmpValueIsNumeric(out, inn);
    SubExact(inn, out);
    FromCanonicalExact(Sub(inn, out).value, spec.outputQuantity.unit, reg);
    assert QuantitiesOf(spec.inputs)[0] == spec.inputs[0].quantity;
  }

  /** Total and output canonicalize, the output is at most the total, and their difference fits the unit of the output. */
  ghost predicate CanBalance(totalIn: Quantity, output: Quantity, reg: Registry) {
    && Canonicalizes(totalIn, reg) && Canonicalizes(output, reg) && Canon(output, reg) <= Canon(totalIn, reg)
    && var inn, out := CanonicalOr(totalIn, reg, Decimals.ZERO), CanonicalOr(output, reg, Decimals.ZERO);
      && Subtractable(inn, out)
      && forall loss :: Sub(inn, out) == Ok(loss) ==> Expressible(loss, output.unit, reg)
  }

  /** When a combine succeeds: every input is accepted, all of them can be added up in their order, and the rest fits. */
  lemma {:induction false} CombineSucceedsExactly(spec: CombineSpec, reg: Registry)
    requires WellFormed(reg)
    ensures Combine(spec, reg).Ok? <==>
            && (forall i :: 0 <= i < |spec.inputs| ==> Supported(spec.inputs[i], spec, reg))
            && CanSum(QuantitiesOf(spec.inputs), reg)
            && SumQuantities(QuantitiesOf(spec.inputs), reg).Ok?
            && CanBalance(SumQuantities(QuantitiesOf(spec.inputs), reg).value, spec.outputQuantity, reg)
  {
    hide *;
    AllCheckedExactly(spec.inputs, spec, reg);
    SumSucceedsExactly(QuantitiesOf(spec.inputs), reg);
    CombineSteps(spec, reg);
    if spec.inputs == [] {
      NothingToSum(reg);
    } else if (forall i :: 0 <= i < |spec.inputs| ==> Supported(spec.inputs[i], spec, reg))
              && SumQuantities(QuantitiesOf(spec.inputs), reg).Ok? {
      AllTakenNonNegative(spec.inputs, spec, reg);
      TakenIsTotal(spec.inputs, reg);
      SumQuantitiesExact(QuantitiesOf(spec.inputs), reg);
      BalancesExactly(SumQuantities(QuantitiesOf(spec.inputs), reg).value, spec.outputQuantity, reg);
    }
  }

  lemma {:induction false} NothingToSum(reg: Registry)
    ensures !CanSum([], reg) && QuantitiesOf([]) == []
  {}

  /** What a combine does with its total. */
  function Balance(totalIn: Quantity, output: Quantity, reg: Registry): Result<Quantity, TransformError> {
    var out :- CanonicalAmount(output, reg);
    var inn :- CanonicalAmount(totalIn, reg);
    var order :- FromModel(CmpValue(out, inn));
    if order == Greater then Err(NegativeBalance(inn, out)) else
      var loss :- FromModel(Sub(inn, out));
      FromCanonical(loss, output.unit, reg)
  }

  lemma {:induction false} CombineSteps(spec: CombineSpec, reg: Registry)
    ensures var total := SumQuantities(QuantitiesOf(spec.inputs), reg);
      Combine(spec, reg).Ok? <==>
        && spec.inputs != [] && CheckInputs(spec.inputs, spec, reg).Ok? && total.Ok?
        && Balance(total.value, spec.outputQuantity, reg).Ok?
  {
    hide CanonicalAmount, CheckInputs, SumQuantities, FromCanonical, CmpValue, Sub, QuantitiesOf, ConsumedBy;
  }

  lemma {:induction false} AllTakenNonNegative(inputs: seq<InputReference>, spec: CombineSpec, reg: Registry)
    requires forall i :: 0 <= i < |inputs| ==> Supported(inputs[i], spec, reg)
    ensures TakenCanon(inputs, reg) >= 0.0
  {
    hide Canon, Canonicalizes, Commensurable;
    if inputs != [] {
      assert Supported(inputs[0], spec, reg);
      AllTakenNonNegative(inputs[1..], spec, reg);
    }
  }

  lemma {:induction false} BalancesExactly(totalIn: Quantity, output: Quantity, reg: Registry)
    requires WellFormed(reg) && Canon(totalIn, reg) >= 0.0
    ensures Balance(totalIn, output, reg).Ok? <==> CanBalance(totalIn, output, reg)
  {
    hide CanonicalAmount, FromCanonical, Canonicalizes, Expressible, Sub, Subtractable, Canon, Decimals.Value, CmpValue,
      NormalizeToken, WellFormed;
    CanonicalizesExactly(totalIn, reg);
    CanonicalizesExactly(output, reg);
    if CanonicalAmount(totalIn, reg).Ok? && CanonicalAmount(output, reg).Ok? {
      var inn, out := CanonicalAmount(totalIn, reg).value, CanonicalAmount(output, reg).value;
      CanonicalExact(totalIn, reg);
      CanonicalExact(output, reg);
      NonNegativeValue(inn);
      CmpValueIsNumeric(out, inn);
      SubSucceedsExactly(inn, out);
      if Sub(inn, out).Ok? {
        ExpressibleExactly(Sub(inn, out).value, output.unit, reg);
      }
    }
  }

  // ----- what is refused, and with which amounts

  /** The decimal is the canonical amount. */
  ghost predicate IsCanonOf(d: Decimal, q: Quantity, reg: Registry) {
    Value(d) as real == Canon(q, reg)
  }

  lemma {:induction false} FirstRefusal(inputs: seq<InputReference>, i: nat, spec: CombineSpec, reg: Registry)
    requires WellFormed(reg) && i < |inputs| && CheckInput(inputs[i], spec, reg).Err?
    requires forall j :: 0 <= j < i ==> Supported(inputs[j], spec, reg)
    ensures CheckInputs(inputs, spec, reg) == Err(CheckInput(inputs[i], spec, reg).error)
    decreases i
  {
    hide CheckInput, Supported;
    if i > 0 {
      CheckedExactly(inputs[0], spec, reg);
      assert forall j :: 0 <= j < i - 1 ==> inputs[1..][j] == inputs[j + 1];
      FirstRefusal(inputs[1..], i - 1, spec, reg);
    }
  }

  /** The first input that asks for more than is available is refused, with what it asks for and what there is. */
  lemma {:induction false} OverConsumptionRefused(spec: CombineSpec, i: nat, reg: Registry)
    requires WellFormed(reg) && i < |spec.inputs| && forall j :: 0 <= j < i ==> Supported(spec.inputs[j], spec, reg)
    requires spec.inputs[i].quantity.amount.mant >= 0 && Canonicalizes(spec.inputs[i].quantity, reg)
    requires Commensurable(spec.inputs[i].quantity, spec.outputQuantity, reg)
    requires spec.inputs[i].input in spec.available ==>
               var avail := spec.available[spec.inputs[i].input];
               Canonicalizes(avail, reg) && Canon(spec.inputs[i].quantity, reg) > Canon(avail, reg)
    ensures exists requested: Decimal, avail: Decimal ::
              && Combine(spec, reg) == Err(OverConsumption(spec.inputs[i].input, requested, avail))
              && IsCanonOf(requested, spec.inputs[i].quantity, reg)
              && if spec.inputs[i].input in spec.available then IsCanonOf(avail, spec.available[spec.inputs[i].input], reg)
                 else avail == Decimals.ZERO
  {
    hide CanonicalAmount, Canonicalizes, Canon, Decimals.Value, CmpValue, NormalizeToken, CheckInputs, Supported, SumQuantities,
      FromCanonical, Sub;
    var input := spec.inputs[i];
    CanonicalizesExactly(input.quantity, reg);
    CanonicalExact(input.quantity, reg);
    var requested := CanonicalAmount(input.quantity, reg).value;
    Splits.CanonNonNegative(input.quantity, reg);
    NonNegativeValue(requested);
    var avail := Decimals.ZERO;
    if input.input in spec.available {
      CanonicalizesExactly(spec.available[input.input], reg);
      CanonicalExact(spec.available[input.input], reg);
      avail := CanonicalAmount(spec.available[input.input], reg).value;
      CmpValueIsNumeric(requested, avail);
    }
    assert CheckInput(input, spec, reg) == Err(OverConsumption(input.input, requested, avail));
    FirstRefusal(spec.inputs, i, spec, reg);
    assert Combine(spec, reg) == Err(OverConsumption(input.input, requested, avail));
  }

  /** An output above all that goes in is refused, with both amounts. */
  lemma {:induction false} NegativeBalanceRefused(spec: CombineSpec, reg: Registry)
    requires WellFormed(reg) && (forall i :: 0 <= i < |spec.inputs| ==> Supported(spec.inputs[i], spec, reg))
    requires SumQuantities(QuantitiesOf(spec.inputs), reg).Ok? && Canonicalizes(spec.outputQuantity, reg)
    requires Canonicalizes(SumQuantities(QuantitiesOf(spec.inputs), reg).value, reg)
    requires Canon(spec.outputQuantity, reg) > TakenCanon(spec.inputs, reg)
    ensures exists inn: Decimal, out: Decimal ::
              && Combine(spec, reg) == Err(NegativeBalance(inn, out))
              && Value(inn) as real == TakenCanon(spec.inputs, reg) && IsCanonOf(out, spec.outputQuantity, reg)
  {
    hide CanonicalAmount, Canonicalizes, Canon, Decimals.Value, CmpValue, NormalizeToken, CheckInputs, Supported, SumQuantities,
      FromCanonical, Sub, TakenCanon, TotalCanon;
    AllCheckedExactly(spec.inputs, spec, reg);
    TakenIsTotal(spec.inputs, reg);
    SumQuantitiesExact(QuantitiesOf(spec.inputs), reg);
    AllTakenNonNegative(spec.inputs, spec, reg);
    var totalIn := SumQuantities(QuantitiesOf(spec.inputs), reg).value;
    CanonicalizesExactly(totalIn, reg);
    CanonicalizesExactly(spec.outputQuantity, reg);
    CanonicalExact(totalIn, reg);
    CanonicalExact(spec.outputQuantity, reg);
    var inn, out := CanonicalAmount(totalIn, reg).value, CanonicalAmount(spec.outputQuantity, reg).value;
    NonNegativeValue(inn);
    CmpValueIsNumeric(out, inn);
    assert Combine(spec, reg) == Err(NegativeBalance(inn, out));
  }
}
