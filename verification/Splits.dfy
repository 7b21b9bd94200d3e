/** Split, one into many (crates/transform/src/split.rs): carve-outs and the remainder left with the parent. */
module Splits {
  import opened Wrappers
  import opened Digits
  import opened Decimals
  import opened Identifiers
  import opened Normalization
  import opened Quantities

  datatype CarveOut = CarveOut(child: PassportId, quantity: Quantity)

  datatype SplitSpec = SplitSpec(parent: PassportId, parentAvailable: Quantity, carveOuts: seq<CarveOut>)

  datatype SplitOutcome = SplitOutcome(carveOuts: seq<CarveOut>, remainder: Quantity, parentConsumed: bool)

  /** Adds the canonical amounts of the carve-outs still to come to the total so far. */
  function CarveTotal(total: Decimal, carves: seq<CarveOut>, spec: SplitSpec, parentCanonical: Decimal, reg: Registry)
    : Result<Decimal, TransformError>
    decreases |carves|
  {
    if carves == [] then Ok(total)
    else if carves[0].quantity.amount.mant < 0 then Err(OverCarve(carves[0].quantity.amount, parentCanonical))
    else
      var same :- SameDimension(spec.parentAvailable, carves[0].quantity, reg);
      if !same then Err(DimensionMismatch) else
        var amount :- CanonicalAmount(carves[0].quantity, reg);
        var next :- FromModel(Add(total, amount));
        CarveTotal(next, carves[1..], spec, parentCanonical, reg)
  }

  function Split(spec: SplitSpec, reg: Registry): Result<SplitOutcome, TransformError> {
    if spec.carveOuts == [] then Err(Empty) else
      var parentCanonical :- CanonicalAmount(spec.parentAvailable, reg);
      var total :- CarveTotal(ZERO, spec.carveOuts, spec, parentCanonical, reg);
      var order :- FromModel(CmpValue(total, parentCanonical));
      if order == Greater then Err(OverCarve(total, parentCanonical)) else
        var rest :- FromModel(Sub(parentCanonical, total));
        var remainder :- FromCanonical(rest, spec.parentAvailable.unit, reg);
        Ok(SplitOutcome(spec.carveOuts, remainder, remainder.IsZero()))
  }

  method ExecuteSplit(spec: SplitSpec, reg: Registry) returns (r: Result<SplitOutcome, TransformError>)
    ensures r == Split(spec, reg)
  {
    if spec.carveOuts == [] {
      return Err(Empty);
    }
    var parentCanonical :- CanonicalAmount(spec.parentAvailable, reg);
    var total: Decimal := ZERO;
    ghost var whole := CarveTotal(ZERO, spec.carveOuts, spec, parentCanonical, reg);
    for i := 0 to |spec.carveOuts|
      invariant CarveTotal(total, spec.carveOuts[i..], spec, parentCanonical, reg) == whole
    {
      var carve := spec.carveOuts[i];
      assert spec.carveOuts[i..][1..] == spec.carveOuts[i + 1..];
      if carve.quantity.amount.mant < 0 {
        return Err(OverCarve(carve.quantity.amount, parentCanonical));
      }
      var same :- SameDimension(spec.parentAvailable, carve.quantity, reg);
      if !same {
        return Err(DimensionMismatch);
      }
      var amount :- CanonicalAmount(carve.quantity, reg);
      total :- FromModel(Add(total, amount));
    }
    var order :- FromModel(CmpValue(total, parentCanonical));
    if order == Greater {
      return Err(OverCarve(total, parentCanonical));
    }
    var rest :- FromModel(Sub(parentCanonical, total));
    var remainder :- FromCanonical(rest, spec.parentAvailable.unit, reg);
    return Ok(SplitOutcome(spec.carveOuts, remainder, remainder.IsZero()));
  }

  function CarvedCanon(carves: seq<CarveOut>, reg: Registry): real {
    if carves == [] then 0.0 else Canon(carves[0].quantity, reg) + CarvedCanon(carves[1..], reg)
  }

  lemma {:induction false} CanonNonNegative(q: Quantity, reg: Registry)
    requires WellFormed(reg) && q.amount.mant >= 0
    ensures Canon(q, reg) >= 0.0
  {
    hide Scaled, NormalizeToken;
    ScaledSign(q.amount.mant, q.amount.exp);
    if Known(q, reg) {
      RatioSign(Decimals.Value(q.amount), DefOf(q, reg).factorNum, DefOf(q, reg).factorDen);
    }
  }

  lemma {:induction false} RatioSign(v: int, n: int, d: int)
    requires v >= 0 && n >= 0 && d > 0
    ensures Ratio(v, n, d) >= 0.0
  {
    assert v as real * n as real >= 0.0;
  }

  /** What the loop accepts: no carve-out is negative, all are of the parent's dimension, and the total is exact. */
  lemma {:induction false} CarveTotalExact(
    total: Decimal, carves: seq<CarveOut>, spec: SplitSpec, parentCanonical: Decimal, reg: Registry)
    requires WellFormed(reg) && CarveTotal(total, carves, spec, parentCanonical, reg).Ok?
    ensures Value(CarveTotal(total, carves, spec, parentCanonical, reg).value) as real
            == Value(total) as real + CarvedCanon(carves, reg)
    ensures forall i :: 0 <= i < |carves| ==>
              && Known(spec.parentAvailable, reg) && Known(carves[i].quantity, reg)
              && DefOf(carves[i].quantity, reg).dimension == DefOf(spec.parentAvailable, reg).dimension
              && Canon(carves[i].quantity, reg) >= 0.0
    decreases |carves|
  {
    hide CanonicalAmount, Canon, Decimals.Value, Add, NormalizeToken;
    if carves != [] {
      var amount := CanonicalAmount(carves[0].quantity, reg).value;
      CanonicalExact(carves[0].quantity, reg);
      AddExact(total, amount);
      CanonNonNegative(carves[0].quantity, reg);
      CarveTotalExact(Add(total, amount).value, carves[1..], spec, parentCanonical, reg);
    }
  }

  /**
   A successful split is exact: what is carved out and the remainder make up the parent, neither is negative,
   and the parent is consumed exactly when nothing remains.
   */
  lemma {:induction false} SplitConserves(spec: SplitSpec, reg: Registry)
    requires WellFormed(reg) && Split(spec, reg).Ok?
    ensures var o := Split(spec, reg).value;
      && o.carveOuts == spec.carveOuts && o.remainder.unit == spec.parentAvailable.unit
      && Known(spec.parentAvailable, reg)
      && Canon(spec.parentAvailable, reg) == CarvedCanon(spec.carveOuts, reg) + Canon(o.remainder, reg)
      && Canon(o.remainder, reg) >= 0.0
      && (o.parentConsumed <==> CarvedCanon(spec.carveOuts, reg) == Canon(spec.parentAvailable, reg))
    ensures forall i :: 0 <= i < |spec.carveOuts| ==>
              && Known(spec.carveOuts[i].quantity, reg) && Canon(spec.carveOuts[i].quantity, reg) >= 0.0
              && DefOf(spec.carveOuts[i].quantity, reg).dimension == DefOf(spec.parentAvailable, reg).dimension
  {
    hide CanonicalAmount, CarveTotal, FromCanonical, Canon, Decimals.Value, CmpValue, Sub, NormalizeToken;
    var p := CanonicalAmount(spec.parentAvailable, reg).value;
    var total := CarveTotal(ZERO, spec.carveOuts, spec, p, reg).value;
    var o := Split(spec, reg).value;
    CanonicalExact(spec.parentAvailable, reg);
    CarveTotalExact(ZERO, spec.carveOuts, spec, p, reg);
    ScaledSign(0, 0);
    ValueOfZero();
    CmpValueIsNumeric(total, p);
    SubExact(p, total);
    FromCanonicalExact(Sub(p, total).value, spec.parentAvailable.unit, reg);
    ZeroExactlyIfCanonZero(o.remainder, reg);
  }

  lemma {:induction false} ValueOfZero()
    ensures Value(ZERO) == 0
  {}

  lemma {:induction false} ZeroExactlyIfCanonZero(q: Quantity, reg: Registry)
    requires WellFormed(reg) && Known(q, reg) && DefOf(q, reg).factorNum > 0
    ensures q.IsZero() <==> Canon(q, reg) == 0.0
  {
    hide Scaled, Ratio, NormalizeToken;
    ScaledSign(q.amount.mant, q.amount.exp);
    var def := DefOf(q, reg);
    assert Ratio(0, def.factorNum, def.factorDen) == 0.0 by { RatioOfZero(def.factorNum, def.factorDen); }
    if Canon(q, reg) == 0.0 {
      RatioInjective(Decimals.Value(q.amount), 0, def.factorNum, def.factorDen);
    }
  }

  lemma {:induction false} RatioOfZero(n: int, d: int)
    requires d != 0
    ensures Ratio(0, n, d) == 0.0
  {}

  // ----- when a split succeeds

  function CarvedQuantities(carves: seq<CarveOut>): (qs: seq<Quantity>)
    ensures |qs| == |carves| && forall i :: 0 <= i < |qs| ==> qs[i] == carves[i].quantity
  {
    seq(|carves|, i requires 0 <= i < |carves| => carves[i].quantity)
  }

  /** What can be carved out: it is not negative, of the dimension of the parent, and canonicalizes. */
  ghost predicate Carvable(carve: CarveOut, parent: Quantity, reg: Registry) {
    carve.quantity.amount.mant >= 0 && Commensurable(carve.quantity, parent, reg) && Canonicalizes(carve.quantity, reg)
  }

  /** All of it can be carved out, and the canonical amounts can be added up in their order. */
  ghost predicate AllCarvable(spec: SplitSpec, reg: Registry) {
    && (forall i :: 0 <= i < |spec.carveOuts| ==> Carvable(spec.carveOuts[i], spec.parentAvailable, reg))
    && CanTotal(ZERO, CanonicalAmounts(CarvedQuantities(spec.carveOuts), reg))
  }

  /** The canonical total of the carve-outs. */
  function CarvedTotal(spec: SplitSpec, reg: Registry): Decimal {
    var r := SumFrom(ZERO, CanonicalAmounts(CarvedQuantities(spec.carveOuts), reg));
    if r.Ok? then r.value else ZERO
  }

  lemma {:induction false} CarveTotalIsSum(
    total: Decimal, carves: seq<CarveOut>, spec: SplitSpec, parentCanonical: Decimal, reg: Registry)
    ensures var r := CarveTotal(total, carves, spec, parentCanonical, reg);
      var s := SumFrom(total, CanonicalAmounts(CarvedQuantities(carves), reg));
      && (r.Ok? <==> (forall i :: 0 <= i < |carves| ==> Carvable(carves[i], spec.parentAvailable, reg)) && s.Ok?)
      && (r.Ok? ==> r.value == s.value)
    decreases |carves|
  {
    hide CanonicalAmount, Canonicalizes, Add, NormalizeToken;
    if carves != [] {
      var q := carves[0].quantity;
      CanonicalizesExactly(q, reg);
      assert CarvedQuantities(carves)[1..] == CarvedQuantities(carves[1..]);
      assert forall i :: 1 <= i < |carves| ==> carves[i] == carves[1..][i - 1];
      if CanonicalAmount(q, reg).Ok? && Add(total, CanonicalAmount(q, reg).value).Ok? {
        CarveTotalIsSum(Add(total, CanonicalAmount(q, reg).value).value, carves[1..], spec, parentCanonical, reg);
      }
    }
  }

  /** If all can be carved out, the total is the exact sum, and not negative. */
  lemma {:induction false} CarvedTotalExact(spec: SplitSpec, parentCanonical: Decimal, reg: Registry)
    requires WellFormed(reg)
    ensures CarveTotal(ZERO, spec.carveOuts, spec, parentCanonical, reg).Ok? <==> AllCarvable(spec, reg)
    ensures AllCarvable(spec, reg) ==>
              && CarveTotal(ZERO, spec.carveOuts, spec, parentCanonical, reg) == Ok(CarvedTotal(spec, reg))
              && Value(CarvedTotal(spec, reg)) as real == CarvedCanon(spec.carveOuts, reg)
              && CarvedTotal(spec, reg).mant >= 0
  {
    hide CarveTotal, Canon, CanTotal, Carvable, SumFrom, Decimals.Value;
    CarveTotalIsSum(ZERO, spec.carveOuts, spec, parentCanonical, reg);
    TotalSucceedsExactly(ZERO, CanonicalAmounts(CarvedQuantities(spec.carveOuts), reg));
    if AllCarvable(spec, reg) {
      CarveTotalExact(ZERO, spec.carveOuts, spec, parentCanonical, reg);
      ValueOfZero();
      CarvedNonNegative(spec.carveOuts, reg);
      TotalNotNegative(CarvedTotal(spec, reg));
    }
  }

  /** What is left of the parent fits, and can be expressed in its unit. */
  ghost predicate CanLeave(spec: SplitSpec, reg: Registry) {
    var p, total := CanonicalOr(spec.parentAvailable, reg, ZERO), CarvedTotal(spec, reg);
    && Subtractable(p, total)
    && forall rest :: Sub(p, total) == Ok(rest) ==> Expressible(rest, spec.parentAvailable.unit, reg)
  }

  /** When a split succeeds: all can be carved out, it is at most the parent, and what is left can be expressed. */
  lemma {:induction false} SplitSucceedsExactly(spec: SplitSpec, reg: Registry)
    requires WellFormed(reg)
    ensures Split(spec, reg).Ok? <==>
            && spec.carveOuts != [] && Canonicalizes(spec.parentAvailable, reg) && AllCarvable(spec, reg)
            && CarvedCanon(spec.carveOuts, reg) <= Canon(spec.parentAvailable, reg) && CanLeave(spec, reg)
  {
    hide CanonicalAmount, Canonicalizes, CarveTotal, AllCarvable, CarvedTotal, FromCanonical, Expressible, Canon, CarvedCanon,
      Decimals.Value, CmpValue, Sub, Subtractable, NormalizeToken, WellFormed;
    CanonicalizesExactly(spec.parentAvailable, reg);
    if CanonicalAmount(spec.parentAvailable, reg).Ok? {
      var p, total := CanonicalAmount(spec.parentAvailable, reg).value, CarvedTotal(spec, reg);
      CanonicalExact(spec.parentAvailable, reg);
      CarvedTotalExact(spec, p, reg);
      if AllCarvable(spec, reg) {
        CmpValueIsNumeric(total, p);
        SubSucceedsExactly(p, total);
        if Sub(p, total).Ok? {
          ExpressibleExactly(Sub(p, total).value, spec.parentAvailable.unit, reg);
        }
      }
    }
  }

  lemma {:induction false} CarveTotalFrom(
    total: Decimal, carves: seq<CarveOut>, i: nat, spec: SplitSpec, parentCanonical: Decimal, reg: Registry)
    requires i <= |carves| && CarveTotal(total, carves[..i], spec, parentCanonical, reg).Ok?
    ensures var sofar := CarveTotal(total, carves[..i], spec, parentCanonical, reg).value;
      CarveTotal(total, carves, spec, parentCanonical, reg) == CarveTotal(sofar, carves[i..], spec, parentCanonical, reg)
    decreases i
  {
    hide CanonicalAmount, Add, NormalizeToken;
    if i == 0 {
      assert carves[..0] == [] && carves[0..] == carves;
    } else {
      assert carves[..i][1..] == carves[1..][..i - 1] && carves[1..][i - 1..] == carves[i..];
      var next := Add(total, CanonicalAmount(carves[0].quantity, reg).value).value;
      CarveTotalFrom(next, carves[1..], i - 1, spec, parentCanonical, reg);
    }
  }

  /** The first carve-out that is negative or of another dimension is refused as such. */
  lemma {:induction false} CarveRefused(spec: SplitSpec, i: nat, reg: Registry)
    requires WellFormed(reg) && i < |spec.carveOuts| && Canonicalizes(spec.parentAvailable, reg)
    requires AllCarvable(spec.(carveOuts := spec.carveOuts[..i]), reg)
    ensures var q := spec.carveOuts[i].quantity;
      && (q.amount.mant < 0 ==>
            exists p: Decimal ::
              Split(spec, reg) == Err(OverCarve(q.amount, p)) && Value(p) as real == Canon(spec.parentAvailable, reg))
      && (q.amount.mant >= 0 && Known(q, reg) && !Commensurable(q, spec.parentAvailable, reg) ==>
            Split(spec, reg) == Err(DimensionMismatch))
      && (q.amount.mant >= 0 && !Known(q, reg) ==> Split(spec, reg) == Err(UnknownUnit(q.unit.uom)))
  {
    hide CanonicalAmount, Canonicalizes, CarveTotal, AllCarvable, FromCanonical, Canon, Decimals.Value, CmpValue, Sub, Add,
      NormalizeToken, WellFormed;
    CanonicalizesExactly(spec.parentAvailable, reg);
    CanonicalExact(spec.parentAvailable, reg);
    var p := CanonicalAmount(spec.parentAvailable, reg).value;
    var before := spec.(carveOuts := spec.carveOuts[..i]);
    CarvedTotalExact(before, p, reg);
    SameParent(ZERO, before.carveOuts, before, spec, p, reg);
    CarveTotalFrom(ZERO, spec.carveOuts, i, spec, p, reg);
    var sofar := CarveTotal(ZERO, before.carveOuts, spec, p, reg).value;
    RefusedFirst(sofar, spec.carveOuts[i..], spec, p, reg);
    if spec.carveOuts[i].quantity.amount.mant < 0 {
      assert Split(spec, reg) == Err(OverCarve(spec.carveOuts[i].quantity.amount, p));
    }
  }

  lemma {:induction false} SameParent(
    total: Decimal, carves: seq<CarveOut>, a: SplitSpec, b: SplitSpec, parentCanonical: Decimal, reg: Registry)
    requires a.parentAvailable == b.parentAvailable
    ensures CarveTotal(total, carves, a, parentCanonical, reg) == CarveTotal(total, carves, b, parentCanonical, reg)
    decreases |carves|
  {
    hide CanonicalAmount, Add, NormalizeToken;
    if carves != [] && CanonicalAmount(carves[0].quantity, reg).Ok? {
      var next := Add(total, CanonicalAmount(carves[0].quantity, reg).value);
      if next.Ok? {
        SameParent(next.value, carves[1..], a, b, parentCanonical, reg);
      }
    }
  }

  lemma {:induction false} RefusedFirst(
    total: Decimal, carves: seq<CarveOut>, spec: SplitSpec, parentCanonical: Decimal, reg: Registry)
    requires carves != [] && Known(spec.parentAvailable, reg)
    ensures var q, r := carves[0].quantity, CarveTotal(total, carves, spec, parentCanonical, reg);
      && (q.amount.mant < 0 ==> r == Err(OverCarve(q.amount, parentCanonical)))
      && (q.amount.mant >= 0 && Known(q, reg) && !Commensurable(q, spec.parentAvailable, reg) ==> r == Err(DimensionMismatch))
      && (q.amount.mant >= 0 && !Known(q, reg) ==> r == Err(UnknownUnit(q.unit.uom)))
  {
    hide CanonicalAmount, Add, NormalizeToken;
  }

  /** Carving out more than there is, is refused with exactly the amounts in question. */
  lemma {:induction false} OverCarveRefused(spec: SplitSpec, reg: Registry)
    requires WellFormed(reg) && spec.carveOuts != []
    requires Canonicalizes(spec.parentAvailable, reg) && AllCarvable(spec, reg)
    requires CarvedCanon(spec.carveOuts, reg) > Canon(spec.parentAvailable, reg)
    ensures exists total: Decimal, p: Decimal ::
              && Split(spec, reg) == Err(OverCarve(total, p))
              && Value(total) as real == CarvedCanon(spec.carveOuts, reg)
              && Value(p) as real == Canon(spec.parentAvailable, reg)
  {
    hide CanonicalAmount, Canonicalizes, CarveTotal, AllCarvable, CarvedTotal, FromCanonical, Canon, CarvedCanon,
      Decimals.Value, CmpValue, Sub, NormalizeToken, WellFormed;
    CanonicalizesExactly(spec.parentAvailable, reg);
    var p, total := CanonicalAmount(spec.parentAvailable, reg).value, CarvedTotal(spec, reg);
    CanonicalExact(spec.parentAvailable, reg);
    CarvedTotalExact(spec, p, reg);
    CmpValueIsNumeric(total, p);
    assert Split(spec, reg) == Err(OverCarve(total, p));
  }

  lemma {:induction false} CarvedNonNegative(carves: seq<CarveOut>, reg: Registry)
    requires forall i :: 0 <= i < |carves| ==> Canon(carves[i].quantity, reg) >= 0.0
    ensures CarvedCanon(carves, reg) >= 0.0
  {
    hide Canon;
    if carves != [] {
      CarvedNonNegative(carves[1..], reg);
    }
  }

  lemma {:induction false} TotalNotNegative(d: Decimal)
    requires Value(d) >= 0
    ensures d.mant >= 0
  {
    hide Scaled;
    ScaledSign(d.mant, d.exp);
  }
}
