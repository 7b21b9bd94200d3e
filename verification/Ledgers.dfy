/**
 The mass balance over whole runs, as crates/transform/tests/property_conservation.rs samples it: material of
 one dimension is issued, split and combined, in whatever units, and nothing appears or disappears.
 */
module Ledgers {
  import opened Identifiers
  import opened Quantities
  import opened Splits
  import opened Combines

  /** What each passport holds, as an exact canonical amount, with what was ever issued and lost. */
  datatype Ledger = Ledger(ids: seq<PassportId>, amounts: map<PassportId, real>, issued: real, loss: real)

  datatype Step = Issue(id: PassportId, quantity: Quantity) | Splitting(split: SplitSpec) | Combining(combine: CombineSpec)

  /** Nothing issued yet. */
  ghost predicate IsEmpty(l: Ledger) {
    l.ids == [] && l.amounts == map[] && l.issued == 0.0 && l.loss == 0.0
  }

  function AmountOf(amounts: map<PassportId, real>, id: PassportId): real {
    if id in amounts then amounts[id] else 0.0
  }

  function Total(ids: seq<PassportId>, amounts: map<PassportId, real>): real {
    if ids == [] then 0.0 else AmountOf(amounts, ids[0]) + Total(ids[1..], amounts)
  }

  predicate Distinct(ids: seq<PassportId>) {
    forall i, j :: 0 <= i < j < |ids| ==> ids[i] != ids[j]
  }

  /** The quantity is of the dimension accounted for, and amounts to just this much. */
  ghost predicate Amounts(q: Quantity, amount: real, dim: Dimension, reg: Registry) {
    Known(q, reg) && DefOf(q, reg).dimension == dim && Canon(q, reg) == amount
  }

  function ChildrenOf(carves: seq<CarveOut>): (ids: seq<PassportId>)
    ensures |ids| == |carves| && forall i :: 0 <= i < |ids| ==> ids[i] == carves[i].child
  {
    if carves == [] then [] else [carves[0].child] + ChildrenOf(carves[1..])
  }

  function InputsOf(inputs: seq<InputReference>): (ids: seq<PassportId>)
    ensures |ids| == |inputs| && forall i :: 0 <= i < |ids| ==> ids[i] == inputs[i].input
  {
    if inputs == [] then [] else [inputs[0].input] + InputsOf(inputs[1..])
  }

  /**
   A step the system takes: new passports are new, the transformation succeeds, and the caller's view of what is
   available is what the passports hold.
   */
  ghost predicate Allowed(l: Ledger, s: Step, dim: Dimension, reg: Registry) {
    match s
    case Issue(id, q) => id !in l.ids && q.amount.mant >= 0 && Amounts(q, Canon(q, reg), dim, reg)
    case Splitting(spec) =>
      && Split(spec, reg).Ok? && spec.parent in l.ids
      && Amounts(spec.parentAvailable, AmountOf(l.amounts, spec.parent), dim, reg)
      && Distinct(l.ids + ChildrenOf(spec.carveOuts))
    case Combining(spec) =>
      && Combine(spec, reg).Ok? && spec.output !in l.ids
      && Amounts(spec.outputQuantity, Canon(spec.outputQuantity, reg), dim, reg)
      && forall i :: 0 <= i < |spec.inputs| ==>
           && spec.inputs[i].input in l.ids && spec.inputs[i].input in spec.available
           && Amounts(spec.available[spec.inputs[i].input], AmountOf(l.amounts, spec.inputs[i].input), dim, reg)
  }

  function Credit(amounts: map<PassportId, real>, carves: seq<CarveOut>, reg: Registry): map<PassportId, real>
    decreases |carves|
  {
    if carves == [] then amounts
    else Credit(amounts[carves[0].child := Canon(carves[0].quantity, reg)], carves[1..], reg)
  }

  function Debit(amounts: map<PassportId, real>, inputs: seq<InputReference>, reg: Registry): map<PassportId, real>
    decreases |inputs|
  {
    if inputs == [] then amounts else
      var left := AmountOf(amounts, inputs[0].input) - Canon(inputs[0].quantity, reg);
      Debit(amounts[inputs[0].input := left], inputs[1..], reg)
  }

  function After(l: Ledger, s: Step, reg: Registry): Ledger {
    match s
    case Issue(id, q) =>
      l.(ids := l.ids + [id], amounts := l.amounts[id := Canon(q, reg)], issued := l.issued + Canon(q, reg))
    case Splitting(spec) =>
      if Split(spec, reg).Err? then l else
        var left := l.amounts[spec.parent := Canon(Split(spec, reg).value.remainder, reg)];
        l.(ids := l.ids + ChildrenOf(spec.carveOuts), amounts := Credit(left, spec.carveOuts, reg))
    case Combining(spec) =>
      if Combine(spec, reg).Err? then l else
        var left := Debit(l.amounts, spec.inputs, reg);
        l.(ids := l.ids + [spec.output], amounts := left[spec.output := Canon(spec.outputQuantity, reg)],
           loss := l.loss + Canon(Combine(spec, reg).value.loss, reg))
  }

  /** Every step of the run is allowed where it is taken. */
  ghost predicate Possible(l: Ledger, run: seq<Step>, dim: Dimension, reg: Registry)
    decreases |run|
  {
    run == [] || (Allowed(l, run[0], dim, reg) && Possible(After(l, run[0], reg), run[1..], dim, reg))
  }

  function Final(l: Ledger, run: seq<Step>, reg: Registry): Ledger
    decreases |run|
  {
    if run == [] then l else Final(After(l, run[0], reg), run[1..], reg)
  }

  // ----- what every run keeps

  ghost predicate Balanced(l: Ledger) {
    Distinct(l.ids) && l.issued == Total(l.ids, l.amounts) + l.loss
  }

  /** No one holds less than nothing, and no loss is a gain. */
  ghost predicate NonNegative(l: Ledger) {
    l.loss >= 0.0 && NoneOverdrawn(l.amounts)
  }

  ghost predicate NoneOverdrawn(amounts: map<PassportId, real>) {
    forall id :: id in amounts ==> amounts[id] >= 0.0
  }

  /** The two things `combine` leaves to its caller: no passport is listed twice, and the output is not negative. */
  predicate Careful(s: Step) {
    s.Combining? ==> Distinct(InputsOf(s.combine.inputs)) && s.combine.outputQuantity.amount.mant >= 0
  }

  predicate AllCareful(run: seq<Step>) {
    forall i :: 0 <= i < |run| ==> Careful(run[i])
  }

  lemma {:induction false} TotalOfSnoc(ids: seq<PassportId>, id: PassportId, amounts: map<PassportId, real>)
    ensures Total(ids + [id], amounts) == Total(ids, amounts) + AmountOf(amounts, id)
  {
    if ids != [] {
      assert (ids + [id])[1..] == ids[1..] + [id];
      TotalOfSnoc(ids[1..], id, amounts);
    }
  }

  lemma {:induction false} TotalUntouched(ids: seq<PassportId>, amounts: map<PassportId, real>, id: PassportId, x: real)
    requires id !in ids
    ensures Total(ids, amounts[id := x]) == Total(ids, amounts)
  {
    if ids != [] {
      TotalUntouched(ids[1..], amounts, id, x);
    }
  }

  /** Rewriting one holding changes the total by just that. */
  lemma {:induction false} TotalOfUpdate(ids: seq<PassportId>, amounts: map<PassportId, real>, id: PassportId, x: real)
    requires Distinct(ids) && id in ids
    ensures Total(ids, amounts[id := x]) == Total(ids, amounts) - AmountOf(amounts, id) + x
  {
    if id == ids[0] {
      TotalUntouched(ids[1..], amounts, id, x);
    } else {
      TotalOfUpdate(ids[1..], amounts, id, x);
    }
  }

  lemma {:induction false} DistinctPrefix(a: seq<PassportId>, b: seq<PassportId>)
    requires Distinct(a + b)
    ensures Distinct(a)
  {
    assert forall i :: 0 <= i < |a| ==> a[i] == (a + b)[i];
  }

  lemma {:induction false} LastIsNew(ids: seq<PassportId>, id: PassportId)
    requires Distinct(ids + [id])
    ensures id !in ids
  {
    assert (ids + [id])[|ids|] == id && forall i :: 0 <= i < |ids| ==> (ids + [id])[i] == ids[i];
  }

  lemma {:induction false} CreditAdds(
    ids: seq<PassportId>, amounts: map<PassportId, real>, carves: seq<CarveOut>, reg: Registry)
    requires Distinct(ids + ChildrenOf(carves))
    ensures Total(ids + ChildrenOf(carves), Credit(amounts, carves, reg)) == Total(ids, amounts) + CarvedCanon(carves, reg)
    decreases |carves|
  {
    hide Canon, Distinct;
    if carves == [] {
      assert ids + ChildrenOf(carves) == ids;
    } else {
      var child, amount := carves[0].child, Canon(carves[0].quantity, reg);
      ghost var rest := ChildrenOf(carves[1..]);
      assert ids + ChildrenOf(carves) == (ids + [child]) + rest;
      assert child !in ids by {
        DistinctPrefix(ids + [child], rest);
        LastIsNew(ids, child);
      }
      TotalUntouched(ids, amounts, child, amount);
      TotalOfSnoc(ids, child, amounts[child := amount]);
      CreditAdds(ids + [child], amounts[child := amount], carves[1..], reg);
    }
  }

  lemma {:induction false} DebitTakes(
    ids: seq<PassportId>, amounts: map<PassportId, real>, inputs: seq<InputReference>, reg: Registry)
    requires Distinct(ids) && forall i :: 0 <= i < |inputs| ==> inputs[i].input in ids
    ensures Total(ids, Debit(amounts, inputs, reg)) == Total(ids, amounts) - TakenCanon(inputs, reg)
    decreases |inputs|
  {
    hide Canon;
    if inputs != [] {
      var left := AmountOf(amounts, inputs[0].input) - Canon(inputs[0].quantity, reg);
      TotalOfUpdate(ids, amounts, inputs[0].input, left);
      DebitTakes(ids, amounts[inputs[0].input := left], inputs[1..], reg);
    }
  }

  /** Every step keeps the balance, even one in which a passport is listed twice. */
  lemma {:induction false} StepKeepsBalance(l: Ledger, s: Step, dim: Dimension, reg: Registry)
    requires WellFormed(reg) && Balanced(l) && Allowed(l, s, dim, reg)
    ensures Balanced(After(l, s, reg))
  {
    hide Canon, Split, Combine, Known, DefOf, Total, Credit, Debit, CarvedCanon, TakenCanon, WellFormed, AmountOf, Supported;
    match s
    case Issue(id, q) =>
      TotalUntouched(l.ids, l.amounts, id, Canon(q, reg));
      TotalOfSnoc(l.ids, id, l.amounts[id := Canon(q, reg)]);
      AmountAfter(l.amounts, id, Canon(q, reg));
    case Splitting(spec) =>
      SplitConserves(spec, reg);
      var rest := Canon(Split(spec, reg).value.remainder, reg);
      TotalOfUpdate(l.ids, l.amounts, spec.parent, rest);
      CreditAdds(l.ids, l.amounts[spec.parent := rest], spec.carveOuts, reg);
    case Combining(spec) =>
      CombineBalances(spec, reg);
      var left := Debit(l.amounts, spec.inputs, reg);
      DebitTakes(l.ids, l.amounts, spec.inputs, reg);
      TotalUntouched(l.ids, left, spec.output, Canon(spec.outputQuantity, reg));
      TotalOfSnoc(l.ids, spec.output, left[spec.output := Canon(spec.outputQuantity, reg)]);
      AmountAfter(left, spec.output, Canon(spec.outputQuantity, reg));
  }

  lemma {:induction false} AmountAfter(amounts: map<PassportId, real>, id: PassportId, x: real)
    ensures AmountOf(amounts[id := x], id) == x
  {}

  /** Over every run, what was issued is what is held plus what was lost, exactly. */
  lemma {:induction false} RunConserves(l: Ledger, run: seq<Step>, dim: Dimension, reg: Registry)
    requires WellFormed(reg) && Balanced(l) && Possible(l, run, dim, reg)
    ensures Balanced(Final(l, run, reg))
    decreases |run|
  {
    hide Allowed, After, Balanced, WellFormed;
    if run != [] {
      StepKeepsBalance(l, run[0], dim, reg);
      RunConserves(After(l, run[0], reg), run[1..], dim, reg);
    }
  }

  // ----- nothing goes below zero

  lemma {:induction false} CreditKeepsSign(amounts: map<PassportId, real>, carves: seq<CarveOut>, reg: Registry)
    requires NoneOverdrawn(amounts)
    requires forall i :: 0 <= i < |carves| ==> Canon(carves[i].quantity, reg) >= 0.0
    ensures NoneOverdrawn(Credit(amounts, carves, reg))
    decreases |carves|
  {
    hide Canon;
    if carves != [] {
      CreditKeepsSign(amounts[carves[0].child := Canon(carves[0].quantity, reg)], carves[1..], reg);
    }
  }

  lemma {:induction false} DebitKeepsSign(amounts: map<PassportId, real>, inputs: seq<InputReference>, reg: Registry)
    requires NoneOverdrawn(amounts)
    requires Distinct(InputsOf(inputs))
    requires forall i :: 0 <= i < |inputs| ==> AmountOf(amounts, inputs[i].input) >= Canon(inputs[i].quantity, reg)
    ensures NoneOverdrawn(Debit(amounts, inputs, reg))
    decreases |inputs|
  {
    hide Canon;
    if inputs != [] {
      var id := inputs[0].input;
      var next := amounts[id := AmountOf(amounts, id) - Canon(inputs[0].quantity, reg)];
      forall i | 0 <= i < |inputs[1..]|
        ensures AmountOf(next, inputs[1..][i].input) >= Canon(inputs[1..][i].quantity, reg)
      {
        assert inputs[1..][i] == inputs[i + 1] && InputsOf(inputs)[i + 1] != InputsOf(inputs)[0];
      }
      assert InputsOf(inputs[1..]) == InputsOf(inputs)[1..];
      DebitKeepsSign(next, inputs[1..], reg);
    }
  }

  /** With distinct inputs and an output that is not negative, a step overdraws no one. */
  lemma {:induction false} StepKeepsSign(l: Ledger, s: Step, dim: Dimension, reg: Registry)
    requires WellFormed(reg) && NonNegative(l) && Allowed(l, s, dim, reg) && Careful(s)
    ensures NonNegative(After(l, s, reg)) && After(l, s, reg).loss >= l.loss
  {
    hide Canon, Split, Combine, Known, DefOf, Credit, Debit, CarvedCanon, TakenCanon, WellFormed, AmountOf, Distinct;
    match s
    case Issue(id, q) =>
      CanonNonNegative(q, reg);
    case Splitting(spec) =>
      SplitConserves(spec, reg);
      CreditKeepsSign(l.amounts[spec.parent := Canon(Split(spec, reg).value.remainder, reg)], spec.carveOuts, reg);
    case Combining(spec) =>
      CombineBalances(spec, reg);
      CanonNonNegative(spec.outputQuantity, reg);
      forall i | 0 <= i < |spec.inputs|
        ensures AmountOf(l.amounts, spec.inputs[i].input) >= Canon(spec.inputs[i].quantity, reg)
      {
        assert Supported(spec.inputs[i], spec, reg);
      }
      DebitKeepsSign(l.amounts, spec.inputs, reg);
      assert NoneOverdrawn(Debit(l.amounts, spec.inputs, reg)[spec.output := Canon(spec.outputQuantity, reg)]);
  }

  /** Over every run of careful steps, no holding and no loss is ever negative. */
  lemma {:induction false} RunKeepsSign(l: Ledger, run: seq<Step>, dim: Dimension, reg: Registry)
    requires WellFormed(reg) && NonNegative(l) && Possible(l, run, dim, reg)
    requires AllCareful(run)
    ensures NonNegative(Final(l, run, reg)) && Final(l, run, reg).loss >= l.loss
    decreases |run|
  {
    hide Allowed, After, NonNegative, WellFormed, Careful;
    if run != [] {
      StepKeepsSign(l, run[0], dim, reg);
      RunKeepsSign(After(l, run[0], reg), run[1..], dim, reg);
    }
  }

  lemma {:induction false} NothingIsBalanced(l: Ledger)
    requires IsEmpty(l)
    ensures Balanced(l) && NonNegative(l)
  {}

  /** From nothing, issuing, splitting and combining accounts for every last unit. */
  lemma {:induction false} IssuedIsHeldOrLost(l: Ledger, run: seq<Step>, dim: Dimension, reg: Registry)
    requires WellFormed(reg) && IsEmpty(l) && Possible(l, run, dim, reg)
    ensures var f := Final(l, run, reg);
      && f.issued == Total(f.ids, f.amounts) + f.loss
      && (AllCareful(run) ==> NonNegative(f) && f.issued >= f.loss)
  {
    hide Possible, Final, WellFormed, AllCareful, Total, NoneOverdrawn, Distinct;
    NothingIsBalanced(l);
    RunConserves(l, run, dim, reg);
    if AllCareful(run) {
      RunKeepsSign(l, run, dim, reg);
      TotalNonNegative(Final(l, run, reg).ids, Final(l, run, reg).amounts);
    }
  }

  lemma {:induction false} TotalNonNegative(ids: seq<PassportId>, amounts: map<PassportId, real>)
    requires NoneOverdrawn(amounts)
    ensures Total(ids, amounts) >= 0.0
  {
    if ids != [] {
      TotalNonNegative(ids[1..], amounts);
    }
  }

  // ----- why the two conditions are needed

  function TakenFrom(id: PassportId, inputs: seq<InputReference>, reg: Registry): real {
    if inputs == [] then 0.0
    else (if inputs[0].input == id then Canon(inputs[0].quantity, reg) else 0.0) + TakenFrom(id, inputs[1..], reg)
  }

  lemma {:induction false} TakenFromOthers(id: PassportId, inputs: seq<InputReference>, reg: Registry)
    requires id !in InputsOf(inputs)
    ensures TakenFrom(id, inputs, reg) == 0.0
  {
    hide Canon;
    if inputs != [] {
      assert InputsOf(inputs)[0] != id;
      assert InputsOf(inputs[1..]) == InputsOf(inputs)[1..];
      TakenFromOthers(id, inputs[1..], reg);
    }
  }

  /** With distinct inputs, what one combine takes from a passport in all is at most the number that is available. */
  lemma {:induction false} DistinctInputsAreAvailable(
    id: PassportId, inputs: seq<InputReference>, spec: CombineSpec, reg: Registry)
    requires WellFormed(reg) && CheckInputs(inputs, spec, reg).Ok? && Distinct(InputsOf(inputs)) && id in InputsOf(inputs)
    ensures id in spec.available && TakenFrom(id, inputs, reg) <= Canon(spec.available[id], reg)
    decreases |inputs|
  {
    hide Canon, CheckInput, Known, DefOf, WellFormed;
    CheckedExactly(inputs[0], spec, reg);
    assert InputsOf(inputs[1..]) == InputsOf(inputs)[1..];
    if inputs[0].input == id {
      assert id !in InputsOf(inputs)[1..];
      TakenFromOthers(id, inputs[1..], reg);
    } else {
      DistinctInputsAreAvailable(id, inputs[1..], spec, reg);
    }
  }

  /** The loss of a successful combine is above what went in exactly if its output is below zero. */
  lemma {:induction false} LossWithinInputsUnlessOutputNegative(spec: CombineSpec, reg: Registry)
    requires WellFormed(reg) && Combine(spec, reg).Ok?
    ensures Canon(Combine(spec, reg).value.loss, reg) <= TakenCanon(spec.inputs, reg)
            <==> Canon(spec.outputQuantity, reg) >= 0.0
  {
    hide Canon, Combine;
    CombineBalances(spec, reg);
  }

  // ----- what a step moves

  lemma {:induction false} CreditedAt(
    amounts: map<PassportId, real>, carves: seq<CarveOut>, i: nat, reg: Registry)
    requires i < |carves| && Distinct(ChildrenOf(carves))
    ensures AmountOf(Credit(amounts, carves, reg), carves[i].child) == Canon(carves[i].quantity, reg)
    decreases |carves|
  {
    hide Canon;
    var next := amounts[carves[0].child := Canon(carves[0].quantity, reg)];
    assert ChildrenOf(carves[1..]) == ChildrenOf(carves)[1..];
    if i > 0 {
      CreditedAt(next, carves[1..], i - 1, reg);
    } else {
      assert forall j :: 1 <= j < |carves| ==> ChildrenOf(carves)[j] != ChildrenOf(carves)[0];
      NotCredited(next, carves[1..], carves[0].child, reg);
    }
  }

  lemma {:induction false} NotCredited(amounts: map<PassportId, real>, carves: seq<CarveOut>, id: PassportId, reg: Registry)
    requires id !in ChildrenOf(carves)
    ensures AmountOf(Credit(amounts, carves, reg), id) == AmountOf(amounts, id)
    decreases |carves|
  {
    hide Canon;
    if carves != [] {
      assert ChildrenOf(carves)[0] != id;
      assert ChildrenOf(carves[1..]) == ChildrenOf(carves)[1..];
      NotCredited(amounts[carves[0].child := Canon(carves[0].quantity, reg)], carves[1..], id, reg);
    }
  }

  lemma {:induction false} DebitedOf(
    amounts: map<PassportId, real>, inputs: seq<InputReference>, id: PassportId, reg: Registry)
    ensures AmountOf(Debit(amounts, inputs, reg), id) == AmountOf(amounts, id) - TakenFrom(id, inputs, reg)
    decreases |inputs|
  {
    hide Canon;
    if inputs != [] {
      var left := AmountOf(amounts, inputs[0].input) - Canon(inputs[0].quantity, reg);
      DebitedOf(amounts[inputs[0].input := left], inputs[1..], id, reg);
    }
  }

  /** What each passport holds after a step: it moves just what was issued, carved out or taken. */
  lemma {:induction false} StepMoves(l: Ledger, s: Step, dim: Dimension, reg: Registry, id: PassportId)
    requires WellFormed(reg) && Allowed(l, s, dim, reg)
    ensures var before, after := AmountOf(l.amounts, id), AmountOf(After(l, s, reg).amounts, id);
      match s
      case Issue(added, q) => after == if id == added then Canon(q, reg) else before
      case Splitting(spec) =>
        && (id == spec.parent ==> after == before - CarvedCanon(spec.carveOuts, reg))
        && (forall i :: 0 <= i < |spec.carveOuts| && spec.carveOuts[i].child == id ==>
              after == Canon(spec.carveOuts[i].quantity, reg))
        && (id != spec.parent && id !in ChildrenOf(spec.carveOuts) ==> after == before)
      case Combining(spec) =>
        after == if id == spec.output then Canon(spec.outputQuantity, reg) else before - TakenFrom(id, spec.inputs, reg)
    ensures After(l, s, reg).ids == l.ids + match s
                                           case Issue(added, _) => [added]
                                           case Splitting(spec) => ChildrenOf(spec.carveOuts)
                                           case Combining(spec) => [spec.output]
    ensures After(l, s, reg).issued == l.issued + if s.Issue? then Canon(s.quantity, reg) else 0.0
    ensures After(l, s, reg).loss == l.loss + if s.Combining? then Canon(Combine(s.combine, reg).value.loss, reg) else 0.0
  {
    hide Canon, Split, Combine, Known, DefOf, Credit, Debit, CarvedCanon, TakenCanon, WellFormed;
    match s
    case Issue(added, q) =>
    case Splitting(spec) =>
      SplitConserves(spec, reg);
      var left := l.amounts[spec.parent := Canon(Split(spec, reg).value.remainder, reg)];
      var children := ChildrenOf(spec.carveOuts);
      ChildrenAreNew(l.ids, children, spec.parent);
      if id in children {
        forall i | 0 <= i < |spec.carveOuts| && spec.carveOuts[i].child == id
          ensures AmountOf(Credit(left, spec.carveOuts, reg), id) == Canon(spec.carveOuts[i].quantity, reg)
        {
          CreditedAt(left, spec.carveOuts, i, reg);
        }
      } else {
        NotCredited(left, spec.carveOuts, id, reg);
      }
    case Combining(spec) =>
      DebitedOf(l.amounts, spec.inputs, id, reg);
  }

  lemma {:induction false} ChildrenAreNew(ids: seq<PassportId>, children: seq<PassportId>, id: PassportId)
    requires Distinct(ids + children) && id in ids
    ensures Distinct(children) && id !in children
  {
    var all := ids + children;
    assert forall i :: 0 <= i < |ids| ==> all[i] == ids[i];
    assert forall i :: 0 <= i < |children| ==> all[|ids| + i] == children[i];
    var k :| 0 <= k < |ids| && ids[k] == id;
    forall i | 0 <= i < |children| ensures children[i] != id {
      assert all[k] != all[|ids| + i];
    }
    forall i, j | 0 <= i < j < |children| ensures children[i] != children[j] {
      assert all[|ids| + i] != all[|ids| + j];
    }
  }
}
