/** Gate lists of the circuit fuzzer and what they compute. */
module Circuit {
  type Name = string

  datatype GateType = And | Or | Identity

  datatype Gate = Gate(output: Name, inputs: seq<Name>, gtype: GateType)

  /** Values of the absolute names. */
  type Env = map<Name, bool>

  predicate Negated(n: Name) { |n| > 0 && n[0] == '-' }

  function ToAbsName(n: Name): Name { if Negated(n) then n[1..] else n }

  function NegateName(n: Name): Name { if Negated(n) then n[1..] else "-" + n }

  predicate WellTyped(g: Gate) { if g.gtype == Identity then |g.inputs| == 1 else |g.inputs| > 1 }

  function Outputs(gs: seq<Gate>): set<Name> { set g | g in gs :: ToAbsName(g.output) }

  function InputsOf(gs: seq<Gate>): set<Name> { set g, n | g in gs && n in g.inputs :: ToAbsName(n) }

  function AbsNames(ns: seq<Name>): set<Name> { set n | n in ns :: ToAbsName(n) }

  function AllNames(gs: seq<Gate>, trueNames: seq<Name>): set<Name> { Outputs(gs) + InputsOf(gs) + AbsNames(trueNames) }

  /** Names no gate drives. */
  function FreeNames(gs: seq<Gate>, trueNames: seq<Name>): set<Name> { InputsOf(gs) + AbsNames(trueNames) - Outputs(gs) }

  lemma OutputsAppend(gs: seq<Gate>, g: Gate)
    ensures Outputs(gs + [g]) == Outputs(gs) + {ToAbsName(g.output)}
    ensures InputsOf(gs + [g]) == InputsOf(gs) + AbsNames(g.inputs)
  {
  }

  lemma NamesAppend(ns: seq<Name>, n: Name)
    ensures AbsNames(ns + [n]) == AbsNames(ns) + {ToAbsName(n)}
  {
  }

  lemma NoNames()
    ensures AbsNames([]) == {}
  {
  }

  class GateList {
    var gates: seq<Gate>
    var trueNames: seq<Name>
    var gateNames: set<Name>
    var inputNames: set<Name>

    ghost predicate Valid() reads this {
      (forall g: Gate :: g in gates ==> WellTyped(g)) &&
      gateNames == Outputs(gates) && inputNames == FreeNames(gates, trueNames)
    }

    constructor ()
      ensures Valid() && gates == [] && trueNames == []
    {
      gates, trueNames, gateNames, inputNames := [], [], {}, {};
    }

    method AddGate(gate: Gate)
      requires Valid() && WellTyped(gate)
      modifies this
      ensures Valid() && gates == old(gates) + [gate] && trueNames == old(trueNames)
    {
      hide Outputs, InputsOf, AbsNames;
      OutputsAppend(gates, gate);
      NoNames();
      gates := gates + [gate];
      var absOutput := ToAbsName(gate.output);
      inputNames := inputNames - {absOutput};
      gateNames := gateNames + {absOutput};
      for i := 0 to |gate.inputs|
        invariant gates == old(gates) + [gate] && trueNames == old(trueNames)
        invariant gateNames == Outputs(gates)
        invariant inputNames == (InputsOf(old(gates)) + AbsNames(trueNames) + AbsNames(gate.inputs[..i])) - gateNames
      {
        NamesAppend(gate.inputs[..i], gate.inputs[i]);
        assert gate.inputs[..i + 1] == gate.inputs[..i] + [gate.inputs[i]];
        var absInput := ToAbsName(gate.inputs[i]);
        if absInput !in gateNames {
          inputNames := inputNames + {absInput};
        }
      }
      assert gate.inputs[..|gate.inputs|] == gate.inputs;
    }

    method AddTrueGate(name: Name)
      requires Valid()
      modifies this
      ensures Valid() && gates == old(gates) && trueNames == old(trueNames) + [name]
    {
      NamesAppend(trueNames, name);
      trueNames := trueNames + [name];
      var absName := ToAbsName(name);
      if absName !in gateNames && absName !in inputNames {
        inputNames := inputNames + {absName};
      }
    }

    function NbVars(): nat reads this { |gates| + |inputNames| }
  }

  // ---- what a circuit computes ----

  function Value(n: Name, e: Env): bool { (ToAbsName(n) in e && e[ToAbsName(n)]) != Negated(n) }

  /** A leading "-" negates a name, and nothing else does. */
  lemma Polarity(n: Name, e: Env)
    requires |n| == 0 || n[0] != '-'
    ensures ToAbsName(n) == n && ToAbsName("-" + n) == n
    ensures NegateName(n) == "-" + n && NegateName("-" + n) == n
    ensures Value(n, e) <==> n in e && e[n]
    ensures Value("-" + n, e) <==> !Value(n, e)
  {
    assert ("-" + n)[1..] == n && ("-" + n)[0] == '-';
  }

  /** Negating a name negates its value, unless the name starts with "--". */
  lemma NegatedValue(n: Name, e: Env)
    requires !(|n| >= 2 && n[0] == '-' && n[1] == '-')
    ensures ToAbsName(NegateName(n)) == ToAbsName(n) && Value(NegateName(n), e) == !Value(n, e)
  {
    if |n| > 0 && n[0] == '-' {
      var m := n[1..];
      assert n == "-" + m;
      Polarity(m, e);
    } else {
      Polarity(n, e);
    }
  }

  /** Negating twice gives the name back exactly if it does not start with "--". */
  lemma NegateTwice(n: Name)
    ensures NegateName(NegateName(n)) == n <==> !(|n| >= 2 && n[0] == '-' && n[1] == '-')
  {
    if |n| >= 2 && n[0] == '-' && n[1] == '-' {
      assert NegateName(n) == n[1..] && n[1..][0] == '-';
      assert |NegateName(NegateName(n))| == |n| - 2;
    } else if |n| > 0 && n[0] == '-' {
      assert n == "-" + n[1..];
    } else {
      assert ("-" + n)[1..] == n;
    }
  }

  predicate AllTrue(ns: seq<Name>, e: Env) { forall i: nat :: i < |ns| ==> Value(ns[i], e) }

  predicate SomeTrue(ns: seq<Name>, e: Env) { exists i: nat :: i < |ns| && Value(ns[i], e) }

  predicate GateValue(g: Gate, e: Env) {
    match g.gtype
    case And => AllTrue(g.inputs, e)
    case Or => SomeTrue(g.inputs, e)
    case Identity => |g.inputs| == 1 && Value(g.inputs[0], e)
  }

  predicate GateHolds(g: Gate, e: Env) { Value(g.output, e) == GateValue(g, e) }

  predicate CircuitHolds(gs: seq<Gate>, e: Env) { forall i: nat :: i < |gs| ==> GateHolds(gs[i], e) }

  /** The values of all names, computed gate by gate from those of the inputs. */
  function Evaluate(gs: seq<Gate>, inputs: Env): Env {
    if gs == [] then inputs
    else
      var e := Evaluate(gs[..|gs| - 1], inputs);
      var g := gs[|gs| - 1];
      e[ToAbsName(g.output) := GateValue(g, e) != Negated(g.output)]
  }

  predicate DistinctOutputs(gs: seq<Gate>) {
    forall i: nat, j: nat :: i < j < |gs| ==> ToAbsName(gs[i].output) != ToAbsName(gs[j].output)
  }

  lemma DistinctNext(gs: seq<Gate>, g: Gate)
    ensures DistinctOutputs(gs + [g]) <==> DistinctOutputs(gs) && ToAbsName(g.output) !in Outputs(gs)
  {
    var all := gs + [g];
    if ToAbsName(g.output) in Outputs(gs) {
      var h: Gate :| h in gs && ToAbsName(h.output) == ToAbsName(g.output);
      var i: nat :| i < |gs| && gs[i] == h;
      assert ToAbsName(all[i].output) == ToAbsName(all[|gs|].output);
    } else {
      forall i: nat | i < |gs| ensures ToAbsName(gs[i].output) != ToAbsName(g.output) {
        assert gs[i] in gs;
      }
    }
    if DistinctOutputs(all) {
      forall i: nat, j: nat | i < j < |gs| ensures ToAbsName(gs[i].output) != ToAbsName(gs[j].output) {
        assert ToAbsName(all[i].output) != ToAbsName(all[j].output);
      }
    }
  }

  /** Different outputs, and no gate reads its own output or a later one. */
  predicate Ordered(gs: seq<Gate>) {
    DistinctOutputs(gs) &&
    (forall i: nat, j: nat, k: nat :: i <= j < |gs| && k < |gs[i].inputs| ==> ToAbsName(gs[i].inputs[k]) != ToAbsName(gs[j].output))
  }

  lemma OrderedPrefix(gs: seq<Gate>)
    requires Ordered(gs) && gs != []
    ensures Ordered(gs[..|gs| - 1])
    ensures ToAbsName(gs[|gs| - 1].output) !in Outputs(gs[..|gs| - 1])
    ensures forall i: nat, k: nat :: i < |gs| && k < |gs[i].inputs| ==> ToAbsName(gs[i].inputs[k]) != ToAbsName(gs[|gs| - 1].output)
  {
    var front := gs[..|gs| - 1];
    forall g: Gate | g in front ensures ToAbsName(g.output) != ToAbsName(gs[|gs| - 1].output) {
      var i: nat :| i < |front| && front[i] == g;
    }
  }

  predicate SameFor(g: Gate, e: Env, f: Env) {
    Value(g.output, e) == Value(g.output, f) && forall k: nat :: k < |g.inputs| ==> Value(g.inputs[k], e) == Value(g.inputs[k], f)
  }

  lemma SameHolds(g: Gate, e: Env, f: Env)
    requires SameFor(g, e, f)
    ensures GateHolds(g, e) == GateHolds(g, f)
  {
    if SomeTrue(g.inputs, e) {
      var i: nat :| i < |g.inputs| && Value(g.inputs[i], e);
      assert Value(g.inputs[i], f);
    }
    if SomeTrue(g.inputs, f) {
      var i: nat :| i < |g.inputs| && Value(g.inputs[i], f);
      assert Value(g.inputs[i], e);
    }
    assert AllTrue(g.inputs, e) == AllTrue(g.inputs, f);
  }

  lemma {:induction false} EvaluateKeys(gs: seq<Gate>, inputs: Env)
    ensures Evaluate(gs, inputs).Keys == inputs.Keys + Outputs(gs)
    ensures forall n: Name :: n in inputs && n !in Outputs(gs) ==> Evaluate(gs, inputs)[n] == inputs[n]
  {
    if gs == [] {
      assert Outputs(gs) == {};
    } else {
      hide Outputs, GateValue, ToAbsName, Negated;
      var front, g := gs[..|gs| - 1], gs[|gs| - 1];
      EvaluateKeys(front, inputs);
      OutputsAppend(front, g);
      assert gs == front + [g];
    }
  }

  /** Evaluation makes every gate equation hold. */
  lemma {:induction false} EvaluateHolds(gs: seq<Gate>, inputs: Env)
    requires Ordered(gs)
    ensures CircuitHolds(gs, Evaluate(gs, inputs))
  {
    if gs != [] {
      var front, g := gs[..|gs| - 1], gs[|gs| - 1];
      OrderedPrefix(gs);
      EvaluateHolds(front, inputs);
      var e, f := Evaluate(front, inputs), Evaluate(gs, inputs);
      forall i: nat | i < |gs| ensures GateHolds(gs[i], f) {
        if i < |front| {
          assert front[i] == gs[i] && front[i] in front;
          assert GateHolds(front[i], e);
          assert SameFor(gs[i], e, f);
          SameHolds(gs[i], e, f);
        } else {
          InputsSame(g, e, f);
        }
      }
    }
  }

  lemma InputsSame(g: Gate, e: Env, f: Env)
    requires f == e[ToAbsName(g.output) := GateValue(g, e) != Negated(g.output)]
    requires forall k: nat :: k < |g.inputs| ==> ToAbsName(g.inputs[k]) != ToAbsName(g.output)
    ensures GateHolds(g, f)
  {
    SameValue(g, e, f);
  }

  lemma SameValue(g: Gate, e: Env, f: Env)
    requires forall k: nat :: k < |g.inputs| ==> Value(g.inputs[k], e) == Value(g.inputs[k], f)
    ensures GateValue(g, e) == GateValue(g, f)
  {
    if SomeTrue(g.inputs, e) {
      var i: nat :| i < |g.inputs| && Value(g.inputs[i], e);
      assert Value(g.inputs[i], f);
    }
    if SomeTrue(g.inputs, f) {
      var i: nat :| i < |g.inputs| && Value(g.inputs[i], f);
      assert Value(g.inputs[i], e);
    }
    assert AllTrue(g.inputs, e) == AllTrue(g.inputs, f);
  }

  /** The gate equations leave no choice: the inputs determine every output. */
  lemma {:induction false} Determined(gs: seq<Gate>, inputs: Env, e: Env)
    requires Ordered(gs) && CircuitHolds(gs, e)
    requires inputs.Keys + Outputs(gs) <= e.Keys && InputsOf(gs) <= e.Keys
    requires inputs.Keys !! Outputs(gs) && InputsOf(gs) <= inputs.Keys + Outputs(gs)
    requires forall n: Name :: n in inputs ==> e[n] == inputs[n]
    ensures Evaluate(gs, inputs).Keys == inputs.Keys + Outputs(gs)
    ensures forall n: Name :: n in inputs.Keys + Outputs(gs) ==> Evaluate(gs, inputs)[n] == e[n]
  {
    EvaluateKeys(gs, inputs);
    hide Outputs, InputsOf, Ordered, GateHolds, GateValue, Value;
    if gs != [] {
      var front, g := gs[..|gs| - 1], gs[|gs| - 1];
      OrderedPrefix(gs);
      assert gs == front + [g];
      OutputsAppend(front, g);
      FrontInputs(gs);
      FrontHolds(gs, e);
      Determined(front, inputs, e);
      LastDetermined(gs, Evaluate(front, inputs), e);
    }
  }

  lemma FrontHolds(gs: seq<Gate>, e: Env)
    requires CircuitHolds(gs, e) && gs != []
    ensures CircuitHolds(gs[..|gs| - 1], e)
  {
  }

  lemma LastDetermined(gs: seq<Gate>, f: Env, e: Env)
    requires Ordered(gs) && CircuitHolds(gs, e) && gs != [] && ToAbsName(gs[|gs| - 1].output) in e
    requires f.Keys <= e.Keys && InputsOf(gs) <= f.Keys + {ToAbsName(gs[|gs| - 1].output)}
    requires forall n: Name :: n in f ==> f[n] == e[n]
    ensures var g := gs[|gs| - 1]; (GateValue(g, f) != Negated(g.output)) == e[ToAbsName(g.output)]
  {
    var g := gs[|gs| - 1];
    OrderedPrefix(gs);
    assert GateHolds(gs[|gs| - 1], e);
    forall k: nat | k < |g.inputs| ensures Value(g.inputs[k], e) == Value(g.inputs[k], f) {
      assert g in gs && g.inputs[k] in g.inputs;
      assert ToAbsName(g.inputs[k]) in InputsOf(gs);
    }
    SameValue(g, e, f);
  }

  lemma FrontInputs(gs: seq<Gate>)
    requires gs != [] && Ordered(gs)
    ensures InputsOf(gs[..|gs| - 1]) <= InputsOf(gs)
    ensures ToAbsName(gs[|gs| - 1].output) !in InputsOf(gs[..|gs| - 1])
  {
    var front, g := gs[..|gs| - 1], gs[|gs| - 1];
    forall h: Gate, n: Name | h in front && n in h.inputs ensures ToAbsName(n) != ToAbsName(g.output) {
      var i: nat :| i < |front| && front[i] == h;
      var k: nat :| k < |h.inputs| && h.inputs[k] == n;
      assert gs[i] == h;
    }
  }

  function Restrict(e: Env, names: set<Name>): Env { map n | n in names && n in e :: e[n] }

  lemma RestrictKeys(e: Env, names: set<Name>)
    requires names <= e.Keys
    ensures Restrict(e, names).Keys == names && forall n: Name :: n in names ==> Restrict(e, names)[n] == e[n]
  {
  }

  /** The solutions of the gate equations are the evaluations of their inputs. */
  lemma Reevaluates(gs: seq<Gate>, trueNames: seq<Name>, e: Env)
    requires Ordered(gs) && CircuitHolds(gs, e) && e.Keys == AllNames(gs, trueNames)
    ensures Evaluate(gs, Restrict(e, FreeNames(gs, trueNames))) == e
  {
    hide Ordered, CircuitHolds, Restrict, Evaluate, Outputs, InputsOf, AbsNames;
    var free := FreeNames(gs, trueNames);
    RestrictKeys(e, free);
    Determined(gs, Restrict(e, free), e);
    assert free + Outputs(gs) == e.Keys;
  }

  /** Whether the inputs make every target true. */
  predicate Accepts(gs: seq<Gate>, trueNames: seq<Name>, inputs: Env) { AllTrue(trueNames, Evaluate(gs, inputs)) }
}
