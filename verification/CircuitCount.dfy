/** The encoding keeps the count: models of the file correspond to the accepted inputs of the circuit. */
module CircuitCount {
  import opened Cnf
  import opened Circuit
  import opened DimacsEncoder
  import opened FiniteSets
  import Counting
  import ModelSum
  import Operation
  import Search

  lemma {:induction false} UpToSize(n: nat)
    ensures |Operation.UpTo(n)| == n
  {
    if n > 0 {
      UpToSize(n - 1);
    }
  }

  ghost function IdSet(ids: Ids): set<nat> { set n | n in ids :: ids[n] }

  /** Every id up to the number of names is used. */
  lemma NumberingOnto(ids: Ids)
    requires Numbering(ids)
    ensures IdSet(ids) == Operation.UpTo(|ids|)
  {
    var names, image := ids.Keys, IdSet(ids);
    var f := (n: Name) => if n in ids then ids[n] else 0;
    forall z: nat | z in image ensures Reaches(names, f, z) {
      var n: Name :| n in ids && ids[n] == z;
      assert n in names && f(n) == z;
    }
    SameSize(names, image, f);
    UpToSize(|ids|);
    SubsetSize(image, Operation.UpTo(|ids|));
  }

  // ---- the correspondence ----

  ghost function WithName(envs: set<Env>, n: Name, b: bool): set<Env> { set e | e in envs :: e[n := b] }

  ghost function AllEnvs(names: set<Name>): set<Env> {
    if names == {} then {map[]}
    else
      var n :| n in names;
      WithName(AllEnvs(names - {n}), n, true) + WithName(AllEnvs(names - {n}), n, false)
  }

  lemma {:induction false} AllEnvsHolds(names: set<Name>, e: Env)
    ensures e in AllEnvs(names) <==> e.Keys == names
  {
    if names == {} {
      assert e.Keys == {} ==> e == map[];
    } else {
      var n :| n in names && AllEnvs(names) == WithName(AllEnvs(names - {n}), n, true) + WithName(AllEnvs(names - {n}), n, false);
      var rest := AllEnvs(names - {n});
      if e.Keys == names {
        var d := e - {n};
        AllEnvsHolds(names - {n}, d);
        assert e == d[n := e[n]];
        assert e in WithName(rest, n, e[n]);
      }
      if e in WithName(rest, n, true) + WithName(rest, n, false) {
        var d, b :| d in rest && e == d[n := b];
        AllEnvsHolds(names - {n}, d);
        assert e.Keys == names;
      }
    }
  }

  /** The inputs under which every target name is true. */
  ghost function AcceptedInputs(gs: seq<Gate>, trueNames: seq<Name>): set<Env> {
    set e | e in AllEnvs(FreeNames(gs, trueNames)) && Accepts(gs, trueNames, e)
  }

  ghost predicate Encodes(ids: Ids, gs: seq<Gate>, trueNames: seq<Name>) {
    Numbering(ids) && ids.Keys == AllNames(gs, trueNames) && CircuitKnown(ids, gs) && AllKnown(ids, trueNames) &&
    Ordered(gs) && forall i: nat :: i < |gs| ==> WellTyped(gs[i])
  }

  ghost function InputsPart(ids: Ids, gs: seq<Gate>, trueNames: seq<Name>, a: Asg): Env {
    Restrict(EnvOf(ids, a), FreeNames(gs, trueNames))
  }

  ghost predicate IsModel(ids: Ids, gs: seq<Gate>, trueNames: seq<Name>, a: Asg)
    requires CircuitKnown(ids, gs) && AllKnown(ids, trueNames)
  {
    a.Keys == Operation.UpTo(|ids|) && Sat(GatesClauses(ids, gs) + Units(ids, trueNames), a)
  }

  lemma KeysAssign(ids: Ids, a: Asg)
    requires Numbering(ids) && a.Keys == Operation.UpTo(|ids|)
    ensures Assigns(ids, a) && EnvOf(ids, a).Keys == ids.Keys
  {
  }

  lemma ModelHolds(ids: Ids, gs: seq<Gate>, trueNames: seq<Name>, a: Asg)
    requires Encodes(ids, gs, trueNames) && a.Keys == Operation.UpTo(|ids|)
    ensures EnvOf(ids, a).Keys == AllNames(gs, trueNames)
    ensures CircuitKnown(ids, gs) && AllKnown(ids, trueNames)
    ensures IsModel(ids, gs, trueNames, a) <==> CircuitHolds(gs, EnvOf(ids, a)) && AllTrue(trueNames, EnvOf(ids, a))
  {
    hide Sat, AllTrue, CircuitHolds, Ordered, Numbering, GatesClauses, Units, EnvOf, AllNames;
    KeysAssign(ids, a);
    EncodingMeaning(ids, gs, trueNames, a);
  }

  lemma AllAndFree(gs: seq<Gate>, trueNames: seq<Name>)
    ensures FreeNames(gs, trueNames) + Outputs(gs) == AllNames(gs, trueNames)
    ensures FreeNames(gs, trueNames) !! Outputs(gs)
  {
  }

  lemma InAccepted(gs: seq<Gate>, trueNames: seq<Name>, e: Env)
    ensures e in AcceptedInputs(gs, trueNames) <==> e.Keys == FreeNames(gs, trueNames) && AllTrue(trueNames, Evaluate(gs, e))
  {
    hide AllEnvs, AllTrue, Evaluate, FreeNames;
    AllEnvsHolds(FreeNames(gs, trueNames), e);
  }

  /** A model is the evaluation of its inputs, and these are accepted. */
  lemma ModelAccepted(ids: Ids, gs: seq<Gate>, trueNames: seq<Name>, a: Asg)
    requires Encodes(ids, gs, trueNames) && IsModel(ids, gs, trueNames, a)
    ensures EnvOf(ids, a) == Evaluate(gs, InputsPart(ids, gs, trueNames, a))
    ensures InputsPart(ids, gs, trueNames, a) in AcceptedInputs(gs, trueNames)
  {
    hide AllTrue, CircuitHolds, Ordered, Numbering, CircuitKnown, AllKnown, EnvOf, FreeNames, AllNames, Restrict, AcceptedInputs, Evaluate;
    var e := EnvOf(ids, a);
    ModelHolds(ids, gs, trueNames, a);
    AllAndFree(gs, trueNames);
    RestrictKeys(e, FreeNames(gs, trueNames));
    Reevaluates(gs, trueNames, e);
    InAccepted(gs, trueNames, Restrict(e, FreeNames(gs, trueNames)));
  }

  /** An assignment of the ids is determined by the values of the names. */
  lemma EnvDetermines(ids: Ids, a: Asg, b: Asg)
    requires Numbering(ids) && a.Keys == b.Keys == Operation.UpTo(|ids|) && EnvOf(ids, a) == EnvOf(ids, b)
    ensures a == b
  {
    NumberingOnto(ids);
    forall v: Var | v in a ensures a[v] == b[v] {
      assert v in IdSet(ids);
      var n: Name :| n in ids && ids[n] == v;
      assert EnvOf(ids, a)[n] == EnvOf(ids, b)[n];
    }
  }

  lemma ModelsDiffer(ids: Ids, gs: seq<Gate>, trueNames: seq<Name>, a: Asg, b: Asg)
    requires Encodes(ids, gs, trueNames) && IsModel(ids, gs, trueNames, a) && IsModel(ids, gs, trueNames, b)
    requires InputsPart(ids, gs, trueNames, a) == InputsPart(ids, gs, trueNames, b)
    ensures a == b
  {
    hide Sat, Ordered, CircuitKnown, AllKnown, GatesClauses, Units, InputsPart, AcceptedInputs, EnvOf, Numbering, AllNames;
    ModelAccepted(ids, gs, trueNames, a);
    ModelAccepted(ids, gs, trueNames, b);
    EnvDetermines(ids, a, b);
  }

  ghost function Decode(ids: Ids, e: Env): Asg
    requires Numbering(ids)
  {
    map n | n in ids && n in e :: ids[n] := e[n]
  }

  lemma AcceptedModel(ids: Ids, gs: seq<Gate>, trueNames: seq<Name>, inputs: Env)
    requires Encodes(ids, gs, trueNames) && inputs in AcceptedInputs(gs, trueNames)
    ensures IsModel(ids, gs, trueNames, Decode(ids, Evaluate(gs, inputs)))
    ensures InputsPart(ids, gs, trueNames, Decode(ids, Evaluate(gs, inputs))) == inputs
  {
    hide AllTrue, CircuitHolds, Ordered, Numbering, CircuitKnown, AllKnown, EnvOf, FreeNames, AllNames, Outputs, AcceptedInputs, Decode, IsModel, Evaluate;
    InAccepted(gs, trueNames, inputs);
    var e := Evaluate(gs, inputs);
    EvaluateKeys(gs, inputs);
    EvaluateHolds(gs, inputs);
    AllAndFree(gs, trueNames);
    DecodeKeys(ids, e);
    ModelHolds(ids, gs, trueNames, Decode(ids, e));
    assert Restrict(e, FreeNames(gs, trueNames)) == inputs;
  }

  lemma DecodeKeys(ids: Ids, e: Env)
    requires Numbering(ids) && e.Keys == ids.Keys
    ensures Decode(ids, e).Keys == Operation.UpTo(|ids|) && EnvOf(ids, Decode(ids, e)) == e
  {
    hide Operation.UpTo, Decode, EnvOf, IdSet, Numbering;
    NumberingOnto(ids);
    DecodeDomain(ids, e);
    DecodeValues(ids, e);
    DecodeEnv(ids, Decode(ids, e), e);
  }

  lemma DecodeDomain(ids: Ids, e: Env)
    requires Numbering(ids) && e.Keys == ids.Keys
    ensures Decode(ids, e).Keys == IdSet(ids)
  {
    forall v: nat ensures v in Decode(ids, e).Keys <==> v in IdSet(ids) {
    }
  }

  lemma DecodeEnv(ids: Ids, a: Asg, e: Env)
    requires e.Keys == ids.Keys && forall n: Name :: n in ids ==> ids[n] in a && a[ids[n]] == e[n]
    ensures EnvOf(ids, a) == e
  {
  }

  lemma DecodeValues(ids: Ids, e: Env)
    requires Numbering(ids) && e.Keys == ids.Keys
    ensures forall n: Name :: n in ids ==> ids[n] in Decode(ids, e) && Decode(ids, e)[ids[n]] == e[n]
  {
  }

  /** Models and accepted inputs correspond one to one. */
  lemma ModelsAreInputs(ids: Ids, gs: seq<Gate>, trueNames: seq<Name>, models: set<Asg>)
    requires Encodes(ids, gs, trueNames)
    requires forall a: Asg :: a in models <==> IsModel(ids, gs, trueNames, a)
    ensures |models| == |AcceptedInputs(gs, trueNames)|
  {
    hide IsModel, Encodes, Numbering, AcceptedInputs, InputsPart, Evaluate;
    var f := (a: Asg) => InputsPart(ids, gs, trueNames, a);
    var accepted := AcceptedInputs(gs, trueNames);
    forall a: Asg | a in models ensures f(a) in accepted {
      ModelAccepted(ids, gs, trueNames, a);
    }
    forall a: Asg, b: Asg | a in models && b in models && f(a) == f(b) ensures a == b {
      ModelsDiffer(ids, gs, trueNames, a, b);
    }
    forall inputs: Env | inputs in accepted ensures Reaches(models, f, inputs) {
      EncodesNumbers(ids, gs, trueNames);
      AcceptedModel(ids, gs, trueNames, inputs);
      var a := Decode(ids, Evaluate(gs, inputs));
      assert a in models && f(a) == inputs;
    }
    SameSize(models, accepted, f);
  }

  lemma EncodesNumbers(ids: Ids, gs: seq<Gate>, trueNames: seq<Name>)
    requires Encodes(ids, gs, trueNames)
    ensures Numbering(ids)
  {
  }

  /** A counter run on the encoding with unit weights counts the inputs that make every target true. */
  lemma EncodingCounts(ids: Ids, gs: seq<Gate>, trueNames: seq<Name>, p: Operation.Problem)
    requires Encodes(ids, gs, trueNames)
    requires p.nbVar == |ids| && p.clauses == GatesClauses(ids, gs) + Units(ids, trueNames)
    requires !p.projected && forall l: Lit :: p.weightLit(l) == 1.0
    ensures Search.WeightedModelCount(p) == |AcceptedInputs(gs, trueNames)| as real
  {
    var m, phi := p.M(), Search.AllClauses(p.clauses);
    var models := ModelSum.ProjectedModels(m, p.AllVars(), phi, map[]);
    forall a: Asg ensures a in models <==> IsModel(ids, gs, trueNames, a) {
      WholeModel(p, a);
    }
    ModelsAreInputs(ids, gs, trueNames, models);
    ModelSum.UnitCount(m, models);
  }

  lemma WholeModel(p: Operation.Problem, a: Asg)
    requires !p.projected
    ensures a in ModelSum.ProjectedModels(p.M(), p.AllVars(), Search.AllClauses(p.clauses), map[])
      <==> a.Keys == Operation.UpTo(p.nbVar) && Sat(p.clauses, a)
  {
    FullModel(p.M(), p.AllVars(), Search.AllClauses(p.clauses), a);
  }

  /** With every variable projected and below the bound, a projected model is a model. */
  lemma FullModel(m: Counting.Measure, vs: set<Var>, phi: Counting.Form, a: Asg)
    requires m.proj == vs && forall v: Var :: v in vs ==> v < m.n
    ensures a in ModelSum.ProjectedModels(m, vs, phi, map[]) <==> a.Keys == vs && phi(a)
  {
    hide ModelSum.AllTo, ModelSum.Below, Counting.Extends;
    assert vs * m.proj == vs && vs - m.proj == {};
    ModelSum.AllToHolds(m.n, vs, a);
    BelowAll(m.n, vs);
    assert map[] + a == a;
    Counting.ExtendsNone(phi, a);
  }

  lemma BelowAll(n: nat, vs: set<Var>)
    requires forall v: Var :: v in vs ==> v < n
    ensures ModelSum.Below(n, vs) == vs
  {
  }
}
