/** The definitional encoding of a gate list into CNF. */
module DimacsEncoder {
  import opened Cnf
  import opened Circuit

  type Ids = map<Name, nat>

  /** The ids are 1, 2, ... up to the number of names, each used once. */
  ghost predicate Numbering(ids: Ids) {
    (forall n: Name :: n in ids ==> 1 <= ids[n] <= |ids|) &&
    (forall n: Name, m: Name :: n in ids && m in ids && n != m ==> ids[n] != ids[m])
  }

  predicate Known(ids: Ids, n: Name) { ToAbsName(n) in ids }

  predicate AllKnown(ids: Ids, ns: seq<Name>) { forall i: nat :: i < |ns| ==> Known(ids, ns[i]) }

  predicate GateKnown(ids: Ids, g: Gate) { Known(ids, g.output) && AllKnown(ids, g.inputs) }

  function LitOf(ids: Ids, n: Name): Lit
    requires Known(ids, n)
  {
    Lit(ids[ToAbsName(n)], Negated(n))
  }

  /** A leading "-" negates the literal of a name and keeps its variable. */
  lemma LitPolarity(ids: Ids, n: Name)
    requires (|n| == 0 || n[0] != '-') && n in ids
    ensures Known(ids, n) && Known(ids, "-" + n)
    ensures LitOf(ids, n) == Lit(ids[n], false) && LitOf(ids, "-" + n) == Lit(ids[n], true) == LitOf(ids, n).Neg()
  {
    Polarity(n, map[]);
  }

  function Lits(ids: Ids, ns: seq<Name>): seq<Lit>
    requires AllKnown(ids, ns)
  {
    seq(|ns|, (i: nat) requires i < |ns| => LitOf(ids, ns[i]))
  }

  function Negs(ls: seq<Lit>): seq<Lit> { seq(|ls|, (i: nat) requires i < |ls| => ls[i].Neg()) }

  /** One binary clause for every input. */
  function Binary(first: Lit, ls: seq<Lit>): Formula { seq(|ls|, (i: nat) requires i < |ls| => [first, ls[i]]) }

  function GateClauses(ids: Ids, g: Gate): Formula
    requires GateKnown(ids, g)
  {
    var h, ls := LitOf(ids, g.output), Lits(ids, g.inputs);
    match g.gtype
    case And => [[h] + Negs(ls)] + Binary(h.Neg(), ls)
    case Or => [[h.Neg()] + ls] + Binary(h, Negs(ls))
    case Identity => Binary(h, Negs(ls)) + Binary(h.Neg(), ls)
  }

  predicate CircuitKnown(ids: Ids, gs: seq<Gate>) { forall i: nat :: i < |gs| ==> GateKnown(ids, gs[i]) }

  function GatesClauses(ids: Ids, gs: seq<Gate>): Formula
    requires CircuitKnown(ids, gs)
  {
    if gs == [] then [] else GatesClauses(ids, gs[..|gs| - 1]) + GateClauses(ids, gs[|gs| - 1])
  }

  function Units(ids: Ids, ns: seq<Name>): Formula
    requires AllKnown(ids, ns)
  {
    seq(|ns|, (i: nat) requires i < |ns| => [LitOf(ids, ns[i])])
  }

  /** The values an assignment of the ids gives to the names. */
  ghost function EnvOf(ids: Ids, a: Asg): Env { map n | n in ids && ids[n] in a :: a[ids[n]] }

  predicate Assigns(ids: Ids, a: Asg) { forall n: Name :: n in ids ==> ids[n] in a }

  // ---- meaning of the clauses ----

  lemma LitMeaning(ids: Ids, n: Name, a: Asg)
    requires Known(ids, n) && Assigns(ids, a)
    ensures TrueIn(LitOf(ids, n), a) == Value(n, EnvOf(ids, a))
    ensures TrueIn(LitOf(ids, n).Neg(), a) == !Value(n, EnvOf(ids, a))
  {
  }

  lemma BinarySat(first: Lit, ls: seq<Lit>, a: Asg)
    ensures Sat(Binary(first, ls), a) <==> forall i: nat :: i < |ls| ==> TrueIn(first, a) || TrueIn(ls[i], a)
  {
    var f := Binary(first, ls);
    forall i: nat | i < |ls| ensures SatClause(f[i], a) <==> TrueIn(first, a) || TrueIn(ls[i], a) {
      assert f[i] == [first, ls[i]];
      assert TrueIn(first, a) ==> TrueIn(f[i][0], a);
      assert TrueIn(ls[i], a) ==> TrueIn(f[i][1], a);
    }
    if Sat(f, a) {
      forall i: nat | i < |ls| ensures TrueIn(first, a) || TrueIn(ls[i], a) {
        assert f[i] in f;
      }
    }
  }

  lemma LongSat(first: Lit, ls: seq<Lit>, a: Asg)
    ensures SatClause([first] + ls, a) <==> TrueIn(first, a) || exists i: nat :: i < |ls| && TrueIn(ls[i], a)
  {
    var c := [first] + ls;
    if TrueIn(first, a) {
      assert TrueIn(c[0], a);
    }
    if i: nat :| i < |ls| && TrueIn(ls[i], a) {
      assert TrueIn(c[i + 1], a);
    }
  }

  lemma SatAppend(f: Formula, g: Formula, a: Asg)
    ensures Sat(f + g, a) <==> Sat(f, a) && Sat(g, a)
  {
    forall c: Clause ensures c in f + g <==> c in f || c in g {
    }
  }

  lemma SatOne(c: Clause, a: Asg)
    ensures Sat([c], a) <==> SatClause(c, a)
  {
    assert c in [c];
  }

  /** The clauses of a gate say exactly that the output equals the gate's value. */
  lemma GateMeaning(ids: Ids, g: Gate, a: Asg)
    requires GateKnown(ids, g) && Assigns(ids, a) && WellTyped(g)
    ensures Sat(GateClauses(ids, g), a) <==> GateHolds(g, EnvOf(ids, a))
  {
    hide Sat, SatClause, TrueIn, EnvOf, Value, LitOf;
    var h, ls, e := LitOf(ids, g.output), Lits(ids, g.inputs), EnvOf(ids, a);
    var ns := Negs(ls);
    LitMeaning(ids, g.output, a);
    forall i: nat | i < |ls|
      ensures TrueIn(ls[i], a) == Value(g.inputs[i], e) && TrueIn(ns[i], a) == !Value(g.inputs[i], e)
    {
      LitMeaning(ids, g.inputs[i], a);
    }
    match g.gtype
    case And =>
      LongSat(h, ns, a);
      SatOne([h] + ns, a);
      BinarySat(h.Neg(), ls, a);
      SatAppend([[h] + ns], Binary(h.Neg(), ls), a);
      AndMeaning(g, e, ls, ns, a);
    case Or =>
      LongSat(h.Neg(), ls, a);
      SatOne([h.Neg()] + ls, a);
      BinarySat(h, ns, a);
      SatAppend([[h.Neg()] + ls], Binary(h, ns), a);
      OrMeaning(g, e, ls, ns, a);
    case Identity =>
      BinarySat(h, ns, a);
      BinarySat(h.Neg(), ls, a);
      SatAppend(Binary(h, ns), Binary(h.Neg(), ls), a);
  }

  lemma AndMeaning(g: Gate, e: Env, ls: seq<Lit>, ns: seq<Lit>, a: Asg)
    requires |g.inputs| == |ls| == |ns|
    requires forall i: nat :: i < |ls| ==> TrueIn(ls[i], a) == Value(g.inputs[i], e) && TrueIn(ns[i], a) == !Value(g.inputs[i], e)
    ensures (exists i: nat :: i < |ns| && TrueIn(ns[i], a)) <==> !AllTrue(g.inputs, e)
    ensures (forall i: nat :: i < |ls| ==> TrueIn(ls[i], a)) <==> AllTrue(g.inputs, e)
  {
    if !AllTrue(g.inputs, e) {
      var i: nat :| i < |g.inputs| && !Value(g.inputs[i], e);
      assert TrueIn(ns[i], a) && !TrueIn(ls[i], a);
    }
  }

  lemma OrMeaning(g: Gate, e: Env, ls: seq<Lit>, ns: seq<Lit>, a: Asg)
    requires |g.inputs| == |ls| == |ns|
    requires forall i: nat :: i < |ls| ==> TrueIn(ls[i], a) == Value(g.inputs[i], e) && TrueIn(ns[i], a) == !Value(g.inputs[i], e)
    ensures (exists i: nat :: i < |ls| && TrueIn(ls[i], a)) <==> SomeTrue(g.inputs, e)
    ensures (forall i: nat :: i < |ns| ==> TrueIn(ns[i], a)) <==> !SomeTrue(g.inputs, e)
  {
    if SomeTrue(g.inputs, e) {
      var i: nat :| i < |g.inputs| && Value(g.inputs[i], e);
      assert TrueIn(ls[i], a) && !TrueIn(ns[i], a);
    }
    if !SomeTrue(g.inputs, e) {
      forall i: nat | i < |ns| ensures TrueIn(ns[i], a) {
        assert !Value(g.inputs[i], e);
      }
    }
  }

  lemma {:induction false} GatesMeaning(ids: Ids, gs: seq<Gate>, a: Asg)
    requires CircuitKnown(ids, gs) && Assigns(ids, a) && forall i: nat :: i < |gs| ==> WellTyped(gs[i])
    ensures Sat(GatesClauses(ids, gs), a) <==> CircuitHolds(gs, EnvOf(ids, a))
  {
    hide Sat, GateClauses, GateHolds, EnvOf;
    if gs == [] {
      NothingSat(a);
    } else {
      var front, g := gs[..|gs| - 1], gs[|gs| - 1];
      GatesMeaning(ids, front, a);
      GateMeaning(ids, g, a);
      SatAppend(GatesClauses(ids, front), GateClauses(ids, g), a);
      assert gs == front + [g];
      HoldsAppend(front, g, EnvOf(ids, a));
    }
  }

  lemma HoldsAppend(gs: seq<Gate>, g: Gate, e: Env)
    ensures CircuitHolds(gs + [g], e) <==> CircuitHolds(gs, e) && GateHolds(g, e)
  {
    if CircuitHolds(gs + [g], e) {
      assert GateHolds((gs + [g])[|gs|], e);
      forall i: nat | i < |gs| ensures GateHolds(gs[i], e) {
        assert GateHolds((gs + [g])[i], e);
      }
    }
  }

  lemma NothingSat(a: Asg)
    ensures Sat([], a)
  {
  }

  lemma UnitsMeaning(ids: Ids, ns: seq<Name>, a: Asg)
    requires AllKnown(ids, ns) && Assigns(ids, a)
    ensures Sat(Units(ids, ns), a) <==> AllTrue(ns, EnvOf(ids, a))
  {
    hide EnvOf;
    var f, e := Units(ids, ns), EnvOf(ids, a);
    forall i: nat | i < |ns| ensures SatClause(f[i], a) <==> Value(ns[i], e) {
      LitMeaning(ids, ns[i], a);
      assert f[i] == [LitOf(ids, ns[i])];
      assert Value(ns[i], e) ==> TrueIn(f[i][0], a);
    }
    if Sat(f, a) {
      forall i: nat | i < |ns| ensures Value(ns[i], e) {
        assert f[i] in f;
      }
    }
  }

  /** The models of the whole file are the assignments under which the circuit holds and every target is true. */
  lemma EncodingMeaning(ids: Ids, gs: seq<Gate>, trueNames: seq<Name>, a: Asg)
    requires CircuitKnown(ids, gs) && AllKnown(ids, trueNames) && Assigns(ids, a)
    requires forall i: nat :: i < |gs| ==> WellTyped(gs[i])
    ensures Sat(GatesClauses(ids, gs) + Units(ids, trueNames), a)
      <==> CircuitHolds(gs, EnvOf(ids, a)) && AllTrue(trueNames, EnvOf(ids, a))
  {
    GatesMeaning(ids, gs, a);
    UnitsMeaning(ids, trueNames, a);
    SatAppend(GatesClauses(ids, gs), Units(ids, trueNames), a);
  }

  // ---- the encoder ----

  /** `later` has all the ids of `ids`. */
  predicate Grown(ids: Ids, later: Ids) { forall n: Name :: n in ids ==> n in later && later[n] == ids[n] }

  lemma GrownGate(ids: Ids, later: Ids, g: Gate)
    requires GateKnown(ids, g) && Grown(ids, later)
    ensures GateKnown(later, g) && GateClauses(later, g) == GateClauses(ids, g)
  {
    assert Lits(later, g.inputs) == Lits(ids, g.inputs);
  }

  lemma {:induction false} GrownGates(ids: Ids, later: Ids, gs: seq<Gate>)
    requires CircuitKnown(ids, gs) && Grown(ids, later)
    ensures CircuitKnown(later, gs) && GatesClauses(later, gs) == GatesClauses(ids, gs)
  {
    hide GateClauses, GateKnown;
    forall i: nat | i < |gs| ensures GateKnown(later, gs[i]) {
      GrownGate(ids, later, gs[i]);
    }
    if gs != [] {
      GrownGates(ids, later, gs[..|gs| - 1]);
      GrownGate(ids, later, gs[|gs| - 1]);
    }
  }

  /** `l` is the variable of the bare name, negated if the name starts with a minus sign. */
  ghost predicate Stands(ids: Ids, name: Name, l: Lit) {
    forall n: Name :: (n == [] || n[0] != '-') && (name == n || name == "-" + n) ==> n in ids && l == Lit(ids[n], name != n)
  }

  method GetGid(ids: Ids, name: Name) returns (l: Lit, later: Ids)
    requires Numbering(ids)
    ensures Numbering(later) && Grown(ids, later) && later.Keys == ids.Keys + {ToAbsName(name)}
    ensures Known(later, name) && l == LitOf(later, name)
    ensures Stands(later, name, l)
  {
    later := ids;
    var absName := ToAbsName(name);
    if absName !in ids {
      later := ids[absName := |ids| + 1];
      assert later.Keys == ids.Keys + {absName};
      assert |later| == |later.Keys| == |ids.Keys| + 1 == |ids| + 1;
    }
    l := Lit(later[absName], Negated(name));
    forall n: Name | (n == [] || n[0] != '-') && (name == n || name == "-" + n)
      ensures n in later && l == Lit(later[n], name != n)
    {
      LitPolarity(later, n);
    }
  }

  /** `later` knows the names of `start` and those of `ns`, and no others. */
  ghost predicate Adds(start: Ids, later: Ids, ns: seq<Name>) { later.Keys == start.Keys + AbsNames(ns) }

  lemma AddsNext(start: Ids, before: Ids, later: Ids, ns: seq<Name>, n: Name)
    requires Adds(start, before, ns) && later.Keys == before.Keys + {ToAbsName(n)}
    ensures Adds(start, later, ns + [n])
  {
    NamesAppend(ns, n);
  }

  lemma NoGids(ids: Ids)
    ensures Adds(ids, ids, []) && Grown(ids, ids) && AllKnown(ids, []) && Lits(ids, []) == []
  {
  }

  lemma GidsStep(start: Ids, before: Ids, later: Ids, ns: seq<Name>, n: Name)
    requires Grown(start, before) && Grown(before, later) && AllKnown(before, ns) && Known(later, n)
    ensures Grown(start, later) && AllKnown(later, ns + [n])
    ensures Lits(later, ns + [n]) == Lits(before, ns) + [LitOf(later, n)]
  {
    assert AllKnown(later, ns);
    assert Lits(later, ns) == Lits(before, ns);
  }

  method GetGids(ids: Ids, names: seq<Name>) returns (ls: seq<Lit>, later: Ids)
    requires Numbering(ids)
    ensures Numbering(later) && Grown(ids, later) && Adds(ids, later, names)
    ensures AllKnown(later, names) && ls == Lits(later, names)
  {
    hide Numbering, Adds, Grown, AllKnown, Known, Lits, LitOf;
    ls, later := [], ids;
    NoGids(ids);
    for i := 0 to |names|
      invariant Numbering(later) && Grown(ids, later) && Adds(ids, later, names[..i])
      invariant AllKnown(later, names[..i]) && ls == Lits(later, names[..i])
    {
      var before := later;
      var l: Lit;
      l, later := GetGid(before, names[i]);
      assert names[..i + 1] == names[..i] + [names[i]];
      AddsNext(ids, before, later, names[..i], names[i]);
      GidsStep(ids, before, later, names[..i], names[i]);
      ls := ls + [l];
    }
    assert names[..|names|] == names;
  }

  /** Writes the clauses of one gate. */
  method WriteGate(g: Gate, h: Lit, ls: seq<Lit>) returns (f: Formula)
    requires WellTyped(g) && |ls| == |g.inputs|
    ensures f == match g.gtype
      case And => [[h] + Negs(ls)] + Binary(h.Neg(), ls)
      case Or => [[h.Neg()] + ls] + Binary(h, Negs(ls))
      case Identity => Binary(h, Negs(ls)) + Binary(h.Neg(), ls)
    ensures |f| == |g.inputs| + 1
  {
    match g.gtype
    case And =>
      var c := [h];
      for i := 0 to |ls|
        invariant c == [h] + Negs(ls)[..i]
      {
        c := c + [ls[i].Neg()];
      }
      assert Negs(ls)[..|ls|] == Negs(ls);
      f := [c];
      for i := 0 to |ls|
        invariant f == [c] + Binary(h.Neg(), ls)[..i]
      {
        f := f + [[h.Neg(), ls[i]]];
      }
      assert Binary(h.Neg(), ls)[..|ls|] == Binary(h.Neg(), ls);
    case Or =>
      var c := [h.Neg()];
      for i := 0 to |ls|
        invariant c == [h.Neg()] + ls[..i]
      {
        c := c + [ls[i]];
      }
      assert ls[..|ls|] == ls;
      f := [c];
      for i := 0 to |ls|
        invariant f == [c] + Binary(h, Negs(ls))[..i]
      {
        f := f + [[h, ls[i].Neg()]];
      }
      assert Binary(h, Negs(ls))[..|ls|] == Binary(h, Negs(ls));
    case Identity =>
      f := [[h, ls[0].Neg()], [h.Neg(), ls[0]]];
      assert Binary(h, Negs(ls)) == [[h, ls[0].Neg()]] && Binary(h.Neg(), ls) == [[h.Neg(), ls[0]]];
  }

  function InputTotal(gs: seq<Gate>): nat { if gs == [] then 0 else InputTotal(gs[..|gs| - 1]) + |gs[|gs| - 1].inputs| + 1 }

  method CountClauses(list: GateList) returns (numClauses: nat)
    ensures numClauses == InputTotal(list.gates) + |list.trueNames|
  {
    numClauses := 0;
    for i := 0 to |list.gates|
      invariant numClauses == InputTotal(list.gates[..i])
    {
      assert list.gates[..i + 1][..i] == list.gates[..i];
      numClauses := numClauses + |list.gates[i].inputs| + 1;
    }
    assert list.gates[..|list.gates|] == list.gates;
    numClauses := numClauses + |list.trueNames|;
  }

  /** The ids are those of the names the gates use. */
  ghost predicate Drives(ids: Ids, gs: seq<Gate>) { ids.Keys == Outputs(gs) + InputsOf(gs) }

  lemma DrivesNext(before: Ids, mid: Ids, ids: Ids, gs: seq<Gate>, g: Gate)
    requires Drives(before, gs) && mid.Keys == before.Keys + {ToAbsName(g.output)} && Adds(mid, ids, g.inputs)
    ensures Drives(ids, gs + [g])
  {
    OutputsAppend(gs, g);
  }

  method WriteGates(gs: seq<Gate>) returns (f: Formula, ids: Ids)
    requires forall g: Gate :: g in gs ==> WellTyped(g)
    ensures Numbering(ids) && Drives(ids, gs)
    ensures CircuitKnown(ids, gs) && f == GatesClauses(ids, gs) && |f| == InputTotal(gs)
  {
    hide Numbering, Drives, Adds, GateClauses, Negs, Binary, Lits, Known, AllKnown, GateKnown, CircuitKnown, GatesClauses, Grown, InputTotal, LitOf, Stands;
    ids, f := map[], [];
    NoIds();
    for i := 0 to |gs|
      invariant Numbering(ids) && Drives(ids, gs[..i])
      invariant CircuitKnown(ids, gs[..i]) && f == GatesClauses(ids, gs[..i])
      invariant |f| == InputTotal(gs[..i])
    {
      var g, before := gs[i], ids;
      assert g in gs;
      var h: Lit, ls: seq<Lit>, mid: Ids;
      h, mid := GetGid(before, g.output);
      ls, ids := GetGids(mid, g.inputs);
      LitsLength(ids, g.inputs);
      var part := WriteGate(g, h, ls);
      WrittenGate(mid, ids, g, h, ls, part);
      GrownTwice(before, mid, ids);
      GrownGates(before, ids, gs[..i]);
      DrivesNext(before, mid, ids, gs[..i], g);
      assert gs[..i + 1] == gs[..i] + [g];
      KnownAppend(ids, gs[..i], g);
      f := f + part;
    }
    assert gs[..|gs|] == gs;
  }

  lemma LitsLength(ids: Ids, ns: seq<Name>)
    requires AllKnown(ids, ns)
    ensures |Lits(ids, ns)| == |ns|
  {
  }

  lemma GrownTwice(ids: Ids, mid: Ids, later: Ids)
    requires Grown(ids, mid) && Grown(mid, later)
    ensures Grown(ids, later)
  {
  }

  method WriteUnits(gs: seq<Gate>, names: seq<Name>, ids0: Ids) returns (f: Formula, ids: Ids)
    requires Numbering(ids0) && CircuitKnown(ids0, gs)
    ensures Numbering(ids) && Adds(ids0, ids, names)
    ensures CircuitKnown(ids, gs) && GatesClauses(ids, gs) == GatesClauses(ids0, gs)
    ensures AllKnown(ids, names) && f == Units(ids, names)
  {
    hide Numbering, Adds, GatesClauses, CircuitKnown, AllKnown, Known, LitOf, Grown, Units;
    f, ids := [], ids0;
    NoUnits(ids);
    for i := 0 to |names|
      invariant Numbering(ids) && Adds(ids0, ids, names[..i])
      invariant CircuitKnown(ids, gs) && GatesClauses(ids, gs) == GatesClauses(ids0, gs)
      invariant AllKnown(ids, names[..i]) && f == Units(ids, names[..i])
    {
      var before := ids;
      var l: Lit;
      l, ids := GetGid(before, names[i]);
      GrownGates(before, ids, gs);
      GrownUnits(before, ids, names[..i], names[i]);
      AddsNext(ids0, before, ids, names[..i], names[i]);
      assert names[..i + 1] == names[..i] + [names[i]];
      f := f + [[l]];
    }
    assert names[..|names|] == names;
  }

  lemma NoUnits(ids: Ids)
    ensures Adds(ids, ids, []) && AllKnown(ids, []) && Units(ids, []) == []
  {
  }

  /** The file: declared numbers of variables and clauses, and the clauses with the ids they use. */
  method GatesToDimacs(list: GateList) returns (numVars: nat, numClauses: nat, f: Formula, ids: Ids)
    requires list.Valid()
    ensures Numbering(ids) && ids.Keys == AllNames(list.gates, list.trueNames)
    ensures CircuitKnown(ids, list.gates) && AllKnown(ids, list.trueNames)
    ensures f == GatesClauses(ids, list.gates) + Units(ids, list.trueNames)
    ensures numClauses == |f|
    ensures numVars == |list.gates| + |FreeNames(list.gates, list.trueNames)|
  {
    numVars := list.NbVars();
    numClauses := CountClauses(list);
    var body, units: Formula, mid: Ids;
    body, mid := WriteGates(list.gates);
    units, ids := WriteUnits(list.gates, list.trueNames, mid);
    f := body + units;
  }

  /** The declared number of variables is the number of ids exactly when no two gates share an output. */
  lemma DeclaredVariables(gs: seq<Gate>, trueNames: seq<Name>)
    ensures |gs| + |FreeNames(gs, trueNames)| == |AllNames(gs, trueNames)| <==> DistinctOutputs(gs)
  {
    assert AllNames(gs, trueNames) == Outputs(gs) + FreeNames(gs, trueNames);
    OutputCount(gs);
  }

  lemma {:induction false} OutputCount(gs: seq<Gate>)
    ensures |Outputs(gs)| <= |gs|
    ensures |Outputs(gs)| == |gs| <==> DistinctOutputs(gs)
  {
    hide DistinctOutputs, Outputs;
    NoOutputs();
    if gs != [] {
      var front, g := gs[..|gs| - 1], gs[|gs| - 1];
      OutputCount(front);
      assert gs == front + [g];
      OutputsAppend(front, g);
      DistinctNext(front, g);
      if ToAbsName(g.output) in Outputs(front) {
        assert Outputs(gs) == Outputs(front);
      }
    }
  }

  lemma NoOutputs()
    ensures Outputs([]) == {} && DistinctOutputs([])
  {
  }

  lemma NoIds()
    ensures Numbering(map[]) && Drives(map[], [])
    ensures CircuitKnown(map[], []) && GatesClauses(map[], []) == [] && InputTotal([]) == 0
  {
  }

  lemma KnownAppend(ids: Ids, gs: seq<Gate>, g: Gate)
    requires CircuitKnown(ids, gs) && GateKnown(ids, g)
    ensures CircuitKnown(ids, gs + [g]) && GatesClauses(ids, gs + [g]) == GatesClauses(ids, gs) + GateClauses(ids, g)
    ensures InputTotal(gs + [g]) == InputTotal(gs) + |g.inputs| + 1
  {
    assert (gs + [g])[..|gs|] == gs;
  }

  lemma WrittenGate(mid: Ids, ids: Ids, g: Gate, h: Lit, ls: seq<Lit>, part: Formula)
    requires Known(mid, g.output) && h == LitOf(mid, g.output) && Grown(mid, ids)
    requires AllKnown(ids, g.inputs) && ls == Lits(ids, g.inputs)
    requires part == match g.gtype
      case And => [[h] + Negs(ls)] + Binary(h.Neg(), ls)
      case Or => [[h.Neg()] + ls] + Binary(h, Negs(ls))
      case Identity => Binary(h, Negs(ls)) + Binary(h.Neg(), ls)
    ensures GateKnown(ids, g) && part == GateClauses(ids, g)
  {
  }

  lemma GrownUnits(ids: Ids, later: Ids, ns: seq<Name>, n: Name)
    requires AllKnown(ids, ns) && Grown(ids, later) && Known(later, n)
    ensures AllKnown(later, ns + [n]) && Units(later, ns + [n]) == Units(ids, ns) + [[LitOf(later, n)]]
  {
  }
}
