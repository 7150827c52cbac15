/** The counted problem and the arithmetic the counter performs on branch results. */
module Operation {
  import opened FiniteSets
  import opened Cnf
  import opened Counting
  import opened Residual

  function UpTo(n: nat): (vs: set<Var>)
    ensures forall v :: v in vs <==> 1 <= v <= n
  {
    if n == 0 then {} else UpTo(n - 1) + {n}
  }

  /** A CNF problem with literal weights; outside projected mode every variable is counted. */
  datatype Problem = Problem(
    nbVar: nat, clauses: Formula, projected: bool, selected: set<Var>,
    weightLit: Lit -> real, weightVar: Var -> real, isUnsat: bool)
  {
    function AllVars(): set<Var> { UpTo(nbVar) }

    predicate IsProjectedMode() { projected }

    predicate IsDecisionVariable(v: Var) {
      if IsProjectedMode() then v in selected else true
    }

    ghost function M(): Measure {
      Measure(nbVar + 1, if IsProjectedMode() then selected else AllVars(), weightLit)
    }

    /** A parsed problem: known variables, no empty clause, and a variable weighs the sum of its literals. */
    ghost predicate Consistent() {
      && (forall c, l :: c in clauses && l in c ==> 1 <= l.v <= nbVar)
      && (forall c :: c in clauses ==> c != [])
      && (forall v :: v in selected ==> 1 <= v <= nbVar)
      && (forall v :: weightVar(v) == weightLit(Lit(v, false)) + weightLit(Lit(v, true)))
      && (isUnsat ==> forall a: Asg :: !Sat(clauses, a))
    }
  }

  function Numbers(n: nat): seq<Var> { seq(n, i requires 0 <= i => i + 1) }

  lemma NumbersHold(n: nat)
    ensures forall v: Var :: v in Numbers(n) <==> 1 <= v <= n
  {
    forall v: Var | 1 <= v <= n
      ensures v in Numbers(n)
    {
      assert Numbers(n)[v - 1] == v;
    }
  }

  /** The variables from 1 on, in order. */
  method ListVars(p: Problem) returns (setOfVar: seq<Var>)
    ensures setOfVar == Numbers(p.nbVar) && NoDup(setOfVar) && Elements(setOfVar) == p.AllVars()
  {
    setOfVar := [];
    for i := 1 to p.nbVar + 1
      invariant |setOfVar| == i - 1 && forall k :: 0 <= k < |setOfVar| ==> setOfVar[k] == k + 1
    {
      setOfVar := setOfVar + [i];
    }
    forall v: Var
      ensures v in setOfVar <==> v in p.AllVars()
    {
      assert 1 <= v <= p.nbVar ==> setOfVar[v - 1] == v;
    }
  }

  /** The result of one branch, with the literals and variables it fixed or freed. */
  datatype DataBranch = DataBranch(d: real, unitLits: seq<Lit>, freeVars: seq<Var>)

  function RawLits(p: Problem, lits: seq<Lit>): real {
    if lits == [] then 1.0 else p.weightLit(lits[0]) * RawLits(p, lits[1..])
  }

  function RawVars(p: Problem, vs: seq<Var>): real {
    if vs == [] then 1.0 else p.weightVar(vs[0]) * RawVars(p, vs[1..])
  }

  /** The factor by which the units and free variables of a branch scale its count. */
  function UnitFree(p: Problem, units: seq<Lit>, frees: seq<Var>): real {
    RawLits(p, units) * RawVars(p, frees)
  }

  method ComputeWeightUnitFree(p: Problem, units: seq<Lit>, frees: seq<Var>) returns (tmp: real)
    ensures tmp == UnitFree(p, units, frees)
  {
    hide *;
    tmp := 1.0;
    for i := 0 to |units|
      invariant tmp * RawLits(p, units[i..]) == RawLits(p, units)
    {
      PeelLit(p, units, i, tmp);
      tmp := tmp * p.weightLit(units[i]);
    }
    RawNothing(p, units, frees, tmp);
    for i := 0 to |frees|
      invariant tmp * RawVars(p, frees[i..]) == UnitFree(p, units, frees)
    {
      PeelVar(p, frees, i, tmp);
      tmp := tmp * p.weightVar(frees[i]);
    }
    RawNothing(p, units, frees, tmp);
  }

  lemma PeelLit(p: Problem, units: seq<Lit>, i: nat, tmp: real)
    requires i < |units|
    ensures tmp * RawLits(p, units[i..]) == (tmp * p.weightLit(units[i])) * RawLits(p, units[i + 1..])
  {
    assert units[i..][1..] == units[i + 1..];
    Associate(tmp, p.weightLit(units[i]), RawLits(p, units[i + 1..]));
  }

  lemma PeelVar(p: Problem, frees: seq<Var>, i: nat, tmp: real)
    requires i < |frees|
    ensures tmp * RawVars(p, frees[i..]) == (tmp * p.weightVar(frees[i])) * RawVars(p, frees[i + 1..])
  {
    assert frees[i..][1..] == frees[i + 1..];
    Associate(tmp, p.weightVar(frees[i]), RawVars(p, frees[i + 1..]));
  }

  lemma RawNothing(p: Problem, units: seq<Lit>, frees: seq<Var>, tmp: real)
    ensures units[0..] == units && frees[0..] == frees
    ensures tmp * RawLits(p, units[|units|..]) == tmp
    ensures tmp * RawVars(p, frees[|frees|..]) == tmp
    ensures UnitFree(p, units, frees) == RawLits(p, units) * RawVars(p, frees)
    ensures 1.0 * RawLits(p, units) == RawLits(p, units)
  {
  }

  lemma Associate(x: real, y: real, z: real)
    ensures (x * y) * z == x * (y * z)
  {
  }

  function BranchSum(p: Problem, b: seq<DataBranch>): real {
    if b == [] then 0.0
    else
      var e := b[|b| - 1];
      BranchSum(p, b[..|b| - 1]) + e.d * UnitFree(p, e.unitLits, e.freeVars)
  }

  function Product(s: seq<real>): real {
    if s == [] then 1.0 else Product(s[..|s| - 1]) * s[|s| - 1]
  }

  /** Sums the branches of a decision node. */
  method ManageDeterministOr(p: Problem, elts: array<DataBranch>, size: nat) returns (ret: real)
    requires size <= elts.Length
    ensures ret == BranchSum(p, elts[..size])
  {
    ret := 0.0;
    for i := 0 to size
      invariant ret == BranchSum(p, elts[..i])
    {
      var w := ComputeWeightUnitFree(p, elts[i].unitLits, elts[i].freeVars);
      assert elts[..i + 1][..i] == elts[..i];
      ret := ret + elts[i].d * w;
    }
  }

  /** Multiplies the counts of independent components. */
  method ManageDecomposableAnd(elts: array<real>, size: nat) returns (ret: real)
    requires 0 < size <= elts.Length
    ensures ret == Product(elts[..size])
  {
    if size == 1 {
      assert elts[..1][..0] == [];
      return elts[0];
    }
    if size == 2 {
      assert elts[..2][..1] == elts[..1] && elts[..1][..0] == [];
      assert Product(elts[..1]) == elts[0];
      return elts[0] * elts[1];
    }
    ret := 1.0;
    for i := 0 to size
      invariant ret == Product(elts[..i])
    {
      assert elts[..i + 1][..i] == elts[..i];
      ret := ret * elts[i];
    }
  }

  lemma NoProduct(fix: real)
    ensures fix == fix * Product([])
  {
  }

  lemma ProductSnoc(rs: seq<real>, r: real, fix: real, count: real)
    requires count == fix * Product(rs)
    ensures count * r == fix * Product(rs + [r])
  {
    assert (rs + [r])[..|rs|] == rs;
    Associate(fix, Product(rs), r);
  }

  // ---------- Expelling what is not counted ----------

  function KeepLits(p: Problem, lits: seq<Lit>): seq<Lit> {
    if lits == [] then []
    else (if p.IsDecisionVariable(lits[0].v) then [lits[0]] else []) + KeepLits(p, lits[1..])
  }

  function KeepVars(p: Problem, vs: seq<Var>): seq<Var> {
    if vs == [] then []
    else (if p.IsDecisionVariable(vs[0]) then [vs[0]] else []) + KeepVars(p, vs[1..])
  }

  method ExpelNoDecisionLit(p: Problem, orig: seq<Lit>) returns (lits: seq<Lit>)
    ensures lits == KeepLits(p, orig)
  {
    lits := orig;
    if !p.IsProjectedMode() {
      KeepAllLits(p, orig);
      return;
    }
    var j := 0;
    for i := 0 to |lits|
      invariant 0 <= j <= i <= |lits| == |orig|
      invariant lits[..j] + KeepLits(p, orig[i..]) == KeepLits(p, orig)
      invariant forall t :: i <= t < |lits| ==> lits[t] == orig[t]
    {
      assert orig[i..][1..] == orig[i + 1..];
      if p.IsDecisionVariable(lits[i].v) {
        lits := lits[j := lits[i]];
        j := j + 1;
      }
    }
    lits := lits[..j];
  }

  method ExpelNoDecisionVar(p: Problem, orig: seq<Var>) returns (vars: seq<Var>)
    ensures vars == KeepVars(p, orig)
  {
    vars := orig;
    if !p.IsProjectedMode() {
      KeepAllVars(p, orig);
      return;
    }
    var j := 0;
    for i := 0 to |vars|
      invariant 0 <= j <= i <= |vars| == |orig|
      invariant vars[..j] + KeepVars(p, orig[i..]) == KeepVars(p, orig)
      invariant forall t :: i <= t < |vars| ==> vars[t] == orig[t]
    {
      assert orig[i..][1..] == orig[i + 1..];
      if p.IsDecisionVariable(vars[i]) {
        vars := vars[j := vars[i]];
        j := j + 1;
      }
    }
    vars := vars[..j];
  }

  lemma {:induction false} KeepAllLits(p: Problem, lits: seq<Lit>)
    requires !p.IsProjectedMode()
    ensures KeepLits(p, lits) == lits
  {
    if lits != [] {
      KeepAllLits(p, lits[1..]);
    }
  }

  lemma {:induction false} KeepAllVars(p: Problem, vs: seq<Var>)
    requires !p.IsProjectedMode()
    ensures KeepVars(p, vs) == vs
  {
    if vs != [] {
      KeepAllVars(p, vs[1..]);
    }
  }

  // ---------- The scaling factor is the weight of the expelled lists ----------

  lemma KeepLitsCons(p: Problem, lits: seq<Lit>)
    requires lits != []
    ensures KeepLits(p, lits) == if p.IsDecisionVariable(lits[0].v) then [lits[0]] + KeepLits(p, lits[1..]) else KeepLits(p, lits[1..])
  {
    assert [] + KeepLits(p, lits[1..]) == KeepLits(p, lits[1..]);
  }

  lemma KeepVarsCons(p: Problem, vs: seq<Var>)
    requires vs != []
    ensures KeepVars(p, vs) == if p.IsDecisionVariable(vs[0]) then [vs[0]] + KeepVars(p, vs[1..]) else KeepVars(p, vs[1..])
  {
    assert [] + KeepVars(p, vs[1..]) == KeepVars(p, vs[1..]);
  }

  lemma RawLitsCons(p: Problem, l: Lit, rest: seq<Lit>)
    ensures RawLits(p, [l] + rest) == p.weightLit(l) * RawLits(p, rest)
  {
    assert ([l] + rest)[1..] == rest;
  }

  lemma RawVarsCons(p: Problem, v: Var, rest: seq<Var>)
    ensures RawVars(p, [v] + rest) == p.weightVar(v) * RawVars(p, rest)
  {
    assert ([v] + rest)[1..] == rest;
  }

  lemma KeptLitsStep(p: Problem, lits: seq<Lit>)
    requires p.Consistent() && lits != [] && 1 <= lits[0].v <= p.nbVar
    ensures RawLits(p, KeepLits(p, lits)) == LitWeight(p.M(), lits[0]) * RawLits(p, KeepLits(p, lits[1..]))
  {
    hide *;
    KeepLitsCons(p, lits);
    KeptWeight(p, lits[0]);
    RawLitsCons(p, lits[0], KeepLits(p, lits[1..]));
  }

  lemma KeptWeight(p: Problem, l: Lit)
    requires p.Consistent() && 1 <= l.v <= p.nbVar
    ensures LitWeight(p.M(), l) == if p.IsDecisionVariable(l.v) then p.weightLit(l) else 1.0
    ensures VarWeight(p.M(), l.v) == if p.IsDecisionVariable(l.v) then p.weightVar(l.v) else 1.0
  {
  }

  /** Multiplying the kept literals' weights gives the weight of the whole list. */
  lemma {:induction false} KeptLitsWeight(p: Problem, lits: seq<Lit>)
    requires p.Consistent()
    requires forall l :: l in lits ==> 1 <= l.v <= p.nbVar
    ensures RawLits(p, KeepLits(p, lits)) == LitsWeight(p.M(), lits)
  {
    hide RawLits, KeepLits, LitWeight, Problem.M, Problem.Consistent;
    if lits == [] {
      assert KeepLits(p, lits) == [] && RawLits(p, []) == 1.0 by { KeptNothing(p); }
    } else {
      KeptLitsWeight(p, lits[1..]);
      KeptLitsStep(p, lits);
      UnfoldWeight(p.M(), lits);
    }
  }

  lemma KeptNothing(p: Problem)
    ensures KeepLits(p, []) == [] && RawLits(p, []) == 1.0
    ensures KeepVars(p, []) == [] && RawVars(p, []) == 1.0
  {
  }

  lemma UnfoldVarsWeight(m: Measure, vs: seq<Var>)
    requires vs != []
    ensures VarsWeight(m, vs) == VarWeight(m, vs[0]) * VarsWeight(m, vs[1..])
  {
    hide VarWeight;
  }

  lemma KeptVarsStep(p: Problem, vs: seq<Var>)
    requires p.Consistent() && vs != [] && 1 <= vs[0] <= p.nbVar
    ensures RawVars(p, KeepVars(p, vs)) == VarWeight(p.M(), vs[0]) * RawVars(p, KeepVars(p, vs[1..]))
  {
    hide *;
    KeepVarsCons(p, vs);
    KeptWeight(p, Lit(vs[0], false));
    RawVarsCons(p, vs[0], KeepVars(p, vs[1..]));
  }

  lemma {:induction false} KeptVarsWeight(p: Problem, vs: seq<Var>)
    requires p.Consistent()
    requires forall v :: v in vs ==> 1 <= v <= p.nbVar
    ensures RawVars(p, KeepVars(p, vs)) == VarsWeight(p.M(), vs)
  {
    hide RawVars, KeepVars, VarWeight, Problem.M, Problem.Consistent;
    if vs == [] {
      assert KeepVars(p, vs) == [] && RawVars(p, []) == 1.0 by { KeptNothing(p); }
    } else {
      assert vs[0] in vs && forall v: Var :: v in vs[1..] ==> v in vs;
      KeptVarsWeight(p, vs[1..]);
      KeptVarsStep(p, vs);
      UnfoldVarsWeight(p.M(), vs);
    }
  }
}
