/**
  Max#SAT: maximise, over the assignments of one block of variables, the weighted count of
  the projected models that remain.
*/
module MaxSharpSat {
  import opened FiniteSets
  import opened Wrappers
  import opened Cnf
  import opened Counting
  import opened ModelSum
  import opened MaxCounting
  import opened Residual
  import opened MaxResidual
  import opened Components
  import opened ComponentFinder
  import opened Operation
  import opened Caching
  import opened Search

  /** A missing valuation means that every valuation does. */
  datatype MaxSharpSatResult = MaxSharpSatResult(count: real, valuation: Option<Asg>)

  ghost predicate Solved(m: Measure, block: set<Var>, vs: set<Var>, phi: Form, a: Asg, r: real, valuation: Option<Asg>) {
    match valuation
    case Some(v) => BestAt(m, block, vs, phi, a, r, v)
    case None => forall v: Asg :: block <= v.Keys ==> BestAt(m, block, vs, phi, a, r, v)
  }

  /** `r` is the best score of the open clauses over `vars` under the assumptions, and `valuation` attains it. */
  ghost predicate ResSolved(p: Problem, block: set<Var>, vars: seq<Var>, assumed: seq<Lit>, trail: Asg, r: real, valuation: Option<Asg>) {
    Solved(p.M(), block, Elements(vars), Res(p.clauses, Elements(vars), Lits(assumed)), trail, r, valuation)
  }

  ghost predicate ScaledSolved(p: Problem, block: set<Var>, vars: seq<Var>, assumed: seq<Lit>, trail: Asg,
      result: MaxSharpSatResult, units: seq<Lit>, frees: seq<Var>)
  {
    ResSolved(p, block, vars, assumed, trail, Scaled(p, result.count, units, frees), result.valuation)
  }

  lemma SolvedAt(m: Measure, block: set<Var>, vs: set<Var>, phi: Form, a: Asg, r: real, valuation: Option<Asg>, w: Asg)
    requires Solved(m, block, vs, phi, a, r, valuation) && block <= w.Keys
    requires valuation.Some? ==> forall x: Var :: x in vs * block ==> x in valuation.value && w[x] == valuation.value[x]
    ensures BestAt(m, block, vs, phi, a, r, w)
  {
    if valuation.Some? {
      BestSame(m, block, vs, phi, a, r, valuation.value, w);
    }
  }

  // ---------- Nothing to maximise ----------

  lemma ExtendsUnder(block: set<Var>, vs: set<Var>, phi: Form, a: Asg, e: Asg)
    requires e.Keys == vs * block
    ensures Extends(vs - block, phi, a + e) ==> Extends(vs, phi, a)
  {
    if Extends(vs - block, phi, a + e) {
      var g :| Witness(vs - block, phi, a + e, g);
      assert a + e + g == a + (e + g);
      assert Witness(vs, phi, a, e + g);
    }
  }

  lemma UnsatScore(m: Measure, block: set<Var>, vs: set<Var>, phi: Form, a: Asg, e: Asg)
    requires !Extends(vs, phi, a) && e.Keys == vs * block
    ensures Score(m, block, vs, phi, a, e) == 0.0
  {
    hide Extends, Count;
    ExtendsUnder(block, vs, phi, a, e);
    CountZero(m, vs - block, phi, a + e);
  }

  lemma UnsatBest(m: Measure, block: set<Var>, vs: set<Var>, phi: Form, a: Asg, v: Asg)
    requires !Extends(vs, phi, a) && block <= v.Keys
    ensures BestAt(m, block, vs, phi, a, 0.0, v)
  {
    hide Extends, Score;
    assert Restrict(v, vs * block).Keys == vs * block;
    forall e: Asg | e.Keys == vs * block
      ensures Score(m, block, vs, phi, a, e) == 0.0
    {
      UnsatScore(m, block, vs, phi, a, e);
    }
  }

  lemma UnsatSolved(p: Problem, block: set<Var>, assumption: seq<Lit>, trail: Asg, vars: seq<Var>)
    requires !Satisfiable(p.clauses, Elements(vars), Lits(assumption), trail)
    ensures ScaledSolved(p, block, vars, assumption, trail, MaxSharpSatResult(0.0, None), [], [])
  {
    var phi := Res(p.clauses, Elements(vars), Lits(assumption));
    UnsatCount(p, assumption, trail, vars);
    assert !Extends(Elements(vars), phi, trail);
    hide Extends, BestAt, UnitFree;
    forall v: Asg | block <= v.Keys
      ensures BestAt(p.M(), block, Elements(vars), phi, trail, 0.0, v)
    {
      UnsatBest(p.M(), block, Elements(vars), phi, trail, v);
    }
  }

  /** Without block variables the best score is the count. */
  lemma OffBlockSolved(p: Problem, block: set<Var>, trail: Asg, vars: seq<Var>)
    requires Elements(vars) !! block
    ensures ResSolved(p, block, vars, [], trail, CountOf(p, vars, [], trail), None)
  {
    var vs, phi := Elements(vars), Res(p.clauses, Elements(vars), Lits([]));
    CountOfIs(p, vars, [], trail);
    hide Count, Best, CountOf, Res, Problem.M;
    forall v: Asg | block <= v.Keys
      ensures BestAt(p.M(), block, vs, phi, trail, CountOf(p, vars, [], trail), v)
    {
      assert Restrict(v, vs * block) == map[];
      BestOffBlock(p.M(), block, vs, phi, trail);
    }
  }

  // ---------- Branching ----------

  lemma BranchConditioned(f: Formula, vs: set<Var>, assumed: set<Lit>, more: set<Lit>, trail: Asg, l: Lit)
    requires l.v in vs && more == assumed + {l}
    ensures Conditioned(vs, Res(f, vs, assumed), Res(f, vs, more), trail, l)
  {
    forall e: Asg | e.Keys == vs
      ensures Res(f, vs, more)(trail + e) == (Res(f, vs, assumed)(trail + e) && TrueIn(l, e))
    {
      assert TrueIn(l, trail + e) == TrueIn(l, e);
    }
  }

  lemma BranchBest(p: Problem, block: set<Var>, base: seq<Lit>, trail: Asg, vars: seq<Var>, l: Lit, r: real, r2: real, v: Asg, o2: Option<Asg>)
    requires NonNegative(p.M()) && l.v in vars && l.v in block
    requires BestAt(p.M(), block, Elements(vars), Res(p.clauses, Elements(vars), Lits(base + [l])), trail, r, v)
    requires ResSolved(p, block, vars, base + [l.Neg()], trail, r2, o2) && r2 <= r
    ensures BestAt(p.M(), block, Elements(vars), Res(p.clauses, Elements(vars), Lits(base)), trail, r, v)
  {
    var m, vs, f := p.M(), Elements(vars), p.clauses;
    assert Lits(base + [l]) == Lits(base) + {l} && Lits(base + [l.Neg()]) == Lits(base) + {l.Neg()};
    var phi, p1, p2 := Res(f, vs, Lits(base)), Res(f, vs, Lits(base + [l])), Res(f, vs, Lits(base + [l.Neg()]));
    assert l.v in vs * block && l.Neg().v == l.v;
    SolvedBounded(m, block, vs, p2, trail, r2, o2, v);
    hide *;
    BranchConditioned(f, vs, Lits(base), Lits(base + [l]), trail, l);
    BranchConditioned(f, vs, Lits(base), Lits(base + [l.Neg()]), trail, l.Neg());
    BestAtParts(m, block, vs, p1, trail, r, v);
    BestBranch(m, block, vs, phi, p1, p2, trail, l, r, r2, Restrict(v, vs * block));
    BestAtWhole(m, block, vs, phi, trail, r, v);
  }

  lemma SolvedBounded(m: Measure, block: set<Var>, vs: set<Var>, phi: Form, a: Asg, r: real, o: Option<Asg>, v: Asg)
    requires Solved(m, block, vs, phi, a, r, o) && block <= v.Keys
    ensures Bounded(m, block, vs, phi, a, r)
  {
    hide Bounded, Score;
    if o.None? {
      assert BestAt(m, block, vs, phi, a, r, v);
    }
  }

  lemma BranchSolved(p: Problem, block: set<Var>, base: seq<Lit>, trail: Asg, vars: seq<Var>, l: Lit, r: real, r2: real, o: Option<Asg>, o2: Option<Asg>)
    requires NonNegative(p.M()) && l.v in vars && l.v in block
    requires ResSolved(p, block, vars, base + [l], trail, r, o)
    requires ResSolved(p, block, vars, base + [l.Neg()], trail, r2, o2) && r2 <= r
    ensures ResSolved(p, block, vars, base, trail, r, o)
  {
    hide BestAt, Problem.M, Res, NonNegative;
    match o {
      case Some(v) => BranchBest(p, block, base, trail, vars, l, r, r2, v, o2);
      case None =>
        forall v: Asg | block <= v.Keys
          ensures BestAt(p.M(), block, Elements(vars), Res(p.clauses, Elements(vars), Lits(base)), trail, r, v)
        {
          BranchBest(p, block, base, trail, vars, l, r, r2, v, o2);
        }
    }
  }

  /** The larger of the two branches on a block variable solves the node. */
  lemma DecisionSolved(p: Problem, block: set<Var>, base: seq<Lit>, trail: Asg, vars: seq<Var>, l: Lit,
      r0: real, o0: Option<Asg>, r1: real, o1: Option<Asg>)
    requires NonNegative(p.M()) && l.v in vars && l.v in block
    requires forall k :: k in base ==> k.v !in vars
    requires ResSolved(p, block, vars, base + [l], trail, r0, o0)
    requires ResSolved(p, block, vars, base + [l.Neg()], trail, r1, o1)
    ensures ResSolved(p, block, vars, [], trail, if r0 > r1 then r0 else r1, if r0 > r1 then o0 else o1)
  {
    assert l.Neg().Neg() == l && l.Neg().v == l.v;
    hide *;
    if r0 > r1 {
      BranchSolved(p, block, base, trail, vars, l, r0, r1, o0, o1);
      SolvedElsewhere(p, block, base, [], trail, vars, r0, o0);
    } else {
      BranchSolved(p, block, base, trail, vars, l.Neg(), r1, r0, o1, o0);
      SolvedElsewhere(p, block, base, [], trail, vars, r1, o1);
    }
  }

  lemma SolvedCongruence(m: Measure, block: set<Var>, vs: set<Var>, phi: Form, a: Asg, psi: Form, b: Asg, r: real, o: Option<Asg>)
    requires Solved(m, block, vs, phi, a, r, o) && Agree(vs, phi, a, psi, b)
    ensures Solved(m, block, vs, psi, b, r, o)
  {
    hide BestAt, Agree;
    match o {
      case Some(v) => BestAtCongruence(m, block, vs, phi, a, psi, b, r, v);
      case None =>
        forall v: Asg | block <= v.Keys
          ensures BestAt(m, block, vs, psi, b, r, v)
        {
          BestAtCongruence(m, block, vs, phi, a, psi, b, r, v);
        }
    }
  }

  lemma SolvedElsewhere(p: Problem, block: set<Var>, a1: seq<Lit>, a2: seq<Lit>, trail: Asg, vars: seq<Var>, r: real, o: Option<Asg>)
    requires forall l: Lit :: l.v in vars ==> (l in a1 <==> l in a2)
    requires ResSolved(p, block, vars, a1, trail, r, o)
    ensures ResSolved(p, block, vars, a2, trail, r, o)
  {
    var vs := Elements(vars);
    assert forall b :: Holds(p.clauses, vs, Lits(a1), b) == Holds(p.clauses, vs, Lits(a2), b);
    assert Agree(vs, Res(p.clauses, vs, Lits(a1)), trail, Res(p.clauses, vs, Lits(a2)), trail);
    hide Solved, Agree, Holds;
    SolvedCongruence(p.M(), block, vs, Res(p.clauses, vs, Lits(a1)), trail, Res(p.clauses, vs, Lits(a2)), trail, r, o);
  }

  // ---------- Fixed literals and free variables ----------

  /** The weight of the block literals among the units. */
  function BlockLits(p: Problem, block: set<Var>, lits: seq<Lit>): real {
    if lits == [] then 1.0 else BlockLit(p, block, lits[0]) * BlockLits(p, block, lits[1..])
  }

  function BlockLit(p: Problem, block: set<Var>, l: Lit): real {
    if l.v in block then p.weightLit(l) else 1.0
  }

  /** The literal a free block variable is fixed to. */
  function Preferred(p: Problem, v: Var): Lit {
    if p.weightLit(Lit(v, false)) < p.weightLit(Lit(v, true)) then Lit(v, true) else Lit(v, false)
  }

  function BlockVar(p: Problem, block: set<Var>, v: Var): real {
    if v in block then p.weightLit(Preferred(p, v)) else 1.0
  }

  /** The weight of the preferred literals of the free block variables. */
  function BlockVars(p: Problem, block: set<Var>, vars: seq<Var>): real {
    if vars == [] then 1.0 else BlockVar(p, block, vars[0]) * BlockVars(p, block, vars[1..])
  }

  /** A maximisation problem: the counted variables are selected and are not in the block. */
  ghost predicate MaxProblem(p: Problem, block: set<Var>) {
    && p.Consistent() && p.projected && block !! p.selected
    && (forall v :: v in block ==> 1 <= v <= p.nbVar)
    && (forall l :: p.weightLit(l) >= 0.0)
  }

  lemma MaxMeasure(p: Problem, block: set<Var>)
    requires MaxProblem(p, block)
    ensures NonNegative(p.M()) && p.Consistent() && p.M().n == p.nbVar + 1
  {
  }

  lemma FixWeightParts(p: Problem, block: set<Var>, l: Lit)
    requires MaxProblem(p, block) && 1 <= l.v <= p.nbVar
    ensures FixWeight(p.M(), block, l) == if l.v in block then p.weightLit(l) else LitWeight(p.M(), l)
    ensures l.v in block ==> LitWeight(p.M(), l) == 1.0
    ensures FreeWeight(p.M(), block, l.v) == if l.v in block then p.weightLit(Preferred(p, l.v)) else VarWeight(p.M(), l.v)
    ensures l.v in block ==> VarWeight(p.M(), l.v) == 1.0
  {
  }

  lemma Cross(x: real, y: real, a: real, b: real, xy: real, ab: real, xa: real, yb: real)
    requires xy == x * y && ab == a * b && xa == x * a && yb == y * b
    ensures xy * ab == xa * yb
  {
    assert (x * y) * (a * b) == (x * a) * (y * b);
  }

  /** Block literals are weighed on the spot, the others by the caller. */
  lemma {:induction false} FixLitsParts(p: Problem, block: set<Var>, lits: seq<Lit>)
    requires MaxProblem(p, block) && forall l :: l in lits ==> 1 <= l.v <= p.nbVar
    ensures FixLits(p.M(), block, lits) == BlockLits(p, block, lits) * LitsWeight(p.M(), lits)
  {
    hide *;
    FixLitsUnfold(p, block, lits);
    if lits != [] {
      var l := lits[0];
      assert l in lits && forall k :: k in lits[1..] ==> k in lits;
      FixLitsParts(p, block, lits[1..]);
      BlockLitParts(p, block, l);
      Cross(BlockLit(p, block, l), LitWeight(p.M(), l), BlockLits(p, block, lits[1..]), LitsWeight(p.M(), lits[1..]),
            FixWeight(p.M(), block, l), FixLits(p.M(), block, lits[1..]), BlockLits(p, block, lits), LitsWeight(p.M(), lits));
    }
  }

  lemma BlockLitParts(p: Problem, block: set<Var>, l: Lit)
    requires MaxProblem(p, block) && 1 <= l.v <= p.nbVar
    ensures FixWeight(p.M(), block, l) == BlockLit(p, block, l) * LitWeight(p.M(), l)
  {
    hide MaxProblem, LitWeight, FixWeight;
    FixWeightParts(p, block, l);
  }

  lemma FixLitsUnfold(p: Problem, block: set<Var>, lits: seq<Lit>)
    ensures lits == [] ==> FixLits(p.M(), block, lits) == BlockLits(p, block, lits) * LitsWeight(p.M(), lits)
    ensures lits != [] ==>
      && FixLits(p.M(), block, lits) == FixWeight(p.M(), block, lits[0]) * FixLits(p.M(), block, lits[1..])
      && BlockLits(p, block, lits) == BlockLit(p, block, lits[0]) * BlockLits(p, block, lits[1..])
      && LitsWeight(p.M(), lits) == LitWeight(p.M(), lits[0]) * LitsWeight(p.M(), lits[1..])
  {
    hide FixWeight, BlockLit, LitWeight, Problem.M;
  }

  lemma {:induction false} FreeVarsParts(p: Problem, block: set<Var>, vars: seq<Var>)
    requires MaxProblem(p, block) && forall v: Var :: v in vars ==> 1 <= v <= p.nbVar
    ensures FreeVars(p.M(), block, vars) == BlockVars(p, block, vars) * VarsWeight(p.M(), vars)
  {
    hide *;
    FreeVarsUnfold(p, block, vars);
    if vars != [] {
      var v := vars[0];
      assert v in vars && forall k: Var :: k in vars[1..] ==> k in vars;
      FreeVarsParts(p, block, vars[1..]);
      BlockVarParts(p, block, v);
      Cross(BlockVar(p, block, v), VarWeight(p.M(), v), BlockVars(p, block, vars[1..]), VarsWeight(p.M(), vars[1..]),
            FreeWeight(p.M(), block, v), FreeVars(p.M(), block, vars[1..]), BlockVars(p, block, vars), VarsWeight(p.M(), vars));
    }
  }

  lemma BlockVarParts(p: Problem, block: set<Var>, v: Var)
    requires MaxProblem(p, block) && 1 <= v <= p.nbVar
    ensures FreeWeight(p.M(), block, v) == BlockVar(p, block, v) * VarWeight(p.M(), v)
  {
    hide MaxProblem, VarWeight, FreeWeight, Preferred;
    FixWeightParts(p, block, Lit(v, false));
  }

  lemma FreeVarsUnfold(p: Problem, block: set<Var>, vars: seq<Var>)
    ensures vars == [] ==> FreeVars(p.M(), block, vars) == BlockVars(p, block, vars) * VarsWeight(p.M(), vars)
    ensures vars != [] ==>
      && FreeVars(p.M(), block, vars) == FreeWeight(p.M(), block, vars[0]) * FreeVars(p.M(), block, vars[1..])
      && BlockVars(p, block, vars) == BlockVar(p, block, vars[0]) * BlockVars(p, block, vars[1..])
      && VarsWeight(p.M(), vars) == VarWeight(p.M(), vars[0]) * VarsWeight(p.M(), vars[1..])
  {
    hide FreeWeight, BlockVar, VarWeight, Problem.M;
  }

  lemma Collect(bl: real, lw: real, bv: real, vw: real, pr: real, uf: real, fl: real, fv: real, d: real, r1: real)
    requires fl == bl * lw && fv == bv * vw && uf == lw * vw && d == (bv * bl) * pr && r1 == fv * pr
    ensures fl * r1 == d * uf
  {
    assert (bl * lw) * ((bv * vw) * pr) == ((bv * bl) * pr) * (lw * vw);
  }

  /** The result of a call, scaled by the units and free variables it reports, is the best score of the residual formula. */
  lemma ScaledIsBest(p: Problem, block: set<Var>, assumption: seq<Lit>, trail: Asg, vars: seq<Var>, u: seq<Lit>,
      comps: seq<seq<Var>>, free: seq<Var>, rs: seq<real>, d: real, v: Asg)
    requires MaxProblem(p, block) && block <= v.Keys
    requires Ready(p, assumption, trail, vars) && UnitsOf(p, assumption, trail, vars, u)
    requires Satisfiable(p.clauses, Elements(vars), Lits(assumption), trail)
    requires IsSplit(p.clauses, vars, trail + AsgOf(u), comps, free)
    requires PartsBest(p.M(), block, p.clauses, trail + AsgOf(u), comps, rs, v)
    requires Heaviest(p.M(), block, free, v) && Follows(block, u, v)
    requires d == (BlockVars(p, block, free) * BlockLits(p, block, u)) * ProductFrom(rs, 0)
    ensures ScaledSolved(p, block, vars, assumption, trail, MaxSharpSatResult(d, Some(v)), KeepLits(p, u), KeepVars(p, free))
  {
    hide *;
    MaxMeasure(p, block);
    UnitsRange(p, assumption, trail, vars, u);
    ReadyRange(p, assumption, trail, vars);
    var m, f, t, vs := p.M(), p.clauses, trail + AsgOf(u), Elements(vars) - LitVars(u);
    AfterUnits(p, assumption, trail, vars, u);
    UnassignedAfter(trail, vars, u);
    SplitRange(f, vars, t, comps, free);
    assert |rs| == |comps| by { PartsMany(m, block, f, t, comps, rs, v); }
    var r1 := FreeVars(m, block, free) * ProductFrom(rs, 0);
    BestParts(m, block, f, vars, t, comps, free, vs, rs, r1, v);
    var r := FixLits(m, block, u) * r1;
    UnitsHere(p, assumption, trail, vars, u);
    BestUnits(m, block, f, Elements(vars), Lits(assumption), trail, u, r1, r, v);
    FixLitsParts(p, block, u);
    FreeVarsParts(p, block, free);
    KeptLitsWeight(p, u);
    KeptVarsWeight(p, free);
    UnitFreeFactors(p, KeepLits(p, u), KeepVars(p, free));
    var uf := UnitFree(p, KeepLits(p, u), KeepVars(p, free));
    Collect(BlockLits(p, block, u), LitsWeight(m, u), BlockVars(p, block, free), VarsWeight(m, free), ProductFrom(rs, 0), uf,
            FixLits(m, block, u), FreeVars(m, block, free), d, r1);
    assert r == Scaled(p, d, KeepLits(p, u), KeepVars(p, free)) by { ScaledIs(p, d, KeepLits(p, u), KeepVars(p, free)); }
    ScaledHere(p, block, assumption, trail, vars, d, KeepLits(p, u), KeepVars(p, free), r, v);
  }

  lemma ScaledIs(p: Problem, d: real, units: seq<Lit>, frees: seq<Var>)
    ensures Scaled(p, d, units, frees) == d * UnitFree(p, units, frees)
  {
    hide UnitFree;
  }

  lemma PartsMany(m: Measure, block: set<Var>, f: Formula, trail: Asg, comps: seq<seq<Var>>, rs: seq<real>, v: Asg)
    requires PartsBest(m, block, f, trail, comps, rs, v)
    ensures |rs| == |comps|
  {
  }

  lemma UnitsHere(p: Problem, assumption: seq<Lit>, trail: Asg, vars: seq<Var>, u: seq<Lit>)
    requires UnitsOf(p, assumption, trail, vars, u)
    ensures forall l :: l in u ==> l.v in Elements(vars) && Implied(p.clauses, Elements(vars), Lits(assumption), trail, l)
    ensures forall l :: l in Lits(assumption) && l.v in Elements(vars) ==> l in u
  {
    hide Implied;
  }

  lemma ScaledHere(p: Problem, block: set<Var>, assumption: seq<Lit>, trail: Asg, vars: seq<Var>, d: real, units: seq<Lit>, frees: seq<Var>, r: real, v: Asg)
    requires BestAt(p.M(), block, Elements(vars), Res(p.clauses, Elements(vars), Lits(assumption)), trail, r, v)
    requires r == Scaled(p, d, units, frees)
    ensures ScaledSolved(p, block, vars, assumption, trail, MaxSharpSatResult(d, Some(v)), units, frees)
  {
    hide BestAt, Scaled, Res, Lits, Problem.M;
  }

  // ---------- The cache of maximisation results ----------

  function MaxKey(b: CachedBucket<real>): CachedBucket<MaxSharpSatResult> {
    CachedBucket(b.data, b.header, MaxSharpSatResult(0.0, None))
  }

  /** A cached result solves every component encoded by its key. */
  ghost predicate EntrySolved(p: Problem, block: set<Var>, o: Oracles, b: CachedBucket<MaxSharpSatResult>) {
    forall trail: Asg, vars: seq<Var> :: Asked(p, p.nbVar, trail, vars) && SameKey(MaxKey(o.bucket(trail, vars)), b) ==>
      ResSolved(p, block, vars, [], trail, b.fc.count, b.fc.valuation)
  }

  lemma FreshEntrySolved(p: Problem, block: set<Var>, o: Oracles, trail: Asg, vars: seq<Var>, e: CachedBucket<MaxSharpSatResult>, val: MaxSharpSatResult)
    requires BucketOk(p, o, p.nbVar) && Asked(p, p.nbVar, trail, vars) && SameKey(e, MaxKey(o.bucket(trail, vars)))
    requires ResSolved(p, block, vars, [], trail, val.count, val.valuation)
    ensures EntrySolved(p, block, o, e.LockedBucket(val))
  {
    hide Solved, OpenClauses, Residual.Open, Agree;
    forall trail': Asg, vars': seq<Var> | Asked(p, p.nbVar, trail', vars') && SameKey(MaxKey(o.bucket(trail', vars')), e.LockedBucket(val))
      ensures ResSolved(p, block, vars', [], trail', val.count, val.valuation)
    {
      assert SameKey(o.bucket(trail, vars), o.bucket(trail', vars'));
      var vs := Elements(vars);
      SameOpenClausesAgree(p.clauses, p.nbVar + 1, vs, trail, trail');
      assert Lits([]) == {};
      SolvedCongruence(p.M(), block, vs, Res(p.clauses, vs, {}), trail, Res(p.clauses, vs, {}), trail', val.count, val.valuation);
    }
  }

  // ---------- Combining components ----------

  ghost predicate Apart(comps: seq<seq<Var>>) {
    forall i, j, x: Var :: 0 <= i < j < |comps| && x in comps[i] ==> x !in comps[j]
  }

  /** The first `k` components are solved and merged; the others are still all false. */
  ghost predicate Progress(m: Measure, block: set<Var>, f: Formula, trail: Asg, comps: seq<seq<Var>>, rs: seq<real>, val: Asg) {
    && |rs| <= |comps| && block <= val.Keys
    && (forall j :: 0 <= j < |rs| ==> BestAt(m, block, Elements(comps[j]), Res(f, Elements(comps[j]), {}), trail, rs[j], val))
    && (forall j, x: Var :: |rs| <= j < |comps| && x in comps[j] && x in block ==> !val[x])
  }

  /** `res` with the block variables of `vars` or-ed from `other`. */
  ghost predicate IsOr(block: set<Var>, vars: seq<Var>, res: Asg, other: Asg, r: Asg) {
    && r.Keys == res.Keys
    && (forall x: Var :: x in res ==> r[x] == (res[x] || (x in vars && x in block && x in other && other[x])))
  }

  lemma ProgressStep(m: Measure, block: set<Var>, f: Formula, trail: Asg, comps: seq<seq<Var>>, rs: seq<real>, val: Asg,
      r: real, o: Option<Asg>, val': Asg)
    requires Progress(m, block, f, trail, comps, rs, val) && |rs| < |comps| && Apart(comps)
    requires Solved(m, block, Elements(comps[|rs|]), Res(f, Elements(comps[|rs|]), {}), trail, r, o)
    requires if o.Some? then block <= o.value.Keys && IsOr(block, comps[|rs|], val, o.value, val') else val' == val
    ensures Progress(m, block, f, trail, comps, rs + [r], val')
  {
    var k, rs' := |rs|, rs + [r];
    hide BestAt, Solved, Res;
    SolvedAt(m, block, Elements(comps[k]), Res(f, Elements(comps[k]), {}), trail, r, o, val');
    forall j | 0 <= j < |rs'|
      ensures BestAt(m, block, Elements(comps[j]), Res(f, Elements(comps[j]), {}), trail, rs'[j], val')
    {
      if j < k {
        BestSame(m, block, Elements(comps[j]), Res(f, Elements(comps[j]), {}), trail, rs[j], val, val');
      }
    }
  }

  lemma {:induction false} ProductsAgree(rs: seq<real>, i: nat)
    requires i <= |rs|
    ensures Operation.Product(rs[..i]) * ProductFrom(rs, i) == ProductFrom(rs, 0)
  {
    if i != 0 {
      ProductsAgree(rs, i - 1);
      assert rs[..i][..i - 1] == rs[..i - 1];
      Operation.Associate(Operation.Product(rs[..i - 1]), rs[i - 1], ProductFrom(rs, i));
    }
  }

  lemma ProductIsProduct(rs: seq<real>)
    ensures Operation.Product(rs) == ProductFrom(rs, 0)
  {
    ProductsAgree(rs, |rs|);
    assert rs[..|rs|] == rs;
  }

  // ---------- Both values of one variable ----------

  lemma BothReady(p: Problem, base: seq<Lit>, trail: Asg, vars: seq<Var>, l: Lit)
    requires ComponentReady(p, base, trail, vars) && l.v in vars
    ensures forall k :: k in base ==> k.v != l.v
    ensures Ready(p, base + [l], trail, vars) && Ready(p, base + [l.Neg()], trail, vars)
    ensures Bound(base + [l], vars) < |vars| && Bound(base + [l.Neg()], vars) < |vars|
  {
    hide Open, Satisfiable;
    assert Ready(p, base, trail, vars);
    hide Ready;
    ReadyPush(p, base, trail, vars, l);
    ReadyPush(p, base, trail, vars, l.Neg());
    assert l in base + [l] && l.Neg() in base + [l.Neg()];
  }

  lemma BothCounted(p: Problem, base: seq<Lit>, trail: Asg, vars: seq<Var>, l: Lit)
    requires p.Consistent() && ComponentReady(p, base, trail, vars) && l.v in vars && p.IsDecisionVariable(l.v)
    ensures CountOf(p, vars, base + [l], trail) + CountOf(p, vars, base + [l.Neg()], trail) == CountOf(p, vars, [], trail)
  {
    hide Open, Satisfiable, Problem.Consistent, CountOf, Ready;
    BranchStep(p, base, trail, vars, l);
    AssumptionsElsewhere(p, base, [], trail, vars);
  }

  lemma NothingSelected(p: Problem, base: seq<Lit>, trail: Asg, vars: seq<Var>)
    requires ComponentReady(p, base, trail, vars) && forall v: Var :: v in vars ==> !p.IsDecisionVariable(v)
    ensures CountOf(p, vars, [], trail) == 1.0
  {
    hide ComponentReady, CountOf;
    NothingToDecide(p, base, trail, vars, []);
  }

  class MaxSharpSAT {
    const problem: Problem
    const maxVar: set<Var>
    const oracles: Oracles
    const solver: WrapperSolver
    const specs: CnfManager
    const cacheInd: CacheManager<real>
    const cacheMax: CacheManager<MaxSharpSatResult>

    /** The scores and the phases of the heuristics; the first argument stands for their hidden state. */
    const scoreMax: (nat, Var) -> real
    const scoreInd: (nat, Var) -> real
    const phaseMax: (nat, Var) -> bool
    const phaseInd: (nat, Var) -> bool

    var nbCallCall: nat
    var nbCallProj: nat
    var nbDecisionNode: nat
    var nbSplitMax: nat
    var nbSplitInd: nat

    ghost predicate Inv()
      reads cacheInd, cacheMax, specs`mustUnMark, specs.pos, specs.markView
      ensures Inv() ==> MaxProblem(problem, maxVar) && OraclesOk(problem, oracles)
      ensures Inv() ==> solver.problem == problem && solver.oracles == oracles
      ensures Inv() ==> specs.clauses == problem.clauses && specs.nbVar == problem.nbVar && specs.Clean()
      ensures Inv() ==> cacheInd.Valid() && cacheMax.Valid() && cacheInd as object != cacheMax as object
    {
      && MaxProblem(problem, maxVar) && OraclesOk(problem, oracles)
      && solver.problem == problem && solver.oracles == oracles
      && specs.clauses == problem.clauses && specs.nbVar == problem.nbVar && specs.Clean()
      && cacheInd.Valid() && cacheMax.Valid() && cacheInd as object != cacheMax as object
      && BucketOk(problem, oracles, problem.nbVar)
      && (forall b :: b in cacheInd.inserted ==> EntrySound(problem, oracles, problem.nbVar, b))
      && (forall b :: b in cacheMax.inserted ==> EntrySolved(problem, maxVar, oracles, b))
    }

    /** Both caches start empty. */
    constructor (problem: Problem, maxVar: set<Var>, oracles: Oracles, solver: WrapperSolver, specs: CnfManager,
        cacheInd: CacheManager<real>, cacheMax: CacheManager<MaxSharpSatResult>,
        scoreMax: (nat, Var) -> real, scoreInd: (nat, Var) -> real, phaseMax: (nat, Var) -> bool, phaseInd: (nat, Var) -> bool)
      requires MaxProblem(problem, maxVar) && OraclesOk(problem, oracles) && BucketOk(problem, oracles, problem.nbVar)
      requires solver.problem == problem && solver.oracles == oracles && solver.assumption == []
      requires specs.clauses == problem.clauses && specs.nbVar == problem.nbVar && specs.Clean() && specs.value == map[]
      requires cacheInd.Valid() && cacheMax.Valid() && cacheInd as object != cacheMax as object
      requires cacheInd.inserted == {} && cacheMax.inserted == {}
      ensures Inv() && this.problem == problem && this.maxVar == maxVar
      ensures this.solver == solver && this.specs == specs && this.cacheInd == cacheInd && this.cacheMax == cacheMax
    {
      this.problem, this.maxVar, this.oracles, this.solver, this.specs := problem, maxVar, oracles, solver, specs;
      this.cacheInd, this.cacheMax := cacheInd, cacheMax;
      this.scoreMax, this.scoreInd, this.phaseMax, this.phaseInd := scoreMax, scoreInd, phaseMax, phaseInd;
      nbCallCall, nbCallProj, nbDecisionNode, nbSplitMax, nbSplitInd := 0, 0, 0, 0, 0;
    }

    /** The score is higher than that of every unassigned decision variable of the list. */
    ghost predicate HigherThan(vars: seq<Var>, decision: set<Var>, score: Var -> real, s: real)
      reads specs`value
    {
      forall v: Var :: v in vars && v in decision && v !in specs.value ==> score(v) < s
    }

    /** The first unassigned decision variable with the highest score. */
    method SelectVariable(vars: seq<Var>, decision: set<Var>, score: Var -> real) returns (ret: Option<Var>)
      ensures ret.None? ==> forall v: Var :: v in vars && v in decision ==> v in specs.value
      ensures ret.Some? ==> ret.value in vars && ret.value in decision && ret.value !in specs.value
      ensures ret.Some? ==> forall v: Var :: v in vars && v in decision && v !in specs.value ==> score(v) <= score(ret.value)
      ensures ret.Some? ==> exists i :: 0 <= i < |vars| && vars[i] == ret.value && HigherThan(vars[..i], decision, score, score(ret.value))
    {
      ret := None;
      var bestScore := -1.0;
      ghost var at := 0;
      for i := 0 to |vars|
        invariant ret.Some? ==> 0 <= at < i && vars[at] == ret.value && HigherThan(vars[..at], decision, score, bestScore)
        invariant ret.None? ==> forall k :: 0 <= k < i && vars[k] in decision ==> vars[k] in specs.value
        invariant ret.Some? ==> ret.value in vars && ret.value in decision && ret.value !in specs.value && bestScore == score(ret.value)
        invariant ret.Some? ==> forall k :: 0 <= k < i && vars[k] in decision && vars[k] !in specs.value ==> score(vars[k]) <= bestScore
      {
        var v := vars[i];
        if v in specs.value || v !in decision { continue; }
        var current := score(v);
        if ret.None? || current > bestScore {
          ret := Some(v);
          bestScore := current;
          at := i;
        }
      }
    }

    /** Or-s the block variables of `vars` into a valuation. */
    method OrOnMaxVar(vars: seq<Var>, resValuation: Asg, orValuation: Asg) returns (r: Asg)
      requires maxVar <= resValuation.Keys && maxVar <= orValuation.Keys
      ensures IsOr(maxVar, vars, resValuation, orValuation, r)
    {
      r := resValuation;
      for i := 0 to |vars|
        invariant IsOr(maxVar, vars[..i], resValuation, orValuation, r)
      {
        assert forall x: Var :: x in vars[..i + 1] <==> x in vars[..i] || x == vars[i];
        if vars[i] in maxVar {
          r := r[vars[i] := r[vars[i]] || orValuation[vars[i]]];
        }
      }
      assert vars[..|vars|] == vars;
    }

    /** Free block variables take their heavier literal. */
    method FixFree(freeVariable: seq<Var>, valuation: Asg) returns (fixCount: real, r: Asg)
      requires valuation.Keys == maxVar
      ensures fixCount == BlockVars(problem, maxVar, freeVariable) && r.Keys == maxVar
      ensures forall x: Var :: x in maxVar ==> r[x] == if x in freeVariable then !Preferred(problem, x).sign else valuation[x]
    {
      hide *;
      fixCount, r := 1.0, valuation;
      for i := 0 to |freeVariable|
        invariant r.Keys == maxVar
        invariant fixCount * BlockVars(problem, maxVar, freeVariable[i..]) == BlockVars(problem, maxVar, freeVariable)
        invariant forall x: Var :: x in maxVar ==> r[x] == if x in freeVariable[..i] then !Preferred(problem, x).sign else valuation[x]
      {
        var v := freeVariable[i];
        assert forall x: Var :: x in freeVariable[..i + 1] <==> x in freeVariable[..i] || x == v;
        FreeStep(problem, maxVar, freeVariable, i, fixCount);
        BlockVarIs(problem, maxVar, v);
        if v in maxVar {
          var l := Preferred(problem, v);
          r := r[v := !l.sign];
          fixCount := fixCount * problem.weightLit(l);
        }
      }
      FreeEnd(problem, maxVar, freeVariable, fixCount);
    }

    /** Block literals among the units are fixed as they are. */
    method FixUnits(unitsLit: seq<Lit>, count: real, valuation: Asg) returns (fixCount: real, r: Asg)
      requires valuation.Keys == maxVar && DistinctVars(unitsLit)
      ensures fixCount == count * BlockLits(problem, maxVar, unitsLit) && r.Keys == maxVar
      ensures Follows(maxVar, unitsLit, r)
      ensures forall x: Var :: x in maxVar && x !in LitVars(unitsLit) ==> r[x] == valuation[x]
    {
      hide *;
      fixCount, r := count, valuation;
      UnitsStart(problem, maxVar, unitsLit, count, valuation);
      for i := 0 to |unitsLit|
        invariant r.Keys == maxVar
        invariant fixCount * BlockLits(problem, maxVar, unitsLit[i..]) == count * BlockLits(problem, maxVar, unitsLit)
        invariant Follows(maxVar, unitsLit[..i], r)
        invariant forall x: Var :: x in maxVar && x !in LitVars(unitsLit) ==> r[x] == valuation[x]
      {
        var l := unitsLit[i];
        UnitsStep(problem, maxVar, unitsLit, i, fixCount, r);
        BlockLitIs(problem, maxVar, l);
        if l.v in maxVar {
          fixCount := fixCount * problem.weightLit(l);
          r := r[l.v := !l.sign];
        }
      }
      UnitsEnd(problem, maxVar, unitsLit, fixCount);
    }

    twostate lemma KeepsInv()
      requires old(Inv()) && specs.Clean() && unchanged(cacheInd) && unchanged(cacheMax)
      ensures Inv()
    {
    }

    // ---------- Maximising ----------

    /**
      Maximises over the open clauses of `setOfVar` under the assumptions: the count, scaled by
      the units and free variables reported, is the best score, and the valuation attains it.
    */
    method SearchMaxValuation(setOfVar: seq<Var>) returns (result: MaxSharpSatResult, unitsLit: seq<Lit>, freeVariable: seq<Var>)
      requires Inv() && Ready(problem, solver.assumption, specs.value, setOfVar)
      modifies this, solver, cacheInd, cacheMax, specs, specs.parent, specs.size, specs.pos, specs.markView
      ensures Inv() && solver.assumption == old(solver.assumption) && specs.value == old(specs.value)
      ensures ScaledSolved(problem, maxVar, setOfVar, solver.assumption, specs.value, result, unitsLit, freeVariable)
      ensures result.valuation.None? ==> result.count == 0.0
      decreases Bound(solver.assumption, setOfVar), 5
    {
      hide *;
      nbCallCall := nbCallCall + 1;
      ReadyRange(problem, solver.assumption, specs.value, setOfVar);
      var sat := solver.Solve(specs.value, setOfVar);
      if !sat {
        UnsatSolved(problem, maxVar, solver.assumption, specs.value, setOfVar);
        return MaxSharpSatResult(0.0, None), [], [];
      }
      var units := solver.WhichAreUnits(specs.value, setOfVar);
      UnitsUnassigned(problem, solver.assumption, specs.value, setOfVar, units);
      specs.PreUpdate(units);
      var varConnected, free := specs.ComputeConnectedComponent(setOfVar);
      KeepsInv();
      PartsReady(problem, solver.assumption, old(specs.value), setOfVar, units, varConnected, free);
      UnitsNotFree(setOfVar, old(specs.value), units, varConnected, free, problem.clauses);
      SplitApart(problem.clauses, setOfVar, specs.value, varConnected, free);
      ghost var rs;
      result, rs := SearchParts(units, varConnected, free, Bound(solver.assumption, setOfVar));
      specs.PostUpdate(units);
      unitsLit := ExpelNoDecisionLit(problem, units);
      freeVariable := ExpelNoDecisionVar(problem, free);
      ScaledIsBest(problem, maxVar, solver.assumption, specs.value, setOfVar, units, varConnected, free, rs, result.count, result.valuation.value);
    }

    /** Fixes the units and the free variables, then maximises the components one by one. */
    method SearchParts(units: seq<Lit>, varConnected: seq<seq<Var>>, free: seq<Var>, ghost bound: nat)
      returns (result: MaxSharpSatResult, ghost rs: seq<real>)
      requires Inv() && Apart(varConnected) && DistinctVars(units)
      requires forall x: Var :: x in free ==> x !in LitVars(units)
      requires forall x: Var :: InSomeComponent(varConnected, x) ==> x !in free && x !in LitVars(units)
      requires forall i :: 0 <= i < |varConnected| ==>
        |varConnected[i]| <= bound && ComponentReady(problem, solver.assumption, specs.value, varConnected[i])
      modifies this, solver, cacheInd, cacheMax, specs, specs.parent, specs.size, specs.pos, specs.markView
      ensures Inv() && solver.assumption == old(solver.assumption) && specs.value == old(specs.value)
      ensures result.valuation.Some? && result.valuation.value.Keys == maxVar
      ensures PartsBest(problem.M(), maxVar, problem.clauses, specs.value, varConnected, rs, result.valuation.value)
      ensures Heaviest(problem.M(), maxVar, free, result.valuation.value) && Follows(maxVar, units, result.valuation.value)
      ensures result.count == (BlockVars(problem, maxVar, free) * BlockLits(problem, maxVar, units)) * ProductFrom(rs, 0)
      decreases bound, 4, 1
    {
      hide *;
      var valuation: Asg := map v | v in maxVar :: false;
      var fixCount;
      fixCount, valuation := FixFree(free, valuation);
      fixCount, valuation := FixUnits(units, fixCount, valuation);
      FreshProgress(problem.M(), maxVar, problem.clauses, specs.value, units, varConnected, free, valuation);
      var count, merged;
      count, merged, rs := SearchComponents(varConnected, fixCount, valuation, bound);
      FixedKept(problem.M(), problem, maxVar, units, varConnected, free, valuation, merged);
      result := MaxSharpSatResult(count, Some(merged));
    }

    method SearchComponents(varConnected: seq<seq<Var>>, fixCount: real, valuation: Asg, ghost bound: nat)
      returns (count: real, r: Asg, ghost rs: seq<real>)
      requires Inv() && Apart(varConnected) && valuation.Keys == maxVar
      requires Progress(problem.M(), maxVar, problem.clauses, specs.value, varConnected, [], valuation)
      requires forall i :: 0 <= i < |varConnected| ==>
        |varConnected[i]| <= bound && ComponentReady(problem, solver.assumption, specs.value, varConnected[i])
      modifies this, solver, cacheInd, cacheMax, specs, specs.parent, specs.size, specs.pos, specs.markView
      ensures Inv() && solver.assumption == old(solver.assumption) && specs.value == old(specs.value)
      ensures r.Keys == maxVar && PartsBest(problem.M(), maxVar, problem.clauses, specs.value, varConnected, rs, r)
      ensures count == fixCount * ProductFrom(rs, 0)
      ensures forall x: Var :: x in maxVar && !InSomeComponent(varConnected, x) ==> r[x] == valuation[x]
      decreases bound, 4, 0
    {
      hide *;
      count, r, rs := fixCount, valuation, [];
      NoProduct(fixCount);
      nbSplitMax := nbSplitMax + if |varConnected| > 1 then |varConnected| else 0;
      for cp := 0 to |varConnected|
        invariant Inv() && solver.assumption == old(solver.assumption) && specs.value == old(specs.value)
        invariant |rs| == cp && r.Keys == maxVar
        invariant Progress(problem.M(), maxVar, problem.clauses, specs.value, varConnected, rs, r)
        invariant count == fixCount * Operation.Product(rs)
        invariant forall x: Var :: x in maxVar && !InSomeComponent(varConnected, x) ==> r[x] == valuation[x]
      {
        var tmpResult := SearchComponent(varConnected[cp]);
        var merged := r;
        SolvedHere(problem, maxVar, varConnected[cp], specs.value, tmpResult);
        if tmpResult.valuation.Some? {
          merged := OrOnMaxVar(varConnected[cp], r, tmpResult.valuation.value);
          OrOutside(maxVar, varConnected, cp, r, tmpResult.valuation.value, merged);
        }
        ProgressStep(problem.M(), maxVar, problem.clauses, specs.value, varConnected, rs, r, tmpResult.count, tmpResult.valuation, merged);
        ProductSnoc(rs, tmpResult.count, fixCount, count);
        r, rs := merged, rs + [tmpResult.count];
        count := count * tmpResult.count;
      }
      ProductIsProduct(rs);
      AllProgressed(problem.M(), maxVar, problem.clauses, specs.value, varConnected, rs, r);
    }

    method SearchComponent(connected: seq<Var>) returns (r: MaxSharpSatResult)
      requires Inv() && ComponentReady(problem, solver.assumption, specs.value, connected)
      modifies this, solver, cacheInd, cacheMax, specs, specs.parent, specs.size, specs.pos, specs.markView
      ensures Inv() && solver.assumption == old(solver.assumption) && specs.value == old(specs.value)
      ensures ResSolved(problem, maxVar, connected, [], specs.value, r.count, r.valuation)
      ensures cacheMax.Holds(MaxKey(oracles.bucket(specs.value, connected)), r)
      ensures old(cacheMax.Hits(MaxKey(oracles.bucket(specs.value, connected)), solver.clock)) ==>
        solver.clock == old(solver.clock) && nbDecisionNode == old(nbDecisionNode)
      decreases |connected|, 3
    {
      hide Solved, Problem.M, MaxProblem, EntrySound, Residual.Open, Ready, Satisfiable, CacheManager.Candidate, CacheManager.Holds, CacheManager.Hits, CacheManager.SameSlot, CnfManager.Clean;
      ComponentCacheable(problem, solver.assumption, specs.value, connected);
      var formulaBucket := MaxKey(oracles.bucket(specs.value, connected));
      var cb := cacheMax.SearchInCache(formulaBucket, solver.clock);
      if cb.defined {
        r := cb.e.fc;
      } else {
        r := SearchMaxSharpSatDecision(connected);
        FreshEntrySolved(problem, maxVar, oracles, specs.value, connected, cb.e, r);
        cacheMax.AddInCache(cb, r);
      }
    }

    /** Branches on a block variable, or counts when none is left. */
    method SearchMaxSharpSatDecision(connected: seq<Var>) returns (result: MaxSharpSatResult)
      requires Inv() && ComponentReady(problem, solver.assumption, specs.value, connected)
      modifies this, solver, cacheInd, cacheMax, specs, specs.parent, specs.size, specs.pos, specs.markView
      ensures Inv() && solver.assumption == old(solver.assumption) && specs.value == old(specs.value)
      ensures ResSolved(problem, maxVar, connected, [], specs.value, result.count, result.valuation)
      decreases |connected|, 2
    {
      hide *;
      solver.clock := solver.clock + 1;
      var tick: nat := solver.clock;
      var selected := SelectVariable(connected, maxVar, (v: Var) => scoreMax(tick, v));
      ComponentOpen(problem, solver.assumption, specs.value, connected);
      MaxMeasure(problem, maxVar);
      if selected.None? {
        NoneInBlock(maxVar, connected, specs.value);
        OffBlockSolved(problem, maxVar, specs.value, connected);
        AssumptionsElsewhere(problem, solver.assumption, [], specs.value, connected);
        var d, unitsLit, freeVar := CountInd_(connected);
        var w := ComputeWeightUnitFree(problem, unitsLit, freeVar);
        var c := d * w;
        assert c == CountOf(problem, connected, [], specs.value);
        return MaxSharpSatResult(c, None);
      }
      var l := Lit(selected.value, phaseMax(tick, selected.value));
      nbDecisionNode := nbDecisionNode + 1;
      BothReady(problem, solver.assumption, specs.value, connected, l);
      NegVar(l);
      var res0, d0 := SearchPhase(connected, l);
      var res1, d1 := SearchPhase(connected, l.Neg());
      DecisionSolved(problem, maxVar, solver.assumption, specs.value, connected, l, d0, res0, d1, res1);
      result := MaxSharpSatResult(if d0 > d1 then d0 else d1, if d0 > d1 then res0 else res1);
    }

    /** One value of the branching literal. */
    method SearchPhase(connected: seq<Var>, l: Lit) returns (valuation: Option<Asg>, d: real)
      requires Inv() && l.v in connected && forall k :: k in solver.assumption ==> k.v != l.v
      requires Ready(problem, solver.assumption + [l], specs.value, connected) && Bound(solver.assumption + [l], connected) < |connected|
      modifies this, solver, cacheInd, cacheMax, specs, specs.parent, specs.size, specs.pos, specs.markView
      ensures Inv() && solver.assumption == old(solver.assumption) && specs.value == old(specs.value)
      ensures ResSolved(problem, maxVar, connected, solver.assumption + [l], specs.value, d, valuation)
      decreases |connected|, 1
    {
      hide *;
      solver.PushAssumption(l);
      var res, unitLits, freeVars := SearchMaxValuation(connected);
      solver.PopAssumption(1);
      var w := ComputeWeightUnitFree(problem, unitLits, freeVars);
      ScaledIs(problem, res.count, unitLits, freeVars);
      ScaledOpen(problem, maxVar, connected, solver.assumption + [l], specs.value, res, unitLits, freeVars);
      valuation, d := res.valuation, res.count * w;
      assert d == Search.Scaled(problem, res.count, unitLits, freeVars);
    }

    // ---------- Counting ----------

    method CountInd_(setOfVar: seq<Var>) returns (result: real, unitsLit: seq<Lit>, freeVariable: seq<Var>)
      requires Inv() && Ready(problem, solver.assumption, specs.value, setOfVar)
      modifies this, solver, cacheInd, cacheMax, specs, specs.parent, specs.size, specs.pos, specs.markView
      ensures Inv() && solver.assumption == old(solver.assumption) && specs.value == old(specs.value)
      ensures result * UnitFree(problem, unitsLit, freeVariable) == CountOf(problem, setOfVar, solver.assumption, specs.value)
      decreases Bound(solver.assumption, setOfVar), 1, 5
    {
      hide *;
      nbCallProj := nbCallProj + 1;
      MaxMeasure(problem, maxVar);
      ReadyRange(problem, solver.assumption, specs.value, setOfVar);
      var sat := solver.Solve(specs.value, setOfVar);
      if !sat {
        UnsatCount(problem, solver.assumption, specs.value, setOfVar);
        return 0.0, [], [];
      }
      var units := solver.WhichAreUnits(specs.value, setOfVar);
      UnitsUnassigned(problem, solver.assumption, specs.value, setOfVar, units);
      specs.PreUpdate(units);
      var varConnected, free := specs.ComputeConnectedComponent(setOfVar);
      KeepsInv();
      freeVariable := ExpelNoDecisionVar(problem, free);
      PartsReady(problem, solver.assumption, old(specs.value), setOfVar, units, varConnected, free);
      result := CountComponents(varConnected, Bound(solver.assumption, setOfVar));
      specs.PostUpdate(units);
      unitsLit := ExpelNoDecisionLit(problem, units);
      ScaledIsCount(problem, solver.assumption, specs.value, setOfVar, units, varConnected, free, result);
    }

    method CountComponents(varConnected: seq<seq<Var>>, ghost bound: nat) returns (result: real)
      requires Inv()
      requires forall i :: 0 <= i < |varConnected| ==>
        |varConnected[i]| <= bound && ComponentReady(problem, solver.assumption, specs.value, varConnected[i])
      modifies this, solver, cacheInd, cacheMax, specs, specs.parent, specs.size, specs.pos, specs.markView
      ensures Inv() && solver.assumption == old(solver.assumption) && specs.value == old(specs.value)
      ensures result == CompsCount(problem.M(), problem.clauses, specs.value, varConnected, 0)
      decreases bound, 1, 4
    {
      hide *;
      result := 1.0;
      ghost var tab: seq<real> := [];
      NoProduct(1.0);
      nbSplitInd := nbSplitInd + if |varConnected| > 1 then |varConnected| else 0;
      for cp := 0 to |varConnected|
        invariant Inv() && solver.assumption == old(solver.assumption) && specs.value == old(specs.value)
        invariant |tab| == cp && result == 1.0 * Operation.Product(tab)
        invariant forall i :: 0 <= i < cp ==> tab[i] == CountOf(problem, varConnected[i], [], specs.value)
      {
        var curr := CountComponent(varConnected[cp]);
        ProductSnoc(tab, curr, 1.0, result);
        tab := tab + [curr];
        result := result * curr;
      }
      ComponentProduct(problem, specs.value, varConnected, tab);
    }

    method CountComponent(connected: seq<Var>) returns (r: real)
      requires Inv() && ComponentReady(problem, solver.assumption, specs.value, connected)
      modifies this, solver, cacheInd, cacheMax, specs, specs.parent, specs.size, specs.pos, specs.markView
      ensures Inv() && solver.assumption == old(solver.assumption) && specs.value == old(specs.value)
      ensures r == CountOf(problem, connected, [], specs.value)
      ensures cacheInd.Holds(oracles.bucket(specs.value, connected), r)
      ensures old(cacheInd.Hits(oracles.bucket(specs.value, connected), solver.clock)) ==>
        solver.clock == old(solver.clock) && nbDecisionNode == old(nbDecisionNode)
      decreases |connected|, 1, 3
    {
      hide CountOf, Problem.M, MaxProblem, EntrySolved, Residual.Open, Ready, Satisfiable;
      ComponentCacheable(problem, solver.assumption, specs.value, connected);
      var formulaBucket := oracles.bucket(specs.value, connected);
      var cb := cacheInd.SearchInCache(formulaBucket, solver.clock);
      if cb.defined {
        r := cb.e.fc;
      } else {
        r := CountIndDecisionNode(connected);
        FreshEntrySound(problem, oracles, problem.nbVar, specs.value, connected, cb.e, r);
        cacheInd.AddInCache(cb, r);
      }
    }

    method CountIndDecisionNode(connected: seq<Var>) returns (r: real)
      requires Inv() && ComponentReady(problem, solver.assumption, specs.value, connected)
      modifies this, solver, cacheInd, cacheMax, specs, specs.parent, specs.size, specs.pos, specs.markView
      ensures Inv() && solver.assumption == old(solver.assumption) && specs.value == old(specs.value)
      ensures r == CountOf(problem, connected, [], specs.value)
      decreases |connected|, 1, 2
    {
      hide *;
      solver.clock := solver.clock + 1;
      MaxMeasure(problem, maxVar);
      MaxSelected(problem, maxVar);
      var tick: nat := solver.clock;
      var selected := SelectVariable(connected, problem.selected, (v: Var) => scoreInd(tick, v));
      ComponentOpen(problem, solver.assumption, specs.value, connected);
      if selected.None? {
        NothingSelected(problem, solver.assumption, specs.value, connected);
        return 1.0;
      }
      var l := Lit(selected.value, phaseInd(tick, selected.value));
      nbDecisionNode := nbDecisionNode + 1;
      BothReady(problem, solver.assumption, specs.value, connected, l);
      NegVar(l);
      BothCounted(problem, solver.assumption, specs.value, connected, l);
      var b0 := CountPhase(connected, l);
      var b1 := CountPhase(connected, l.Neg());
      r := b0 + b1;
    }

    method CountPhase(connected: seq<Var>, l: Lit) returns (d: real)
      requires Inv() && l.v in connected && forall k :: k in solver.assumption ==> k.v != l.v
      requires Ready(problem, solver.assumption + [l], specs.value, connected) && Bound(solver.assumption + [l], connected) < |connected|
      modifies this, solver, cacheInd, cacheMax, specs, specs.parent, specs.size, specs.pos, specs.markView
      ensures Inv() && solver.assumption == old(solver.assumption) && specs.value == old(specs.value)
      ensures d == CountOf(problem, connected, solver.assumption + [l], specs.value)
      decreases |connected|, 1, 1
    {
      hide *;
      solver.PushAssumption(l);
      var c, unitLits, freeVars := CountInd_(connected);
      solver.PopAssumption(1);
      var w := ComputeWeightUnitFree(problem, unitLits, freeVars);
      d := c * w;
    }

    // ---------- Entry points ----------

    /** Literals of weight zero are assumed false: no assignment that makes them true is better. */
    method AssumeZeros(setOfVar: seq<Var>) returns (nbZero: nat)
      requires Inv() && NoDup(setOfVar) && solver.assumption == []
      requires forall v: Var :: v in setOfVar ==> problem.weightLit(Lit(v, false)) != 0.0 || problem.weightLit(Lit(v, true)) != 0.0
      modifies solver`assumption
      ensures nbZero == |solver.assumption| && solver.assumption == Zeros(problem, setOfVar)
    {
      nbZero := 0;
      for i := 0 to |setOfVar|
        invariant nbZero == |solver.assumption| && solver.assumption == Zeros(problem, setOfVar[..i])
      {
        assert setOfVar[i] in setOfVar;
        assert setOfVar[..i + 1][..i] == setOfVar[..i];
        ZerosHold(problem, setOfVar[..i]);
        assert setOfVar[i] !in setOfVar[..i];
        var l := Lit(setOfVar[i], false);
        if problem.weightLit(l) == 0.0 {
          nbZero := nbZero + 1;
          solver.PushAssumption(l.Neg());
        }
        if problem.weightLit(l.Neg()) == 0.0 {
          nbZero := nbZero + 1;
          solver.PushAssumption(l);
        }
      }
      assert setOfVar[..|setOfVar|] == setOfVar;
    }

    method Compute(setOfVar: seq<Var>, warmStart: bool) returns (result: MaxSharpSatResult)
      requires Inv() && solver.assumption == [] && specs.value == map[]
      requires NoDup(setOfVar) && Elements(setOfVar) == problem.AllVars()
      requires HasWeight(problem)
      modifies this, solver, cacheInd, cacheMax, specs, specs.parent, specs.size, specs.pos, specs.markView
      ensures Inv() && solver.assumption == [] && specs.value == map[]
      ensures ResSolved(problem, maxVar, setOfVar, HiddenZeros(problem, maxVar, setOfVar), map[], result.count, result.valuation)
      ensures result.valuation.None? ==> result.count == 0.0
    {
      hide *;
      UnsatAnswers();
      if problem.isUnsat {
        WholeUnsat(problem, maxVar, setOfVar, HiddenZeros(problem, maxVar, setOfVar));
        return MaxSharpSatResult(0.0, None);
      }
      if warmStart {
        var ok := solver.WarmStart(setOfVar);
        if !ok {
          WholeUnsat(problem, maxVar, setOfVar, HiddenZeros(problem, maxVar, setOfVar));
          return MaxSharpSatResult(0.0, None);
        }
      }
      WeighingVars(problem, setOfVar);
      var nbZero := AssumeZeros(setOfVar);
      ZerosReady(problem, setOfVar);
      var res, unitLits, freeVars := SearchMaxValuation(setOfVar);
      var w := ComputeWeightUnitFree(problem, unitLits, freeVars);
      var c := res.count * w;
      ScaledIs(problem, res.count, unitLits, freeVars);
      assert c == Search.Scaled(problem, res.count, unitLits, freeVars);
      ScaledOpen(problem, maxVar, setOfVar, solver.assumption, specs.value, res, unitLits, freeVars);
      ZerosIrrelevant(problem, maxVar, setOfVar, c, res.valuation);
      if nbZero > 0 {
        solver.PopAssumption(nbZero);
      }
      result := MaxSharpSatResult(c, res.valuation);
      ZeroTimes(res.count, w);
    }

    lemma UnsatAnswers()
      requires Inv()
      ensures MaxProblem(problem, maxVar)
      ensures problem.isUnsat ==> forall a: Asg :: !Sat(problem.clauses, a)
      ensures OraclesOk(solver.problem, solver.oracles) && solver.problem == problem
    {
    }

    /**
      The whole run solves the Max#SAT problem of the formula in which hidden literals of weight zero are false: best
      count, and a valuation that attains it. If there are no such literals, that is the formula itself.
    */
    method Run() returns (result: MaxSharpSatResult)
      requires Inv() && solver.assumption == [] && specs.value == map[]
      requires HasWeight(problem)
      modifies this, solver, cacheInd, cacheMax, specs, specs.parent, specs.size, specs.pos, specs.markView
      ensures Inv() && solver.assumption == [] && specs.value == map[]
      ensures MaxSolved(Forced(problem, maxVar), maxVar, result.count, result.valuation)
      ensures HiddenWeigh(problem, maxVar) ==> MaxSolved(problem, maxVar, result.count, result.valuation)
    {
      hide *;
      var setOfVar := ListVars(problem);
      UnsatAnswers();
      result := Compute(setOfVar, true);
      ForcedProblem(problem, maxVar);
      ForcedSolved(problem, maxVar, setOfVar, result.count, result.valuation);
      WholeSolved(Forced(problem, maxVar), maxVar, setOfVar, result);
    }
  }

  // ---------- Whole runs ----------

  /** The Max#SAT answer: no assignment of the block scores more, and the valuation scores exactly `r`. */
  ghost predicate MaxSolved(p: Problem, block: set<Var>, r: real, valuation: Option<Asg>) {
    && (forall e: Asg :: e.Keys == block ==> BlockScore(p, block, e) <= r)
    && (valuation.Some? ==> block <= valuation.value.Keys && BlockScore(p, block, Restrict(valuation.value, block)) == r)
    && (valuation.None? ==> r == 0.0)
  }

  /** The weight of a block assignment times the weighted count of the projected models above it. */
  ghost function BlockScore(p: Problem, block: set<Var>, e: Asg): real {
    WeightTo(p.nbVar + 1, p.M(), e)
    * SetSum(Weigh(p.nbVar + 1, p.M()), ProjectedModels(p.M(), p.AllVars() - block, AllClauses(p.clauses), e))
  }

  /** No variable has two literals of weight zero. */
  ghost predicate HasWeight(p: Problem) {
    forall v :: v in p.AllVars() ==> p.weightLit(Lit(v, false)) != 0.0 || p.weightLit(Lit(v, true)) != 0.0
  }

  /** Literals that are neither maximised nor counted weigh something. */
  ghost predicate HiddenWeigh(p: Problem, block: set<Var>) {
    forall l: Lit :: l.v in p.AllVars() && p.weightLit(l) == 0.0 ==> l.v in block || l.v in p.selected
  }

  lemma WeighingVars(p: Problem, vars: seq<Var>)
    requires HasWeight(p) && Elements(vars) == p.AllVars()
    ensures forall v: Var :: v in vars ==> p.weightLit(Lit(v, false)) != 0.0 || p.weightLit(Lit(v, true)) != 0.0
  {
    assert forall v: Var :: v in vars <==> v in Elements(vars);
  }

  lemma ZeroTimes(x: real, w: real)
    ensures x == 0.0 ==> x * w == 0.0
  {
  }

  /** The negations of the literals of weight zero. */
  function Zeros(p: Problem, vars: seq<Var>): seq<Lit> {
    if vars == [] then []
    else
      var v := vars[|vars| - 1];
      Zeros(p, vars[..|vars| - 1])
      + (if p.weightLit(Lit(v, false)) == 0.0 then [Lit(v, true)] else [])
      + (if p.weightLit(Lit(v, true)) == 0.0 then [Lit(v, false)] else [])
  }

  lemma {:induction false} ZerosHold(p: Problem, vars: seq<Var>)
    ensures forall l :: l in Zeros(p, vars) <==> l.v in vars && p.weightLit(l.Neg()) == 0.0
  {
    if vars != [] {
      var init, v := vars[..|vars| - 1], vars[|vars| - 1];
      ZerosHold(p, init);
      assert vars == init + [v];
      assert forall l: Lit :: l.v == v ==> l == Lit(v, true) || l == Lit(v, false);
    }
  }

  lemma FreeStep(p: Problem, block: set<Var>, free: seq<Var>, i: nat, w: real)
    requires i < |free|
    ensures w * BlockVars(p, block, free[i..]) == (w * BlockVar(p, block, free[i])) * BlockVars(p, block, free[i + 1..])
    ensures w * 1.0 == w
  {
    hide BlockVar;
    assert free[i..][1..] == free[i + 1..];
    Operation.Associate(w, BlockVar(p, block, free[i]), BlockVars(p, block, free[i + 1..]));
  }

  lemma FreeEnd(p: Problem, block: set<Var>, free: seq<Var>, w: real)
    ensures w * BlockVars(p, block, free[|free|..]) == w && free[..|free|] == free
  {
  }

  lemma UnitsStart(p: Problem, block: set<Var>, units: seq<Lit>, w: real, r: Asg)
    ensures units[0..] == units && Follows(block, units[..0], r)
  {
  }

  lemma UnitsStep(p: Problem, block: set<Var>, units: seq<Lit>, i: nat, w: real, r: Asg)
    requires i < |units| && DistinctVars(units) && Follows(block, units[..i], r)
    ensures w * BlockLits(p, block, units[i..]) == (w * BlockLit(p, block, units[i])) * BlockLits(p, block, units[i + 1..])
    ensures w * 1.0 == w && units[i].v in LitVars(units)
    ensures if units[i].v in block then Follows(block, units[..i + 1], r[units[i].v := !units[i].sign]) else Follows(block, units[..i + 1], r)
  {
    hide BlockLit;
    assert units[i..][1..] == units[i + 1..];
    assert forall k :: k in units[..i + 1] <==> k in units[..i] || k == units[i];
    assert forall k :: k in units[..i] ==> k.v != units[i].v;
    Operation.Associate(w, BlockLit(p, block, units[i]), BlockLits(p, block, units[i + 1..]));
  }

  lemma UnitsEnd(p: Problem, block: set<Var>, units: seq<Lit>, w: real)
    ensures w * BlockLits(p, block, units[|units|..]) == w && units[..|units|] == units
  {
  }

  lemma BlockVarIs(p: Problem, block: set<Var>, v: Var)
    ensures BlockVar(p, block, v) == if v in block then p.weightLit(Preferred(p, v)) else 1.0
  {
    hide Preferred;
  }

  lemma BlockLitIs(p: Problem, block: set<Var>, l: Lit)
    ensures BlockLit(p, block, l) == if l.v in block then p.weightLit(l) else 1.0
  {
  }

  lemma MaxSelected(p: Problem, block: set<Var>)
    requires MaxProblem(p, block)
    ensures forall v: Var :: p.IsDecisionVariable(v) <==> v in p.selected
  {
  }

  lemma ComponentOpen(p: Problem, base: seq<Lit>, trail: Asg, vars: seq<Var>)
    requires ComponentReady(p, base, trail, vars)
    ensures Ready(p, base, trail, vars) && forall v: Var :: v in vars ==> v !in trail
    ensures forall k :: k in base ==> k.v !in vars
  {
    hide Satisfiable, Closed;
    assert forall v: Var :: v in vars ==> v in Elements(vars);
  }

  lemma NoneInBlock(block: set<Var>, vars: seq<Var>, trail: Asg)
    requires forall v: Var :: v in vars ==> v !in trail
    requires forall v: Var :: v in vars && v in block ==> v in trail
    ensures Elements(vars) !! block
  {
  }

  lemma ScaledOpen(p: Problem, block: set<Var>, vars: seq<Var>, assumed: seq<Lit>, trail: Asg, res: MaxSharpSatResult, units: seq<Lit>, frees: seq<Var>)
    requires ScaledSolved(p, block, vars, assumed, trail, res, units, frees)
    ensures ResSolved(p, block, vars, assumed, trail, Search.Scaled(p, res.count, units, frees), res.valuation)
  {
    hide ResSolved, Search.Scaled;
  }

  lemma SolvedHere(p: Problem, block: set<Var>, vars: seq<Var>, trail: Asg, res: MaxSharpSatResult)
    requires ResSolved(p, block, vars, [], trail, res.count, res.valuation)
    ensures Solved(p.M(), block, Elements(vars), Res(p.clauses, Elements(vars), {}), trail, res.count, res.valuation)
    ensures res.valuation.Some? ==> block <= res.valuation.value.Keys
  {
    hide Best, Problem.M, Res;
    assert Lits([]) == {};
  }

  lemma OrOutside(block: set<Var>, comps: seq<seq<Var>>, cp: nat, res: Asg, other: Asg, r: Asg)
    requires cp < |comps| && res.Keys == block && IsOr(block, comps[cp], res, other, r)
    ensures r.Keys == block && forall x: Var :: x in block && !InSomeComponent(comps, x) ==> r[x] == res[x]
    ensures IsOr(block, comps[cp], res, other, r) && block <= other.Keys ==> block <= r.Keys
  {
  }

  lemma AllProgressed(m: Measure, block: set<Var>, f: Formula, trail: Asg, comps: seq<seq<Var>>, rs: seq<real>, val: Asg)
    requires Progress(m, block, f, trail, comps, rs, val) && |rs| == |comps|
    ensures PartsBest(m, block, f, trail, comps, rs, val)
  {
    hide BestAt, Res;
  }

  lemma SplitApart(f: Formula, vars: seq<Var>, trail: Asg, comps: seq<seq<Var>>, free: seq<Var>)
    requires IsSplit(f, vars, trail, comps, free)
    ensures Apart(comps)
    ensures forall x: Var :: InSomeComponent(comps, x) ==> x !in free && x !in trail
  {
    hide FreeIn, Separated;
    forall x: Var | InSomeComponent(comps, x)
      ensures x !in free && x !in trail
    {
      assert Unassigned(x, vars, trail);
    }
  }

  /** Components start out all false: the fixed variables are elsewhere. */
  lemma FreshProgress(m: Measure, block: set<Var>, f: Formula, t: Asg, units: seq<Lit>, comps: seq<seq<Var>>, free: seq<Var>, valuation: Asg)
    requires forall x: Var :: InSomeComponent(comps, x) ==> x !in free && x !in LitVars(units)
    requires valuation.Keys == block && forall x: Var :: x in block && x !in free && x !in LitVars(units) ==> !valuation[x]
    ensures Progress(m, block, f, t, comps, [], valuation)
  {
    hide BestAt, Res;
    forall j, x: Var | 0 <= j < |comps| && x in comps[j] && x in block
      ensures !valuation[x]
    {
      assert InSomeComponent(comps, x);
    }
  }

  /** The fixed variables keep their values while the components are merged. */
  lemma FixedKept(m: Measure, p: Problem, block: set<Var>, units: seq<Lit>, comps: seq<seq<Var>>, free: seq<Var>, valuation: Asg, r: Asg)
    requires m == p.M() && r.Keys == block && valuation.Keys == block
    requires forall x: Var :: InSomeComponent(comps, x) ==> x !in free && x !in LitVars(units)
    requires forall x: Var :: x in block && !InSomeComponent(comps, x) ==> r[x] == valuation[x]
    requires forall x: Var :: x in block && x in free ==> valuation[x] == !Preferred(p, x).sign
    requires Follows(block, units, valuation)
    ensures Heaviest(m, block, free, r) && Follows(block, units, r)
  {
    hide InSomeComponent;
    forall l | l in units && l.v in block
      ensures TrueIn(l, r)
    {
      assert l.v in LitVars(units);
    }
  }

  lemma UnitsNotFree(vars: seq<Var>, trail: Asg, units: seq<Lit>, comps: seq<seq<Var>>, free: seq<Var>, f: Formula)
    requires DistinctVars(units) && IsSplit(f, vars, trail + AsgOf(units), comps, free)
    ensures forall x: Var :: x in free ==> x !in LitVars(units)
    ensures forall x: Var :: InSomeComponent(comps, x) ==> x !in free && x !in LitVars(units)
  {
    hide FreeIn, Separated, DistinctVars;
    SplitApart(f, vars, trail + AsgOf(units), comps, free);
    forall x: Var | x in free
      ensures x !in LitVars(units)
    {
      assert Unassigned(x, vars, trail + AsgOf(units));
    }
  }

  lemma {:induction false} ZerosDistinct(p: Problem, vars: seq<Var>)
    requires NoDup(vars)
    requires forall v: Var :: v in vars ==> p.weightLit(Lit(v, false)) != 0.0 || p.weightLit(Lit(v, true)) != 0.0
    ensures DistinctVars(Zeros(p, vars))
  {
    if vars != [] {
      var init, v := vars[..|vars| - 1], vars[|vars| - 1];
      assert vars == init + [v];
      assert v in vars && v !in init;
      ZerosDistinct(p, init);
      ZerosHold(p, init);
      ZerosSnoc(p, vars, |vars|);
      assert vars[..|vars|] == vars;
      hide Zeros;
    }
  }

  lemma ZerosReady(p: Problem, vars: seq<Var>)
    requires p.Consistent() && Elements(vars) == p.AllVars() && NoDup(vars)
    requires forall v: Var :: v in vars ==> p.weightLit(Lit(v, false)) != 0.0 || p.weightLit(Lit(v, true)) != 0.0
    ensures Ready(p, Zeros(p, vars), map[], vars)
  {
    WholeReady(p, vars);
    ZerosDistinct(p, vars);
    ZerosHold(p, vars);
    hide Open, DistinctVars, Zeros, Problem.Consistent, Problem.AllVars;
  }

  lemma ZeroBranch(p: Problem, block: set<Var>, base: seq<Lit>, trail: Asg, vars: seq<Var>, l: Lit)
    requires l.v in vars && l.v in block && p.weightLit(l) == 0.0 && l.v < p.M().n
    ensures ResSolved(p, block, vars, base + [l], trail, 0.0, None)
  {
    var m, vs := p.M(), Elements(vars);
    var phi, p1 := Res(p.clauses, vs, Lits(base)), Res(p.clauses, vs, Lits(base + [l]));
    assert Lits(base + [l]) == Lits(base) + {l};
    assert m.weight(l) == 0.0;
    hide Res, Problem.M;
    BranchConditioned(p.clauses, vs, Lits(base), Lits(base + [l]), trail, l);
    forall v: Asg | block <= v.Keys
      ensures BestAt(m, block, vs, p1, trail, 0.0, v)
    {
      ZeroBest(m, block, vs, phi, p1, trail, l, v);
    }
  }

  lemma ZeroBest(m: Measure, block: set<Var>, vs: set<Var>, phi: Form, p1: Form, a: Asg, l: Lit, v: Asg)
    requires Conditioned(vs, phi, p1, a, l) && l.v in vs * block && m.weight(l) == 0.0 && l.v < m.n && block <= v.Keys
    ensures BestAt(m, block, vs, p1, a, 0.0, v)
  {
    hide Score, Conditioned, Restrict;
    forall e: Asg | e.Keys == vs * block
      ensures Score(m, block, vs, p1, a, e) == 0.0
    {
      ScoreConditioned(m, block, vs, phi, p1, a, l, e);
      if TrueIn(l, e) {
        ZeroWeight(m.n, m, e, l);
        ScoreIs(m, block, vs, phi, a, e);
      }
    }
  }

  lemma {:induction false} ZeroWeight(k: nat, m: Measure, e: Asg, l: Lit)
    requires TrueIn(l, e) && m.weight(l) == 0.0 && l.v < k
    ensures WeightTo(k, m, e) == 0.0
  {
    assert l == Lit(l.v, !e[l.v]);
    if l.v < k - 1 {
      ZeroWeight(k - 1, m, e, l);
    }
  }

  lemma SolvedNonNegative(m: Measure, block: set<Var>, vs: set<Var>, phi: Form, a: Asg, r: real, o: Option<Asg>)
    requires Solved(m, block, vs, phi, a, r, o) && NonNegative(m)
    ensures r >= 0.0
  {
    hide Score;
    var v: Asg := if o.Some? then o.value else map x | x in block :: false;
    assert BestAt(m, block, vs, phi, a, r, v);
    ScoreNonNegative(m, block, vs, phi, a, Restrict(v, vs * block));
  }

  lemma CountConditioned(m: Measure, vs: set<Var>, phi: Form, p1: Form, p2: Form, a: Asg, l: Lit)
    requires Conditioned(vs, phi, p1, a, l) && Conditioned(vs, phi, p2, a, l.Neg())
    requires l.v in vs && l.v in m.proj && m.weight(l) == 0.0 && forall x :: x in vs ==> x < m.n
    ensures Count(m, vs, phi, a) == Count(m, vs, p2, a)
  {
    forall e: Asg | e.Keys == vs
      ensures phi(a + e) == (p1(a + e) || p2(a + e))
    {
      OneHolds(l, e);
    }
    forall e: Asg, g: Asg | e.Keys == vs && g.Keys == vs && SameOn(vs * m.proj, e, g)
      ensures !(p1(a + e) && p2(a + g))
    {
      assert l.v in vs * m.proj;
      OneHolds(l, e);
    }
    assert Forces(vs, p1, a, l);
    hide Count;
    Counting.Sum(m, vs, phi, p1, p2, a);
    FixUnit(m, vs, p1, a, l);
  }

  lemma ConditionedUnder(block: set<Var>, vs: set<Var>, phi: Form, p1: Form, a: Asg, l: Lit, e: Asg)
    requires Conditioned(vs, phi, p1, a, l) && l.v in vs - block && e.Keys == vs * block
    ensures Conditioned(vs - block, phi, p1, a + e, l)
  {
    forall g: Asg | g.Keys == vs - block
      ensures p1(a + e + g) == (phi(a + e + g) && TrueIn(l, g))
    {
      assert (e + g).Keys == vs;
      assert a + e + g == a + (e + g);
      assert TrueIn(l, e + g) == TrueIn(l, g);
    }
  }

  lemma ZeroCounted(p: Problem, block: set<Var>, base: seq<Lit>, trail: Asg, vars: seq<Var>, l: Lit, r: real, v: Asg)
    requires MaxProblem(p, block) && l.v in vars && l.v in p.selected && p.weightLit(l) == 0.0
    requires forall x: Var :: x in vars ==> 1 <= x <= p.nbVar
    requires BestAt(p.M(), block, Elements(vars), Res(p.clauses, Elements(vars), Lits(base + [l.Neg()])), trail, r, v)
    ensures BestAt(p.M(), block, Elements(vars), Res(p.clauses, Elements(vars), Lits(base)), trail, r, v)
  {
    var m, vs := p.M(), Elements(vars);
    var phi, p1, p2 := Res(p.clauses, vs, Lits(base)), Res(p.clauses, vs, Lits(base + [l])), Res(p.clauses, vs, Lits(base + [l.Neg()]));
    assert Lits(base + [l]) == Lits(base) + {l} && Lits(base + [l.Neg()]) == Lits(base) + {l.Neg()};
    assert m.weight(l) == 0.0 && l.v in m.proj && l.v in vs - block && forall x: Var :: x in vs ==> x < m.n;
    NegVar(l);
    hide *;
    BranchConditioned(p.clauses, vs, Lits(base), Lits(base + [l]), trail, l);
    BranchConditioned(p.clauses, vs, Lits(base), Lits(base + [l.Neg()]), trail, l.Neg());
    forall e: Asg | e.Keys == vs * block
      ensures Score(m, block, vs, phi, trail, e) == Score(m, block, vs, p2, trail, e)
    {
      ZeroScore(m, block, vs, phi, p1, p2, trail, l, e);
    }
    BestTransfer(m, block, vs, p2, phi, trail, r, v);
  }

  lemma ZeroScore(m: Measure, block: set<Var>, vs: set<Var>, phi: Form, p1: Form, p2: Form, a: Asg, l: Lit, e: Asg)
    requires Conditioned(vs, phi, p1, a, l) && Conditioned(vs, phi, p2, a, l.Neg())
    requires l.v in vs - block && l.v in m.proj && m.weight(l) == 0.0 && (forall x: Var :: x in vs ==> x < m.n) && e.Keys == vs * block
    ensures Score(m, block, vs, phi, a, e) == Score(m, block, vs, p2, a, e)
  {
    hide *;
    NegVar(l);
    ConditionedUnder(block, vs, phi, p1, a, l, e);
    ConditionedUnder(block, vs, phi, p2, a, l.Neg(), e);
    CountConditioned(m, vs - block, phi, p1, p2, a + e, l);
    ScoreIs(m, block, vs, phi, a, e);
    ScoreIs(m, block, vs, p2, a, e);
  }

  lemma BestTransfer(m: Measure, block: set<Var>, vs: set<Var>, phi: Form, psi: Form, a: Asg, r: real, v: Asg)
    requires BestAt(m, block, vs, phi, a, r, v)
    requires forall e: Asg :: e.Keys == vs * block ==> Score(m, block, vs, psi, a, e) == Score(m, block, vs, phi, a, e)
    ensures BestAt(m, block, vs, psi, a, r, v)
  {
    hide Score, Restrict;
  }

  /** Assuming a literal of weight zero false does not change the answer. */
  lemma ZeroStep(p: Problem, block: set<Var>, base: seq<Lit>, trail: Asg, vars: seq<Var>, l: Lit, r: real, o: Option<Asg>)
    requires MaxProblem(p, block) && l.v in vars && p.weightLit(l) == 0.0 && (l.v in block || l.v in p.selected)
    requires forall x: Var :: x in vars ==> 1 <= x <= p.nbVar
    requires ResSolved(p, block, vars, base + [l.Neg()], trail, r, o)
    ensures ResSolved(p, block, vars, base, trail, r, o)
  {
    MaxMeasure(p, block);
    assert l.Neg().Neg() == l && l.Neg().v == l.v;
    hide Res, Problem.M, BestAt, MaxProblem, Lit.Neg, Lits, NonNegative;
    if l.v in block {
      ZeroBranch(p, block, base, trail, vars, l);
      SolvedNonNegative(p.M(), block, Elements(vars), Res(p.clauses, Elements(vars), Lits(base + [l.Neg()])), trail, r, o);
      BranchSolved(p, block, base, trail, vars, l.Neg(), r, 0.0, o, None);
    } else {
      match o {
        case Some(v) => ZeroCounted(p, block, base, trail, vars, l, r, v);
        case None =>
          forall v: Asg | block <= v.Keys
            ensures BestAt(p.M(), block, Elements(vars), Res(p.clauses, Elements(vars), Lits(base)), trail, r, v)
          {
            ZeroCounted(p, block, base, trail, vars, l, r, v);
          }
      }
    }
  }

  // ---------- Zero weights ----------

  /** The negations of the literals of weight zero of one variable. */
  function ZerosOf(p: Problem, v: Var): seq<Lit> {
    (if p.weightLit(Lit(v, false)) == 0.0 then [Lit(v, true)] else [])
    + (if p.weightLit(Lit(v, true)) == 0.0 then [Lit(v, false)] else [])
  }

  /** Those of the variables that are neither maximised nor counted. */
  function HiddenZeros(p: Problem, block: set<Var>, vars: seq<Var>): seq<Lit> {
    if vars == [] then []
    else
      var v := vars[|vars| - 1];
      HiddenZeros(p, block, vars[..|vars| - 1]) + (if v in block || v in p.selected then [] else ZerosOf(p, v))
  }

  lemma {:induction false} HiddenZerosHold(p: Problem, block: set<Var>, vars: seq<Var>)
    ensures forall l :: l in HiddenZeros(p, block, vars) ==> l.v in vars
    ensures HiddenWeigh(p, block) && (forall v: Var :: v in vars ==> v in p.AllVars()) ==> HiddenZeros(p, block, vars) == []
  {
    if vars != [] {
      var init, v := vars[..|vars| - 1], vars[|vars| - 1];
      HiddenZerosHold(p, block, init);
      assert vars == init + [v];
      hide Problem.AllVars;
    }
  }

  lemma SameLits(p: Problem, block: set<Var>, vars: seq<Var>, a: seq<Lit>, b: seq<Lit>, r: real, o: Option<Asg>)
    requires ResSolved(p, block, vars, a, map[], r, o) && Lits(a) == Lits(b)
    ensures ResSolved(p, block, vars, b, map[], r, o)
  {
    hide Solved, Res;
  }

  /** The zeros of a maximised or counted variable need not be assumed. */
  lemma VarIrrelevant(p: Problem, block: set<Var>, vars: seq<Var>, v: Var, base: seq<Lit>, r: real, o: Option<Asg>)
    requires MaxProblem(p, block) && v in vars && (v in block || v in p.selected) && forall x: Var :: x in vars ==> 1 <= x <= p.nbVar
    requires ResSolved(p, block, vars, base + ZerosOf(p, v), map[], r, o)
    ensures ResSolved(p, block, vars, base, map[], r, o)
  {
    hide ResSolved, MaxProblem;
    var yes, no := Lit(v, false), Lit(v, true);
    var mid := base + if p.weightLit(yes) == 0.0 then [yes.Neg()] else [];
    assert base + [] == base && mid + [] == mid;
    if p.weightLit(no) == 0.0 {
      assert base + ZerosOf(p, v) == mid + [no.Neg()];
      ZeroStep(p, block, mid, map[], vars, no, r, o);
    } else {
      assert base + ZerosOf(p, v) == mid;
    }
    if p.weightLit(yes) == 0.0 {
      ZeroStep(p, block, base, map[], vars, yes, r, o);
    }
  }

  lemma {:induction false} ZerosIrrelevantTo(p: Problem, block: set<Var>, vars: seq<Var>, k: nat, rest: seq<Lit>, r: real, o: Option<Asg>)
    requires MaxProblem(p, block) && k <= |vars| && forall x: Var :: x in vars ==> 1 <= x <= p.nbVar
    requires ResSolved(p, block, vars, rest + Zeros(p, vars[..k]), map[], r, o)
    ensures ResSolved(p, block, vars, rest + HiddenZeros(p, block, vars[..k]), map[], r, o)
  {
    hide ResSolved, MaxProblem, ZerosOf;
    if k != 0 {
      var v, base := vars[k - 1], rest + Zeros(p, vars[..k - 1]);
      assert vars[..k][..k - 1] == vars[..k - 1] && v in vars;
      assert rest + Zeros(p, vars[..k]) == base + ZerosOf(p, v) by { ZerosSnoc(p, vars, k); }
      if v in block || v in p.selected {
        VarIrrelevant(p, block, vars, v, base, r, o);
        assert HiddenZeros(p, block, vars[..k]) == HiddenZeros(p, block, vars[..k - 1]);
        ZerosIrrelevantTo(p, block, vars, k - 1, rest, r, o);
      } else {
        var more := rest + ZerosOf(p, v);
        SameLits(p, block, vars, base + ZerosOf(p, v), more + Zeros(p, vars[..k - 1]), r, o);
        ZerosIrrelevantTo(p, block, vars, k - 1, more, r, o);
        SameLits(p, block, vars, more + HiddenZeros(p, block, vars[..k - 1]), rest + HiddenZeros(p, block, vars[..k]), r, o);
      }
    }
  }

  lemma ZerosSnoc(p: Problem, vars: seq<Var>, k: nat)
    requires 0 < k <= |vars|
    ensures Zeros(p, vars[..k]) == Zeros(p, vars[..k - 1]) + ZerosOf(p, vars[k - 1])
  {
    assert vars[..k][..k - 1] == vars[..k - 1];
  }

  /** Only the zeros of hidden variables matter. */
  lemma ZerosIrrelevant(p: Problem, block: set<Var>, vars: seq<Var>, r: real, o: Option<Asg>)
    requires MaxProblem(p, block) && Elements(vars) == p.AllVars()
    requires ResSolved(p, block, vars, Zeros(p, vars), map[], r, o)
    ensures ResSolved(p, block, vars, HiddenZeros(p, block, vars), map[], r, o)
    ensures HiddenWeigh(p, block) ==> HiddenZeros(p, block, vars) == []
  {
    assert forall x: Var :: x in vars ==> x in p.AllVars() && 1 <= x <= p.nbVar by {
      assert forall x: Var :: x in vars ==> x in Elements(vars);
    }
    assert vars[..|vars|] == vars && [] + Zeros(p, vars) == Zeros(p, vars) && [] + HiddenZeros(p, block, vars) == HiddenZeros(p, block, vars);
    hide *;
    ZerosIrrelevantTo(p, block, vars, |vars|, [], r, o);
    HiddenZerosHold(p, block, vars);
  }

  /** The formula with every hidden literal of weight zero false. */
  function Forced(p: Problem, block: set<Var>): Problem {
    p.(clauses := p.clauses + UnitClauses(HiddenZeros(p, block, Numbers(p.nbVar))))
  }

  function UnitClauses(lits: seq<Lit>): Formula {
    seq(|lits|, i requires 0 <= i < |lits| => [lits[i]])
  }

  lemma UnitClausesHold(lits: seq<Lit>, b: Asg)
    ensures Sat(UnitClauses(lits), b) <==> forall l :: l in lits ==> TrueIn(l, b)
  {
    forall i | 0 <= i < |lits|
      ensures SatClause(UnitClauses(lits)[i], b) <==> TrueIn(lits[i], b)
    {
      assert UnitClauses(lits)[i] == [lits[i]];
      assert TrueIn(lits[i], b) ==> TrueIn(UnitClauses(lits)[i][0], b);
    }
    if Sat(UnitClauses(lits), b) {
      forall l | l in lits
        ensures TrueIn(l, b)
      {
        var i :| 0 <= i < |lits| && lits[i] == l;
        assert UnitClauses(lits)[i] in UnitClauses(lits);
      }
    }
  }

  /** Assuming the hidden zeros is adding them as unit clauses. */
  lemma ForcedSolved(p: Problem, block: set<Var>, vars: seq<Var>, r: real, o: Option<Asg>)
    requires MaxProblem(p, block) && vars == Numbers(p.nbVar) && Elements(vars) == p.AllVars()
    requires ResSolved(p, block, vars, HiddenZeros(p, block, vars), map[], r, o)
    ensures MaxProblem(Forced(p, block), block) && Forced(p, block).AllVars() == p.AllVars()
    ensures ResSolved(Forced(p, block), block, vars, [], map[], r, o)
  {
    var q, lits, vs := Forced(p, block), HiddenZeros(p, block, vars), Elements(vars);
    ForcedProblem(p, block);
    assert q.M() == p.M() && q.clauses == p.clauses + UnitClauses(lits);
    HiddenZerosHold(p, block, vars);
    hide Problem.M, MaxProblem, Solved, UnitClauses, HiddenZeros, Problem.AllVars, Numbers;
    forall e: Asg | e.Keys == vs
      ensures Res(p.clauses, vs, Lits(lits))(map[] + e) == Res(q.clauses, vs, Lits([]))(map[] + e)
    {
      UnitsAdded(p.clauses, lits, vars, map[] + e);
    }
    assert Agree(vs, Res(p.clauses, vs, Lits(lits)), map[], Res(q.clauses, vs, Lits([])), map[]);
    SolvedCongruence(p.M(), block, vs, Res(p.clauses, vs, Lits(lits)), map[], Res(q.clauses, vs, Lits([])), map[], r, o);
  }

  lemma UnitsAdded(f: Formula, lits: seq<Lit>, vars: seq<Var>, b: Asg)
    requires forall l :: l in lits ==> l.v in vars
    ensures Holds(f, Elements(vars), Lits(lits), b) <==> Holds(f + UnitClauses(lits), Elements(vars), Lits([]), b)
  {
    var vs := Elements(vars);
    UnitClausesHold(lits, b);
    assert forall l: Lit :: l.v in vars ==> l.v in vs;
    forall c | c in UnitClauses(lits)
      ensures Touches(c, vs)
    {
      var i :| 0 <= i < |lits| && UnitClauses(lits)[i] == c;
      assert lits[i] in lits && lits[i] in c;
    }
    hide SatClause, Touches, UnitClauses;
  }

  lemma ForcedProblem(p: Problem, block: set<Var>)
    requires MaxProblem(p, block)
    ensures MaxProblem(Forced(p, block), block) && Forced(p, block).AllVars() == p.AllVars() && Forced(p, block).M() == p.M()
    ensures HiddenWeigh(p, block) ==> Forced(p, block) == p
  {
    var vars, lits := Numbers(p.nbVar), HiddenZeros(p, block, Numbers(p.nbVar));
    NumbersHold(p.nbVar);
    HiddenZerosHold(p, block, vars);
    hide HiddenZeros;
    forall c | c in UnitClauses(lits)
      ensures c != [] && forall l :: l in c ==> 1 <= l.v <= p.nbVar
    {
      var i :| 0 <= i < |lits| && c == [lits[i]];
      assert lits[i] in lits;
    }
    assert p.clauses + [] == p.clauses;
    assert forall a: Asg :: Sat(p.clauses + UnitClauses(lits), a) ==> Sat(p.clauses, a) by {
      hide SatClause;
      assert forall c :: c in p.clauses ==> c in p.clauses + UnitClauses(lits);
    }
  }

  lemma WholeUnsat(p: Problem, block: set<Var>, vars: seq<Var>, lits: seq<Lit>)
    requires MaxProblem(p, block) && Elements(vars) == p.AllVars() && forall a: Asg :: !Sat(p.clauses, a)
    ensures ResSolved(p, block, vars, lits, map[], 0.0, None)
  {
    if Satisfiable(p.clauses, Elements(vars), Lits(lits), map[]) {
      var e :| Witness(Elements(vars), Res(p.clauses, Elements(vars), Lits(lits)), map[], e);
      EverythingHolds(p, vars, map[] + e);
      assert false;
    }
    hide *;
    UnsatSolved(p, block, lits, map[], vars);
    ScaledOpen(p, block, vars, lits, map[], MaxSharpSatResult(0.0, None), [], []);
    ScaledIs(p, 0.0, [], []);
  }

  lemma ScoreIsBlockScore(p: Problem, block: set<Var>, vars: seq<Var>, e: Asg)
    requires MaxProblem(p, block) && Elements(vars) == p.AllVars() && e.Keys == block
    ensures Elements(vars) * block == block
    ensures Score(p.M(), block, Elements(vars), Res(p.clauses, Elements(vars), Lits([])), map[], e) == BlockScore(p, block, e)
  {
    hide *;
    var m, vs, phi := p.M(), p.AllVars(), AllClauses(p.clauses);
    BlockInside(p, block, e);
    MaxMeasure(p, block);
    WholeAgrees(p, vars);
    AgreeUnder(block, vs, Res(p.clauses, vs, {}), map[], phi, map[], e);
    Congruence(m, vs - block, Res(p.clauses, vs, {}), map[] + e, phi, map[] + e);
    AllVarsBelow(p);
    CountIsModelSum(m, vs - block, phi, e);
    ScoreIs(m, block, vs, Res(p.clauses, vs, {}), map[], e);
    BlockScoreIs(p, block, e);
  }

  lemma BlockInside(p: Problem, block: set<Var>, e: Asg)
    requires MaxProblem(p, block)
    ensures p.AllVars() * block == block && map[] + e == e
  {
  }

  lemma BlockScoreIs(p: Problem, block: set<Var>, e: Asg)
    ensures BlockScore(p, block, e) == WeightTo(p.M().n, p.M(), e)
      * SetSum(Weigh(p.M().n, p.M()), ProjectedModels(p.M(), p.AllVars() - block, AllClauses(p.clauses), e))
  {
    hide SetSum, WeightTo, Weigh, ProjectedModels, AllClauses;
  }

  lemma WholeSolved(p: Problem, block: set<Var>, vars: seq<Var>, result: MaxSharpSatResult)
    requires MaxProblem(p, block) && Elements(vars) == p.AllVars()
    requires ResSolved(p, block, vars, [], map[], result.count, result.valuation)
    requires result.valuation.None? ==> result.count == 0.0
    ensures MaxSolved(p, block, result.count, result.valuation)
  {
    var v: Asg := if result.valuation.Some? then result.valuation.value else map x | x in block :: false;
    hide Score, BlockScore, Res, Problem.M, MaxProblem;
    assert BestAt(p.M(), block, Elements(vars), Res(p.clauses, Elements(vars), Lits([])), map[], result.count, v);
    forall e: Asg | e.Keys == block
      ensures BlockScore(p, block, e) <= result.count
    {
      ScoreIsBlockScore(p, block, vars, e);
    }
    ScoreIsBlockScore(p, block, vars, Restrict(v, block));
  }
}
