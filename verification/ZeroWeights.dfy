/** When assuming the literals of weight zero false keeps the answer of a Max#SAT problem. */
module ZeroWeights {
  import opened FiniteSets
  import opened Wrappers
  import opened Cnf
  import opened Counting
  import opened ModelSum
  import opened Residual
  import opened Operation
  import opened Search
  import opened MaxCounting
  import opened MaxSharpSat

  /** Every variable has a literal of positive weight. */
  ghost predicate OnePositive(m: Measure, vs: set<Var>) {
    forall x :: x in vs ==> m.weight(Lit(x, false)) > 0.0 || m.weight(Lit(x, true)) > 0.0
  }

  /** Every assignment of the counted variables extends to a model. */
  ghost predicate AllExtend(m: Measure, vs: set<Var>, phi: Form, a: Asg) {
    forall e: Asg :: e.Keys == vs * m.proj ==> Extends(vs - m.proj, phi, a + e)
  }

  lemma AllExtendAt(m: Measure, vs: set<Var>, phi: Form, a: Asg, x: Var, t: bool)
    requires AllExtend(m, vs, phi, a) && x in vs && x in m.proj
    ensures AllExtend(m, vs - {x}, phi, a[x := t])
  {
    hide Extends;
    forall e: Asg | e.Keys == (vs - {x}) * m.proj
      ensures Extends(vs - {x} - m.proj, phi, a[x := t] + e)
    {
      assert e[x := t].Keys == vs * m.proj && vs - {x} - m.proj == vs - m.proj;
      Move(a, e, x, t);
    }
  }

  lemma AllExtendHere(m: Measure, vs: set<Var>, phi: Form, a: Asg)
    requires AllExtend(m, vs, phi, a) && vs !! m.proj
    ensures Extends(vs, phi, a)
  {
    hide Extends;
    var none: Asg := map[];
    assert vs - m.proj == vs && none.Keys == vs * m.proj && a + none == a;
  }

  lemma OneTerm(w0: real, w1: real, c0: real, c1: real)
    requires w0 >= 0.0 && w1 >= 0.0 && (w0 > 0.0 || w1 > 0.0) && c0 > 0.0 && c1 > 0.0
    ensures w0 * c0 + w1 * c1 > 0.0
  {
    TimesNonNegative(w0, c0);
    TimesNonNegative(w1, c1);
    if w0 > 0.0 {
      assert w0 * c0 > 0.0;
    } else {
      assert w1 * c1 > 0.0;
    }
  }

  lemma {:induction false} CountPositive(k: nat, m: Measure, vs: set<Var>, phi: Form, a: Asg)
    requires NonNegative(m) && OnePositive(m, vs) && AllExtend(m, vs, phi, a) && forall x :: x in vs && x in m.proj ==> x < k
    ensures CountTo(k, m, vs, phi, a) > 0.0
  {
    hide AllExtend, Extends;
    if k == 0 {
      AllExtendHere(m, vs, phi, a);
    } else if k - 1 in vs && k - 1 in m.proj {
      var x := k - 1;
      AllExtendAt(m, vs, phi, a, x, true);
      AllExtendAt(m, vs, phi, a, x, false);
      CountPositive(k - 1, m, vs - {x}, phi, a[x := true]);
      CountPositive(k - 1, m, vs - {x}, phi, a[x := false]);
      OneTerm(m.weight(Lit(x, false)), m.weight(Lit(x, true)),
              CountTo(k - 1, m, vs - {x}, phi, a[x := true]), CountTo(k - 1, m, vs - {x}, phi, a[x := false]));
    } else {
      CountPositive(k - 1, m, vs, phi, a);
    }
  }

  lemma {:induction false} WeightPositive(k: nat, m: Measure, e: Asg)
    requires forall x: Var :: x in e ==> m.weight(Lit(x, !e[x])) > 0.0
    ensures WeightTo(k, m, e) > 0.0
  {
    if k != 0 {
      WeightPositive(k - 1, m, e);
      if k - 1 in e {
        assert m.weight(Lit(k - 1, !e[k - 1])) > 0.0;
        OneTerm(m.weight(Lit(k - 1, !e[k - 1])), 0.0, WeightTo(k - 1, m, e), 1.0);
      }
    }
  }

  /** The problem with another formula. */
  function Given(p: Problem, f: Formula): Problem {
    p.(clauses := f, isUnsat := false)
  }

  /** The value with the heavier literal, on the block. */
  function Heavy(p: Problem, block: set<Var>): Asg {
    map x | x in block :: p.weightLit(Lit(x, false)) > 0.0
  }

  lemma UnitExtends(m: Measure, block: set<Var>, vs: set<Var>, l: Lit, a: Asg)
    requires l.v in vs && l.v !in block && l.v !in m.proj && a.Keys == block
    ensures AllExtend(m, vs - block, Res([[l]], vs, {}), a)
  {
    var phi := Res([[l]], vs, {});
    forall e: Asg | e.Keys == (vs - block) * m.proj
      ensures Extends(vs - block - m.proj, phi, a + e)
    {
      var w: Asg := map x | x in vs - block - m.proj :: !l.sign;
      assert TrueIn([l][0], a + e + w);
      assert Witness(vs - block - m.proj, phi, a + e, w);
    }
  }

  /** Some valuation of the block scores more than zero when only a hidden literal is asked for. */
  lemma UnitScores(p: Problem, block: set<Var>, l: Lit)
    requires MaxProblem(p, block) && HasWeight(p) && p.clauses == [[l]]
    requires l.v in p.AllVars() && l.v !in block && l.v !in p.selected
    ensures Score(p.M(), block, p.AllVars(), Res(p.clauses, p.AllVars(), {}), map[], Heavy(p, block)) > 0.0
  {
    var m, vs, v := p.M(), p.AllVars(), Heavy(p, block);
    UnitMeasure(p, block);
    hide *;
    UnitExtends(m, block, vs, l, v);
    AllScore(m, block, vs, Res(p.clauses, vs, {}), v);
  }

  lemma UnitMeasure(p: Problem, block: set<Var>)
    requires MaxProblem(p, block) && HasWeight(p)
    ensures NonNegative(p.M()) && OnePositive(p.M(), p.AllVars()) && p.M().proj == p.selected
    ensures forall x: Var :: x in p.AllVars() ==> x < p.M().n
    ensures Heavy(p, block).Keys == block
    ensures forall x: Var :: x in Heavy(p, block) ==> p.M().weight(Lit(x, !Heavy(p, block)[x])) > 0.0
  {
    assert p.M().weight == p.weightLit;
    assert forall x: Var :: x in p.AllVars() ==> 1 <= x <= p.nbVar;
    forall x: Var | x in p.AllVars()
      ensures p.weightLit(Lit(x, false)) > 0.0 || p.weightLit(Lit(x, true)) > 0.0
    {
      assert p.weightLit(Lit(x, false)) >= 0.0 && p.weightLit(Lit(x, true)) >= 0.0;
    }
    assert forall x: Var :: x in block ==> x in p.AllVars();
  }

  lemma AllScore(m: Measure, block: set<Var>, vs: set<Var>, phi: Form, v: Asg)
    requires NonNegative(m) && OnePositive(m, vs) && AllExtend(m, vs - block, phi, v) && forall x: Var :: x in vs ==> x < m.n
    requires forall x: Var :: x in v ==> m.weight(Lit(x, !v[x])) > 0.0
    ensures Score(m, block, vs, phi, map[], v) > 0.0
  {
    hide AllExtend, NonNegative, CountTo, WeightTo;
    WeightPositive(m.n, m, v);
    assert OnePositive(m, vs - block);
    CountPositive(m.n, m, vs - block, phi, v);
    assert map[] + v == v;
    OneTerm(WeightTo(m.n, m, v), 0.0, Count(m, vs - block, phi, v), 1.0);
  }

  lemma PositiveNotSolved(p: Problem, block: set<Var>, vars: seq<Var>, v: Asg)
    requires Elements(vars) == p.AllVars() && v.Keys == block && block <= p.AllVars()
    requires Score(p.M(), block, p.AllVars(), Res(p.clauses, p.AllVars(), {}), map[], v) > 0.0
    ensures !ResSolved(p, block, vars, [], map[], 0.0, None)
  {
    assert Lits([]) == {};
    assert Restrict(v, Elements(vars) * block) == v;
    hide Score, Res, Problem.M, Problem.AllVars, Bounded, Elements;
  }

  lemma Clashing(p: Problem, vars: seq<Var>, l: Lit)
    requires p.clauses == [[l]] && l.v in vars && p.weightLit(l) == 0.0
    ensures !Satisfiable(p.clauses, Elements(vars), Lits(Zeros(p, vars)), map[])
  {
    ZerosHold(p, vars);
    assert l.Neg().Neg() == l && l.Neg().v == l.v;
    assert l.Neg() in Lits(Zeros(p, vars)) && l.v in Elements(vars);
    assert [l] in p.clauses && l in [l];
  }

  /**
    A hidden literal of weight zero that the formula needs: the search answers zero and no
    valuation, although some valuation scores more.
  */
  lemma HiddenZero(p: Problem, block: set<Var>, vars: seq<Var>, l: Lit)
    requires MaxProblem(p, block) && HasWeight(p) && Elements(vars) == p.AllVars() && p.clauses == [[l]]
    requires l.v in p.AllVars() && l.v !in block && l.v !in p.selected && p.weightLit(l) == 0.0
    ensures ResSolved(p, block, vars, Zeros(p, vars), map[], 0.0, None)
    ensures !ResSolved(p, block, vars, [], map[], 0.0, None)
  {
    assert l.v in vars by { assert l.v in Elements(vars); }
    assert block <= p.AllVars();
    hide *;
    Clashing(p, vars, l);
    UnsatSolved(p, block, Zeros(p, vars), map[], vars);
    ScaledOpen(p, block, vars, Zeros(p, vars), map[], MaxSharpSatResult(0.0, None), [], []);
    ScaledIs(p, 0.0, [], []);
    UnitScores(p, block, l);
    assert Heavy(p, block).Keys == block by { HeavyKeys(p, block); }
    PositiveNotSolved(p, block, vars, Heavy(p, block));
  }

  lemma HeavyKeys(p: Problem, block: set<Var>)
    ensures Heavy(p, block).Keys == block
  {
  }

  /** For every formula, an answer under the assumed zeros is an answer without them. */
  ghost predicate ZerosHarmless(p: Problem, block: set<Var>, vars: seq<Var>) {
    forall f: Formula, r: real, o: Option<Asg> :: Given(p, f).Consistent() && ResSolved(Given(p, f), block, vars, Zeros(Given(p, f), vars), map[], r, o) ==>
      ResSolved(Given(p, f), block, vars, [], map[], r, o)
  }

  /** Assuming the zeros keeps the answers of all formulas exactly when hidden literals weigh something. */
  lemma ZerosExact(p: Problem, block: set<Var>, vars: seq<Var>)
    requires MaxProblem(p, block) && HasWeight(p) && Elements(vars) == p.AllVars()
    ensures HiddenWeigh(p, block) <==> ZerosHarmless(p, block, vars)
  {
    if HiddenWeigh(p, block) {
      forall f: Formula, r: real, o: Option<Asg> | Given(p, f).Consistent() && ResSolved(Given(p, f), block, vars, Zeros(Given(p, f), vars), map[], r, o)
        ensures ResSolved(Given(p, f), block, vars, [], map[], r, o)
      {
        hide *;
        ZerosIrrelevant(Given(p, f), block, vars, r, o);
      }
    } else {
      var l: Lit :| l.v in p.AllVars() && p.weightLit(l) == 0.0 && l.v !in block && l.v !in p.selected;
      hide ResSolved, Zeros, HasWeight, MaxProblem, Elements, Problem.AllVars, Problem.Consistent;
      HiddenZero(Given(p, [[l]]), block, vars, l);
    }
  }
}
