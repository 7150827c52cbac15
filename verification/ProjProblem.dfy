/** The problem projMC works on: the split formula with the weights of the original one. */
module ProjProblem {
  import opened Cnf
  import opened Counting
  import opened ModelSum
  import opened Operation
  import opened Search
  import opened ProjSplit
  import opened ProjCover

  /** The weights of the problem; selectors weigh one. */
  function SplitProblem(p: Problem, s: Split, nextVar: nat): Problem
    requires nextVar > 0
  {
    var w := (l: Lit) => if l.v <= p.nbVar then p.weightLit(l) else 1.0;
    Problem(nextVar - 1, s.Clauses(), true, p.selected, w, (v: Var) => w(Lit(v, false)) + w(Lit(v, true)), false)
  }

  /** Partitions and splits the clauses; the projected models and their weights stay the same. */
  method SeparateVariables(p: Problem) returns (q: Problem, s: Split)
    requires p.Consistent() && p.projected
    ensures q.Consistent() && Structured(q, s) && !q.isUnsat && q.selected == p.selected
    ensures p.nbVar <= q.nbVar <= p.nbVar + |p.clauses|
    ensures WeightedModelCount(q) == WeightedModelCount(p)
  {
    hide *;
    var splitter := new Splitter(p.selected, p.nbVar);
    var mix := splitter.PartitionFormula(p.clauses);
    ghost var proj0, nproj0 := splitter.projClause, splitter.nprojClause;
    ghost var owner;
    var nextVar;
    nextVar, owner := splitter.ManageMixedClauses(mix, p.nbVar + 1);
    s := splitter.Current();
    q := SplitProblem(p, s, nextVar);
    PartitionKeeps(p.clauses, p.selected, proj0, nproj0, mix);
    MakePartitioned(p, proj0, nproj0, mix);
    SplitStructured(p, q, s, nextVar, proj0, nproj0, mix, owner);
    SplitSameCount(p, q, s, nextVar, proj0, nproj0, mix, owner);
    SplitMeasures(p, q, s, nextVar);
    FilterShorter(p.clauses, c => Mixed(c, p.selected));
    assert q.nbVar == nextVar - 1 by { SplitSize(p, s, nextVar); }
  }

  lemma SplitSize(p: Problem, s: Split, nextVar: nat)
    requires nextVar > 0
    ensures SplitProblem(p, s, nextVar).nbVar == nextVar - 1
  {
  }

  ghost predicate Partitioned(p: Problem, proj0: Formula, nproj0: Formula, mix: Formula) {
    && (forall c :: c in proj0 + nproj0 + mix <==> c in p.clauses)
    && (forall c :: c in proj0 ==> OnlyProj(c, p.selected))
    && (forall c :: c in nproj0 ==> NoProj(c, p.selected))
  }

  lemma MakePartitioned(p: Problem, proj0: Formula, nproj0: Formula, mix: Formula)
    requires forall c :: c in proj0 + nproj0 + mix <==> c in p.clauses
    requires (forall c :: c in proj0 ==> OnlyProj(c, p.selected)) && forall c :: c in nproj0 ==> NoProj(c, p.selected)
    ensures Partitioned(p, proj0, nproj0, mix)
  {
    hide OnlyProj, NoProj;
  }

  /** The literals of the problem's clauses, seen from the split. */
  lemma GivenClause(p: Problem, s: Split, nextVar: nat, proj0: Formula, nproj0: Formula, mix: Formula, c: Clause)
    requires p.Consistent() && Partitioned(p, proj0, nproj0, mix) && Selectors(s, p.nbVar, nextVar) && c in proj0 + nproj0 + mix
    requires nextVar > p.nbVar
    ensures c != [] && forall l :: l in c ==> 1 <= l.v <= p.nbVar && l.v < nextVar && l.v !in s.part
  {
    assert c in p.clauses;
  }

  lemma SelectorRange(p: Problem, s: Split, nextVar: nat)
    requires p.Consistent() && Selectors(s, p.nbVar, nextVar)
    ensures forall v :: v in s.part <==> p.nbVar < v < nextVar
    ensures forall v :: v in s.part ==> v !in p.selected
    ensures s.rest.Keys == s.part.Keys
  {
  }

  lemma PartLits(p: Problem, s: Split, nextVar: nat, proj0: Formula, nproj0: Formula, mix: Formula, v: Var)
    requires p.Consistent() && Partitioned(p, proj0, nproj0, mix) && PartsFrom(s, p.selected, mix) && v in s.part
    ensures forall l :: l in s.part[v] ==> l.v in p.selected && 1 <= l.v <= p.nbVar
  {
    assert PartFrom(s.part[v], p.selected, mix);
    var i :| 0 <= i < |mix| && s.part[v] == ProjPart(mix[i], p.selected);
    PartsHold(mix[i], p.selected);
    assert mix[i] in proj0 + nproj0 + mix;
    hide ProjPart;
  }

  lemma RestLits(p: Problem, s: Split, nextVar: nat, proj0: Formula, nproj0: Formula, mix: Formula, owner: seq<Var>, k: nat)
    requires p.Consistent() && Partitioned(p, proj0, nproj0, mix) && Represented(s, p.selected, mix, owner) && k < |owner|
    ensures k < |s.notProj| && forall l :: l in s.notProj[k].0 ==> l.v !in p.selected && 1 <= l.v <= p.nbVar
  {
    PartsHold(mix[k], p.selected);
    assert mix[k] in proj0 + nproj0 + mix;
    assert s.notProj[k] == (RestPart(mix[k], p.selected), SelectorLit(owner[k]));
    hide ProjPart, RestPart;
  }

  lemma SplitStructured(p: Problem, q: Problem, s: Split, nextVar: nat, proj0: Formula, nproj0: Formula, mix: Formula, owner: seq<Var>)
    requires p.Consistent() && p.projected && Partitioned(p, proj0, nproj0, mix) && nextVar > p.nbVar && q == SplitProblem(p, s, nextVar)
    requires IsSplitOf(s, p.selected, p.nbVar, nextVar, proj0, nproj0, mix, owner) && PartsFrom(s, p.selected, mix)
    ensures Structured(q, s) && q.Consistent() && !q.isUnsat
  {
    SplitParts(s, p.selected, p.nbVar, nextVar, proj0, nproj0, mix, owner);
    SelectorRange(p, s, nextVar);
    assert q.clauses == s.Clauses() && q.projected && q.selected == p.selected && !q.isUnsat && q.nbVar == nextVar - 1;
    hide *;
    forall v | v in s.part
      ensures v !in q.selected && UpperOk(q, s, v)
    {
      UpperStructured(p, q, s, nextVar, proj0, nproj0, mix, v);
    }
    forall v, k: nat | v in s.rest && k in s.rest[v]
      ensures LowerOk(q, s, v, k)
    {
      LowerStructured(p, q, s, nextVar, proj0, nproj0, mix, owner, v, k);
    }
    forall c | c in s.proj
      ensures PureProj(q, c) || IsUpper(s, c)
    {
      ProjStructured(p, q, s, proj0, nproj0, mix, c);
    }
    forall c | c in s.nproj
      ensures PureRest(q, s, c) || IsLower(s, c)
    {
      RestStructured(p, q, s, nextVar, proj0, nproj0, mix, owner, c);
    }
    MakeStructured(q, s);
    SplitConsistent(p, q, s, nextVar, proj0, nproj0, mix, owner);
  }

  lemma MakeStructured(q: Problem, s: Split)
    requires q.clauses == s.Clauses() && q.projected && s.rest.Keys == s.part.Keys
    requires forall v :: v in s.part ==> v !in q.selected && UpperOk(q, s, v)
    requires forall v, k: nat :: v in s.rest && k in s.rest[v] ==> LowerOk(q, s, v, k)
    requires forall c :: c in s.proj ==> PureProj(q, c) || IsUpper(s, c)
    requires forall c :: c in s.nproj ==> PureRest(q, s, c) || IsLower(s, c)
    ensures Structured(q, s)
  {
    hide UpperOk, LowerOk, PureProj, IsUpper, PureRest, IsLower;
  }

  lemma UpperStructured(p: Problem, q: Problem, s: Split, nextVar: nat, proj0: Formula, nproj0: Formula, mix: Formula, v: Var)
    requires p.Consistent() && Partitioned(p, proj0, nproj0, mix) && PartsFrom(s, p.selected, mix) && UppersExact(s, proj0)
    requires q.selected == p.selected && v in s.part && Selectors(s, p.nbVar, nextVar)
    ensures v !in q.selected && UpperOk(q, s, v)
  {
    SelectorRange(p, s, nextVar);
    PartLits(p, s, nextVar, proj0, nproj0, mix, v);
    hide Upper, PartsFrom, Partitioned, Selectors, Problem.Consistent;
  }

  lemma LowerStructured(p: Problem, q: Problem, s: Split, nextVar: nat, proj0: Formula, nproj0: Formula, mix: Formula, owner: seq<Var>, v: Var, k: nat)
    requires p.Consistent() && Partitioned(p, proj0, nproj0, mix) && Represented(s, p.selected, mix, owner)
    requires RestsExact(s, owner) && LowersExact(s, nproj0, owner) && Selectors(s, p.nbVar, nextVar)
    requires q.selected == p.selected && v in s.rest && k in s.rest[v]
    ensures LowerOk(q, s, v, k)
  {
    assert RestAt(s, owner, v, k);
    SelectorRange(p, s, nextVar);
    RestLits(p, s, nextVar, proj0, nproj0, mix, owner, k);
    hide Lower, Partitioned, Selectors, Represented, Problem.Consistent;
  }

  lemma ProjStructured(p: Problem, q: Problem, s: Split, proj0: Formula, nproj0: Formula, mix: Formula, c: Clause)
    requires Partitioned(p, proj0, nproj0, mix) && UppersExact(s, proj0) && q.selected == p.selected && c in s.proj
    ensures PureProj(q, c) || IsUpper(s, c)
  {
    if c in proj0 {
      assert OnlyProj(c, p.selected);
    }
  }

  lemma RestStructured(p: Problem, q: Problem, s: Split, nextVar: nat, proj0: Formula, nproj0: Formula, mix: Formula, owner: seq<Var>, c: Clause)
    requires p.Consistent() && Partitioned(p, proj0, nproj0, mix) && LowersExact(s, nproj0, owner) && RestsExact(s, owner)
    requires Represented(s, p.selected, mix, owner) && Selectors(s, p.nbVar, nextVar) && q.selected == p.selected && c in s.nproj
    requires nextVar > p.nbVar
    ensures PureRest(q, s, c) || IsLower(s, c)
  {
    if c in nproj0 {
      assert NoProj(c, p.selected);
      GivenClause(p, s, nextVar, proj0, nproj0, mix, c);
    } else {
      var i: nat :| i < |owner| && c == Lower(s.notProj[i].0, owner[i]);
      assert owner[i] in s.part;
      assert RestAt(s, owner, owner[i], i);
    }
  }

  lemma SplitConsistent(p: Problem, q: Problem, s: Split, nextVar: nat, proj0: Formula, nproj0: Formula, mix: Formula, owner: seq<Var>)
    requires p.Consistent() && p.projected && Partitioned(p, proj0, nproj0, mix) && nextVar > p.nbVar && q == SplitProblem(p, s, nextVar)
    requires IsSplitOf(s, p.selected, p.nbVar, nextVar, proj0, nproj0, mix, owner) && PartsFrom(s, p.selected, mix)
    ensures q.Consistent()
  {
    assert q.clauses == s.Clauses() && q.nbVar == nextVar - 1;
    forall c | c in q.clauses
      ensures c != [] && forall l :: l in c ==> 1 <= l.v <= q.nbVar
    {
      ClauseConsistent(p, s, nextVar, proj0, nproj0, mix, owner, c);
    }
    assert forall v :: v in q.selected ==> 1 <= v <= q.nbVar;
  }

  lemma ClauseConsistent(p: Problem, s: Split, nextVar: nat, proj0: Formula, nproj0: Formula, mix: Formula, owner: seq<Var>, c: Clause)
    requires p.Consistent() && Partitioned(p, proj0, nproj0, mix) && nextVar > p.nbVar && c in s.Clauses()
    requires IsSplitOf(s, p.selected, p.nbVar, nextVar, proj0, nproj0, mix, owner) && PartsFrom(s, p.selected, mix)
    ensures c != [] && forall l :: l in c ==> 1 <= l.v < nextVar
  {
    SplitParts(s, p.selected, p.nbVar, nextVar, proj0, nproj0, mix, owner);
    SelectorRange(p, s, nextVar);
    hide IsSplitOf, Selectors, Represented, RestsExact, Partitioned, Problem.Consistent, PartsFrom;
    if c in proj0 + nproj0 + mix {
      GivenClause(p, s, nextVar, proj0, nproj0, mix, c);
    } else if c in s.proj {
      var v :| v in s.part && c == Upper(s.part[v], v);
      PartLits(p, s, nextVar, proj0, nproj0, mix, v);
      forall l | l in c
        ensures 1 <= l.v < nextVar
      {
        SnocMembers(s.part[v], SelectorLit(v), l);
      }
    } else {
      var i: nat :| i < |owner| && c == Lower(s.notProj[i].0, owner[i]);
      RestLits(p, s, nextVar, proj0, nproj0, mix, owner, i);
      OwnerSelects(s, p.selected, mix, owner, i);
      forall l | l in c
        ensures 1 <= l.v < nextVar
      {
        SnocMembers(s.notProj[i].0, SelectorLit(owner[i]).Neg(), l);
      }
    }
  }

  lemma OwnerSelects(s: Split, proj: set<Var>, mix: Formula, owner: seq<Var>, i: nat)
    requires Represented(s, proj, mix, owner) && i < |owner|
    ensures owner[i] in s.part
  {
  }

  // ---------- The same count ----------

  lemma {:induction false} WeightAgrees(k: nat, m1: Measure, m2: Measure, e: Asg, n: nat)
    requires forall x: Var :: x in e ==> x <= n
    requires forall l: Lit :: l.v <= n ==> m1.weight(l) == m2.weight(l)
    ensures WeightTo(k, m1, e) == WeightTo(k, m2, e)
  {
    if k != 0 {
      WeightAgrees(k - 1, m1, m2, e, n);
    }
  }

  lemma {:induction false} WeightSettles(k: nat, n: nat, m: Measure, e: Asg)
    requires n < k && forall x: Var :: x in e ==> x <= n
    ensures WeightTo(k, m, e) == WeightTo(n + 1, m, e)
  {
    if k != n + 1 {
      WeightSettles(k - 1, n, m, e);
    }
  }

  lemma ExtendsSplit(p: Problem, q: Problem, s: Split, nextVar: nat, proj0: Formula, nproj0: Formula, mix: Formula, owner: seq<Var>, e: Asg)
    requires p.Consistent() && Partitioned(p, proj0, nproj0, mix) && nextVar > p.nbVar && q == SplitProblem(p, s, nextVar)
    requires IsSplitOf(s, p.selected, p.nbVar, nextVar, proj0, nproj0, mix, owner) && e.Keys == p.selected
    ensures Extends(q.AllVars() - q.selected, AllClauses(q.clauses), e) <==> Extends(p.AllVars() - p.selected, AllClauses(p.clauses), e)
  {
    SplitParts(s, p.selected, p.nbVar, nextVar, proj0, nproj0, mix, owner);
    SelectorRange(p, s, nextVar);
    var hp, hq := p.AllVars() - p.selected, q.AllVars() - q.selected;
    assert hq == hp + s.part.Keys && hp !! s.part.Keys;
    assert q.clauses == s.Clauses();
    WithinBelow(p, proj0, nproj0, mix);
    hide *;
    if Extends(hq, AllClauses(q.clauses), e) {
      FoldSelectors(p, s, nextVar, proj0, nproj0, mix, owner, e, hp);
    }
    if Extends(hp, AllClauses(p.clauses), e) {
      UnfoldSelectors(p, s, nextVar, proj0, nproj0, mix, owner, e, hp);
    }
  }

  lemma WithinBelow(p: Problem, proj0: Formula, nproj0: Formula, mix: Formula)
    requires p.Consistent() && Partitioned(p, proj0, nproj0, mix)
    ensures VarsUpTo(proj0 + nproj0 + mix, p.nbVar)
    ensures forall a: Asg :: Sat(proj0 + nproj0 + mix, a) <==> Sat(p.clauses, a)
  {
    hide SatClause, OnlyProj, NoProj;
  }

  lemma Cut(e: Asg, g: Asg, v1: set<Var>, v2: set<Var>) returns (g1: Asg, g2: Asg)
    requires g.Keys == v1 + v2 && v1 !! v2
    ensures g1.Keys == v1 && g2.Keys == v2 && e + g == e + g1 + g2
  {
    g1 := map x | x in g && x in v1 :: g[x];
    g2 := map x | x in g && x in v2 :: g[x];
  }

  lemma Join(e: Asg, g: Asg, h: Asg)
    ensures e + g + h == e + (g + h)
  {
  }

  lemma FoldSelectors(p: Problem, s: Split, nextVar: nat, proj0: Formula, nproj0: Formula, mix: Formula, owner: seq<Var>, e: Asg, hp: set<Var>)
    requires IsSplitOf(s, p.selected, p.nbVar, nextVar, proj0, nproj0, mix, owner) && VarsUpTo(proj0 + nproj0 + mix, p.nbVar)
    requires forall a: Asg :: Sat(proj0 + nproj0 + mix, a) <==> Sat(p.clauses, a)
    requires hp !! s.part.Keys && Extends(hp + s.part.Keys, AllClauses(s.Clauses()), e)
    ensures Extends(hp, AllClauses(p.clauses), e)
  {
    var g :| Witness(hp + s.part.Keys, AllClauses(s.Clauses()), e, g);
    hide IsSplitOf, VarsUpTo, Sat;
    var g1, g2 := Cut(e, g, hp, s.part.Keys);
    SplitImplies(s, p.selected, p.nbVar, nextVar, proj0, nproj0, mix, owner, e + g1, g2);
    assert Witness(hp, AllClauses(p.clauses), e, g1);
  }

  lemma UnfoldSelectors(p: Problem, s: Split, nextVar: nat, proj0: Formula, nproj0: Formula, mix: Formula, owner: seq<Var>, e: Asg, hp: set<Var>)
    requires IsSplitOf(s, p.selected, p.nbVar, nextVar, proj0, nproj0, mix, owner) && VarsUpTo(proj0 + nproj0 + mix, p.nbVar)
    requires forall a: Asg :: Sat(proj0 + nproj0 + mix, a) <==> Sat(p.clauses, a)
    requires hp !! s.part.Keys && Extends(hp, AllClauses(p.clauses), e)
    ensures Extends(hp + s.part.Keys, AllClauses(s.Clauses()), e)
  {
    var g :| Witness(hp, AllClauses(p.clauses), e, g);
    hide IsSplitOf, VarsUpTo, Sat, SelectorValues;
    SplitExtends(s, p.selected, p.nbVar, nextVar, proj0, nproj0, mix, owner, e + g);
    var g2 := SelectorValues(s, owner, e + g);
    Join(e, g, g2);
    assert Witness(hp + s.part.Keys, AllClauses(s.Clauses()), e, g + g2);
  }

  /** Splitting changes neither the projected models nor their weights. */
  lemma SplitSameCount(p: Problem, q: Problem, s: Split, nextVar: nat, proj0: Formula, nproj0: Formula, mix: Formula, owner: seq<Var>)
    requires p.Consistent() && p.projected && Partitioned(p, proj0, nproj0, mix) && nextVar > p.nbVar && q == SplitProblem(p, s, nextVar)
    requires IsSplitOf(s, p.selected, p.nbVar, nextVar, proj0, nproj0, mix, owner)
    ensures WeightedModelCount(q) == WeightedModelCount(p)
  {
    var a, b := ProjectedModels(p.M(), p.AllVars(), AllClauses(p.clauses), map[]), ProjectedModels(q.M(), q.AllVars(), AllClauses(q.clauses), map[]);
    SplitMeasures(p, q, s, nextVar);
    hide *;
    forall e: Asg
      ensures e in a <==> e in b
    {
      SameModel(p, q, s, nextVar, proj0, nproj0, mix, owner, e);
    }
    assert a == b;
    forall e: Asg | e in a
      ensures Weigh(q.nbVar + 1, q.M())(e) == Weigh(p.nbVar + 1, p.M())(e)
    {
      SameWeight(p, q, s, nextVar, e);
    }
    SetSumSame(Weigh(q.nbVar + 1, q.M()), Weigh(p.nbVar + 1, p.M()), a);
    ModelCountIs(p);
    ModelCountIs(q);
  }

  lemma SplitMeasures(p: Problem, q: Problem, s: Split, nextVar: nat)
    requires p.Consistent() && p.projected && nextVar > p.nbVar && q == SplitProblem(p, s, nextVar)
    ensures p.M().proj == p.selected == q.M().proj == q.selected && p.nbVar <= q.nbVar && p.M().n == p.nbVar + 1 && q.M().n == q.nbVar + 1
    ensures p.AllVars() * p.selected == p.selected && q.AllVars() * p.selected == p.selected
    ensures forall l: Lit :: l.v <= p.nbVar ==> p.M().weight(l) == q.M().weight(l)
    ensures (forall x: Var :: x in p.AllVars() ==> x < p.M().n) && (forall x: Var :: x in q.AllVars() ==> x < q.M().n)
    ensures forall x: Var :: x in p.selected ==> x <= p.nbVar
  {
  }

  lemma SameModel(p: Problem, q: Problem, s: Split, nextVar: nat, proj0: Formula, nproj0: Formula, mix: Formula, owner: seq<Var>, e: Asg)
    requires p.Consistent() && p.projected && Partitioned(p, proj0, nproj0, mix) && nextVar > p.nbVar && q == SplitProblem(p, s, nextVar)
    requires IsSplitOf(s, p.selected, p.nbVar, nextVar, proj0, nproj0, mix, owner)
    ensures e in ProjectedModels(p.M(), p.AllVars(), AllClauses(p.clauses), map[])
       <==> e in ProjectedModels(q.M(), q.AllVars(), AllClauses(q.clauses), map[])
  {
    hide *;
    SplitMeasures(p, q, s, nextVar);
    CountIsModelSum(p.M(), p.AllVars(), AllClauses(p.clauses), map[]);
    CountIsModelSum(q.M(), q.AllVars(), AllClauses(q.clauses), map[]);
    assert map[] + e == e;
    if e.Keys == p.selected {
      ExtendsSplit(p, q, s, nextVar, proj0, nproj0, mix, owner, e);
    }
  }

  lemma SameWeight(p: Problem, q: Problem, s: Split, nextVar: nat, e: Asg)
    requires p.Consistent() && p.projected && nextVar > p.nbVar && q == SplitProblem(p, s, nextVar)
    requires e in ProjectedModels(p.M(), p.AllVars(), AllClauses(p.clauses), map[])
    ensures Weigh(q.nbVar + 1, q.M())(e) == Weigh(p.nbVar + 1, p.M())(e)
  {
    hide *;
    SplitMeasures(p, q, s, nextVar);
    CountIsModelSum(p.M(), p.AllVars(), AllClauses(p.clauses), map[]);
    assert e.Keys == p.selected;
    WeightSettles(q.nbVar + 1, p.nbVar, q.M(), e);
    WeightAgrees(p.nbVar + 1, p.M(), q.M(), e, p.nbVar);
    WeighIs(q.nbVar + 1, q.M(), e);
    WeighIs(p.nbVar + 1, p.M(), e);
  }

  lemma WeighIs(k: nat, m: Measure, e: Asg)
    ensures Weigh(k, m)(e) == WeightTo(k, m, e)
  {
    hide WeightTo;
  }
}
