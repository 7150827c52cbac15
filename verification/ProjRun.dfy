/** projMC from the parsed problem to the count: separation, set-up, and the run. */
module ProjRun {
  import opened Cnf
  import opened Operation
  import opened ComponentFinder
  import opened Caching
  import opened Search
  import opened DpllCounter
  import opened CounterSetup
  import opened ProjSplit
  import opened ProjCover
  import opened ProjProblem
  import opened ProjMc

  /** The solver's models for a problem, besides the options of its counters. */
  datatype ProjSettings = ProjSettings(
    counter: Settings, models: Problem -> (nat, seq<Lit>, Asg, seq<Var>) -> Asg, refinement: bool)

  ghost predicate ProjSettingsOk(s: ProjSettings, n: nat) {
    && SettingsOk(s.counter, n)
    && (forall p: Problem :: p.Consistent() && p.nbVar <= n ==> BucketOk(p, s.counter.oracles(p), p.nbVar) && ModelsOk(p, s.models(p)))
  }

  lemma InnerOk(q: Problem, s: Split)
    requires q.Consistent() && Structured(q, s)
    ensures Inner(q, s).Consistent() && (ModeOk(q) ==> ModeOk(Inner(q, s)))
  {
    assert forall c :: c in s.proj ==> c in q.clauses;
    hide UpperOk, LowerOk, PureProj, IsUpper, PureRest, IsLower;
  }

  method NewParts(q: Problem, s: ProjSettings) returns (solver: WrapperSolver, specs: CnfManager, cache: CacheManager<real>)
    ensures fresh(solver) && solver.problem == q && solver.oracles == s.counter.oracles(q) && solver.assumption == []
    ensures fresh(specs) && fresh(specs.parent) && fresh(specs.size) && fresh(specs.pos) && fresh(specs.markView)
    ensures specs.clauses == q.clauses && specs.nbVar == q.nbVar && specs.Clean() && specs.value == map[]
    ensures fresh(cache) && cache.Valid() && cache.inserted == {}
  {
    solver := new WrapperSolver(q, s.counter.oracles(q));
    specs := new CnfManager(q.clauses, q.nbVar);
    cache := new CacheManager<real>(s.counter.cachingMethod, s.counter.hash, s.counter.cleaning, q.nbVar, 0.0);
  }

  method Build(q: Problem, split: Split, s: ProjSettings) returns (m: ProjMCMethod)
    requires q.Consistent() && Structured(q, split) && ModeOk(q) && ProjSettingsOk(s, q.nbVar)
    ensures fresh(m) && fresh(m.Footprint()) && m.Inv() && m.q == q
    ensures m.solver.assumption == [] && m.specs.value == map[]
  {
    InnerOk(q, split);
    hide Problem.Consistent, Structured, OraclesOk, BucketOk, ModelsOk, CnfManager.Clean, Inner, ProjMCMethod.Inv, DpllStyleMethod.Inv, ModeOk, CacheManager.Valid;
    var counter := NewCounter(Inner(q, split), s.counter);
    var solver, specs, cache := NewParts(q, s);
    m := new ProjMCMethod(q, split, s.counter.oracles(q), s.models(q), solver, specs, cache, counter, s.refinement);
  }

  /** The weighted projected models of a formula, counted through its separation. */
  method CountProjected(p: Problem, s: ProjSettings) returns (r: real)
    requires p.Consistent() && p.projected && ModeOk(p) && ProjSettingsOk(s, p.nbVar + |p.clauses|)
    ensures r == WeightedModelCount(p)
  {
    hide Problem.Consistent, Structured, ProjSettingsOk, ProjMCMethod.Inv, ProjMCMethod.Footprint, WeightedModelCount;
    var q, split := SeparateVariables(p);
    assert q.projected by { SplitProjected(q, split); }
    FewerVariables(s, p.nbVar + |p.clauses|, q.nbVar);
    var m := Build(q, split, s);
    r := m.Run();
  }

  // ---------- As the constructor wires it ----------

  /** The original problem in place of the split one: no selector, and the inner counter gets all clauses. */
  function Whole(p: Problem): Split { Split(p.clauses, [], map[], map[], [], map[]) }

  lemma WholeStructured(p: Problem)
    requires p.Consistent() && p.projected
    ensures Structured(p.(isUnsat := false), Whole(p)) && Inner(p.(isUnsat := false), Whole(p)) == p.(isUnsat := false)
    ensures p.(isUnsat := false).Consistent() && (ModeOk(p) ==> ModeOk(p.(isUnsat := false)))
    ensures WeightedModelCount(p.(isUnsat := false)) == WeightedModelCount(p)
  {
    assert Whole(p).Clauses() == p.clauses;
  }

  /**
    Component search and inner counter over the original problem, the flag of a refuted formula not read: the
    recursion then finds no selector, and every single component is one inner count.
  */
  method CountAsWired(p: Problem, s: ProjSettings) returns (r: real)
    requires p.Consistent() && p.projected && ModeOk(p) && ProjSettingsOk(s, p.nbVar)
    ensures r == WeightedModelCount(p)
  {
    hide *;
    WholeStructured(p);
    var m := Build(p.(isUnsat := false), Whole(p), s);
    r := m.Run();
  }

  lemma FewerVariables(s: ProjSettings, n: nat, k: nat)
    requires ProjSettingsOk(s, n) && k <= n
    ensures ProjSettingsOk(s, k)
  {
  }

  lemma SplitProjected(q: Problem, s: Split)
    requires Structured(q, s)
    ensures q.projected
  {
  }
}
