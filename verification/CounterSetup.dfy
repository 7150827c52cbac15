/** Setting up a counter for a problem, with a fresh solver, component search and cache. */
module CounterSetup {
  import opened FiniteSets
  import opened Cnf
  import opened ModelSum
  import opened Residual
  import opened ComponentFinder
  import opened Operation
  import opened DataInfos
  import opened Caching
  import opened Search
  import opened DpllCounter

  /** The options of a counter, and the solver, heuristic and encoder it gets for a problem. */
  datatype Settings = Settings(
    oracles: Problem -> Oracles, cachingMethod: CachingMethod, hash: (Bytes, DataInfo) -> nat, cleaning: Cleaning<real>, optCached: bool)

  /** The answers are right for every problem of up to `n` variables; without a cache nothing is encoded. */
  ghost predicate SettingsOk(s: Settings, n: nat) {
    forall p: Problem :: p.Consistent() && p.nbVar <= n ==> OraclesOk(p, s.oracles(p)) && BucketOk(p, s.oracles(p), Limit(p, s))
  }

  function Limit(p: Problem, s: Settings): nat { if s.optCached then p.nbVar else 0 }

  /** Projected mode is on exactly when variables are selected. */
  predicate ModeOk(p: Problem) { p.projected <==> |p.selected| > 0 }

  method NewCounter(p: Problem, s: Settings) returns (counter: DpllStyleMethod)
    requires p.Consistent() && ModeOk(p) && SettingsOk(s, p.nbVar)
    ensures fresh(counter) && fresh(counter.solver) && fresh(counter.cache) && fresh(counter.specs)
    ensures fresh(counter.specs.parent) && fresh(counter.specs.size) && fresh(counter.specs.pos) && fresh(counter.specs.markView)
    ensures counter.Inv() && counter.problem == p && counter.solver.assumption == [] && counter.specs.value == map[]
  {
    hide Problem.Consistent, OraclesOk, BucketOk, CnfManager.Clean;
    var solver := new WrapperSolver(p, s.oracles(p));
    var cache := new CacheManager<real>(s.cachingMethod, s.hash, s.cleaning, p.nbVar, 0.0);
    var specs := new CnfManager(p.clauses, p.nbVar);
    counter := new DpllStyleMethod(p, s.oracles(p), solver, cache, specs, s.optCached, Limit(p, s));
  }

  /** Counting every variable without assumptions counts the models of the formula. */
  method CountModels(p: Problem, s: Settings, setOfVar: seq<Var>) returns (r: real)
    requires p.Consistent() && ModeOk(p) && SettingsOk(s, p.nbVar) && NoDup(setOfVar) && Elements(setOfVar) == p.AllVars()
    ensures r == WeightedModelCount(p)
  {
    hide *;
    var counter := NewCounter(p, s);
    AllCountable(p, setOfVar);
    r := counter.Count(setOfVar, []);
    AllCounted(p, setOfVar);
  }

  lemma AllCountable(p: Problem, setOfVar: seq<Var>)
    requires p.Consistent() && NoDup(setOfVar) && Elements(setOfVar) == p.AllVars()
    ensures Shadow([], setOfVar) == [] && AsgOf([]) == map[] && Countable(p, [], setOfVar)
  {
    WholeReady(p, setOfVar);
    assert forall x: Var :: x in setOfVar <==> x in Elements(setOfVar);
  }

  lemma AllCounted(p: Problem, setOfVar: seq<Var>)
    requires p.Consistent() && NoDup(setOfVar) && Elements(setOfVar) == p.AllVars()
    ensures WeightedModelCount(p) == if p.isUnsat then 0.0 else
      SetSum(Weigh(p.nbVar + 1, p.M()),
             ProjectedModels(p.M(), Elements(setOfVar), Res(p.clauses, Elements(setOfVar), Lits([])), AsgOf(Shadow([], setOfVar))))
  {
    hide *;
    AllCountable(p, setOfVar);
    CountableReady(p, [], setOfVar);
    WholeCount(p, setOfVar);
    CountSum(p, setOfVar, [], map[]);
    if p.isUnsat {
      UnsatFlag(p);
      NoModel(p);
    }
  }

  lemma UnsatFlag(p: Problem)
    requires p.Consistent() && p.isUnsat
    ensures forall a: Asg :: !Sat(p.clauses, a)
  {
  }
}
