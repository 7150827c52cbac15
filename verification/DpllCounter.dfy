/**
  The DPLL-style model counter: unit collection, component split, cache lookup and
  decision nodes over several literals, as one mutual recursion over an assumption stack.
*/
module DpllCounter {
  import opened FiniteSets
  import opened Cnf
  import opened ModelSum
  import opened Residual
  import opened Components
  import opened ComponentFinder
  import opened Operation
  import opened Caching
  import opened Search

  class DpllStyleMethod {
    const problem: Problem
    const oracles: Oracles
    const solver: WrapperSolver
    const cache: CacheManager<real>
    const specs: CnfManager
    const optCached: bool

    /** The cache is asked about components up to this size only. */
    ghost const cacheLimit: nat

    var nbCallCall: nat
    var nbSplit: nat
    var nbDecisionNode: nat
    var lastNbSplit: nat
    var nbFailedIncreased: nat
    var connectedComponent: bool

    /** The cache holds right answers only, and the component search starts clean. */
    ghost predicate Inv()
      reads cache, specs`mustUnMark, specs.pos, specs.markView
      ensures Inv() ==> problem.Consistent() && OraclesOk(problem, oracles) && cache.Valid()
      ensures Inv() ==> solver.problem == problem && solver.oracles == oracles
      ensures Inv() ==> specs.clauses == problem.clauses && specs.nbVar == problem.nbVar && specs.Clean()
    {
      && problem.Consistent() && OraclesOk(problem, oracles)
      && solver.problem == problem && solver.oracles == oracles
      && specs.clauses == problem.clauses && specs.nbVar == problem.nbVar && specs.Clean()
      && cache.Valid()
      && BucketOk(problem, oracles, cacheLimit) && (optCached ==> cache.Within(cacheLimit))
      && (forall b :: b in cache.inserted ==> EntrySound(problem, oracles, cacheLimit, b))
    }

    /** An empty cache: nothing inserted yet. */
    constructor (problem: Problem, oracles: Oracles, solver: WrapperSolver, cache: CacheManager<real>, specs: CnfManager, optCached: bool,
        ghost cacheLimit: nat)
      requires problem.Consistent() && OraclesOk(problem, oracles) && (problem.projected <==> |problem.selected| > 0)
      requires cache.Valid() && cache.inserted == {} && BucketOk(problem, oracles, cacheLimit) && (optCached ==> cache.Within(cacheLimit))
      requires specs.Clean() && specs.clauses == problem.clauses && specs.nbVar == problem.nbVar && specs.value == map[]
      requires solver.problem == problem && solver.oracles == oracles && solver.assumption == []
      ensures Inv() && this.solver == solver && solver.assumption == [] && specs.value == map[]
      ensures this.problem == problem && this.oracles == oracles && this.cache == cache && this.specs == specs
    {
      this.problem, this.oracles, this.solver, this.cache, this.specs, this.optCached := problem, oracles, solver, cache, specs, optCached;
      this.cacheLimit := cacheLimit;
      nbCallCall, nbSplit, nbDecisionNode, lastNbSplit, nbFailedIncreased := 0, 0, 0, 0, 0;
      connectedComponent := true;
    }

    method SelectLitSet(vars: seq<Var>) returns (lits: seq<Lit>)
      requires Inv()
      modifies solver`clock
      ensures Selection(problem, vars, lits)
    {
      solver.clock := solver.clock + 1;
      lits := oracles.select(solver.clock, specs.value, vars);
    }

    /** Component search, suspended for a while when it keeps finding nothing. */
    method ComputeConnectedComponent(setOfVar: seq<Var>) returns (varConnected: seq<seq<Var>>, freeVariable: seq<Var>)
      requires NoDup(setOfVar) && forall v: Var :: v in setOfVar ==> v <= problem.nbVar
      requires specs.clauses == problem.clauses && specs.nbVar == problem.nbVar && specs.Clean()
      modifies this`connectedComponent, this`nbFailedIncreased, this`lastNbSplit
      modifies specs`mustUnMark, specs.parent, specs.size, specs.pos, specs.markView
      ensures specs.Clean()
      ensures IsSplit(problem.clauses, setOfVar, specs.value, varConnected, freeVariable)
      ensures old(connectedComponent) || nbCallCall % 500 == 0 ==> Finest(problem.clauses, specs.value, setOfVar, varConnected)
      ensures old(connectedComponent) ==>
        (!connectedComponent <==> nbCallCall % 10000 == 0 && old(lastNbSplit) == nbSplit && old(nbFailedIncreased) >= 10 && |varConnected| <= 1)
      ensures !old(connectedComponent) ==> (connectedComponent <==> nbCallCall % 500 == 0 && |varConnected| > 1)
      ensures old(connectedComponent) && nbCallCall % 10000 == 0 && old(lastNbSplit) == nbSplit && old(nbFailedIncreased) < 10 ==>
        nbFailedIncreased == old(nbFailedIncreased) + 1
      ensures old(connectedComponent) && nbCallCall % 10000 == 0 && old(lastNbSplit) != nbSplit ==> nbFailedIncreased == 0 && lastNbSplit == nbSplit
      ensures !old(connectedComponent) && connectedComponent ==> nbFailedIncreased == 0
    {
      assert nbCallCall % 10000 == 0 ==> nbCallCall % 500 == 0 by { Twentieth(nbCallCall); }
      if connectedComponent && nbCallCall % 10000 == 0 {
        if lastNbSplit == nbSplit {
          nbFailedIncreased := nbFailedIncreased + 1;
        } else {
          nbFailedIncreased := 0;
          lastNbSplit := nbSplit;
        }
        connectedComponent := nbFailedIncreased < 11;
      }
      if connectedComponent || nbCallCall % 500 == 0 {
        varConnected, freeVariable := specs.ComputeConnectedComponent(setOfVar);
        if |varConnected| > 1 && !connectedComponent {
          nbFailedIncreased := 0;
          connectedComponent := true;
        }
        return;
      }
      varConnected, freeVariable := specs.ComputeTrivialConnectedComponent(setOfVar);
    }

    lemma Twentieth(n: nat)
      ensures n % 10000 == 0 ==> n % 500 == 0
    {
      if n % 10000 == 0 {
        assert n == 500 * (20 * (n / 10000));
      }
    }

    twostate lemma KeepsInv()
      requires old(Inv()) && specs.Clean() && unchanged(cache)
      ensures Inv()
    {
    }

    // ---------- The recursion ----------

    /**
      Counts the open clauses over `setOfVar` under the assumptions: the result, scaled by the
      units and free variables it reports, is the residual count.
    */
    method Compute_(setOfVar: seq<Var>) returns (d: real, unitsLit: seq<Lit>, freeVariable: seq<Var>)
      requires Inv() && Ready(problem, solver.assumption, specs.value, setOfVar)
      modifies this, solver, cache, specs, specs.parent, specs.size, specs.pos, specs.markView
      ensures Inv() && solver.assumption == old(solver.assumption) && specs.value == old(specs.value)
      ensures d * UnitFree(problem, unitsLit, freeVariable) == CountOf(problem, setOfVar, solver.assumption, specs.value)
      decreases Bound(solver.assumption, setOfVar), 5
    {
      hide *;
      nbCallCall := nbCallCall + 1;
      nbCallCall := nbCallCall + 1;
      ReadyRange(problem, solver.assumption, specs.value, setOfVar);
      var sat := solver.Solve(specs.value, setOfVar);
      if !sat {
        UnsatCount(problem, solver.assumption, specs.value, setOfVar);
        return 0.0, [], [];
      }
      var units := solver.WhichAreUnits(specs.value, setOfVar);
      UnitsUnassigned(problem, solver.assumption, specs.value, setOfVar, units);
      specs.PreUpdate(units);
      var varConnected, free := ComputeConnectedComponent(setOfVar);
      KeepsInv();
      freeVariable := ExpelNoDecisionVar(problem, free);
      if |varConnected| > 0 {
        PartsReady(problem, solver.assumption, old(specs.value), setOfVar, units, varConnected, free);
        d := ComputeComponents(varConnected, Bound(solver.assumption, setOfVar));
        specs.PostUpdate(units);
        unitsLit := ExpelNoDecisionLit(problem, units);
      } else {
        NoComponent(problem, specs.value);
        specs.PostUpdate(units);
        unitsLit := ExpelNoDecisionLit(problem, units);
        d := 1.0;
      }
      ScaledIsCount(problem, solver.assumption, specs.value, setOfVar, units, varConnected, free, d);
    }

    method ComputeComponents(varConnected: seq<seq<Var>>, ghost bound: nat) returns (d: real)
      requires Inv() && |varConnected| > 0
      requires forall i :: 0 <= i < |varConnected| ==>
        |varConnected[i]| <= bound && ComponentReady(problem, solver.assumption, specs.value, varConnected[i])
      modifies this, solver, cache, specs, specs.parent, specs.size, specs.pos, specs.markView
      ensures Inv() && solver.assumption == old(solver.assumption) && specs.value == old(specs.value)
      ensures d == CompsCount(problem.M(), problem.clauses, specs.value, varConnected, 0)
      decreases bound, 4
    {
      hide *;
      var nbComponent := |varConnected|;
      var tab := new real[nbComponent];
      nbSplit := nbSplit + if nbComponent > 1 then nbComponent else 0;
      for cp := 0 to nbComponent
        invariant Inv() && solver.assumption == old(solver.assumption) && specs.value == old(specs.value)
        invariant forall i :: 0 <= i < cp ==> tab[i] == CountOf(problem, varConnected[i], [], specs.value)
      {
        var r := ComputeComponent(varConnected[cp]);
        tab[cp] := r;
      }
      d := ManageDecomposableAnd(tab, nbComponent);
      ComponentProduct(problem, specs.value, varConnected, tab[..]);
      assert tab[..nbComponent] == tab[..];
    }

    method ComputeComponent(connected: seq<Var>) returns (r: real)
      requires Inv() && ComponentReady(problem, solver.assumption, specs.value, connected)
      modifies this, solver, cache, specs, specs.parent, specs.size, specs.pos, specs.markView
      ensures Inv() && solver.assumption == old(solver.assumption) && specs.value == old(specs.value)
      ensures r == CountOf(problem, connected, [], specs.value)
      ensures old(optCached && |connected| <= cache.limitVarCached) ==> cache.Holds(oracles.bucket(specs.value, connected), r)
      ensures old(optCached && |connected| <= cache.limitVarCached && cache.Hits(oracles.bucket(specs.value, connected), solver.clock)) ==>
        solver.clock == old(solver.clock) && nbDecisionNode == old(nbDecisionNode)
      decreases |connected|, 3
    {
      var cacheActivated := optCached && cache.IsActivated(|connected|);
      if !cacheActivated {
        r := ComputeDecisionNode(connected);
        return;
      }
      var formulaBucket := oracles.bucket(specs.value, connected);
      var cb := cache.SearchInCache(formulaBucket, solver.clock);
      if cb.defined {
        r := cb.e.fc;
      } else {
        r := ComputeDecisionNode(connected);
        FreshEntrySound(problem, oracles, cacheLimit, specs.value, connected, cb.e, r);
        cache.AddInCache(cb, r);
      }
    }

    method ComputeDecisionNode(connected: seq<Var>) returns (r: real)
      requires Inv() && ComponentReady(problem, solver.assumption, specs.value, connected)
      modifies this, solver, cache, specs, specs.parent, specs.size, specs.pos, specs.markView
      ensures Inv() && solver.assumption == old(solver.assumption) && specs.value == old(specs.value)
      ensures r == CountOf(problem, connected, [], specs.value)
      decreases |connected|, 2
    {
      hide *;
      var lits := SelectLitSet(connected);
      if |lits| == 0 {
        NothingToDecide(problem, solver.assumption, specs.value, connected, lits);
        return 1.0;
      }
      nbDecisionNode := nbDecisionNode + 1;
      ghost var base := solver.assumption;
      var b := new DataBranch[|lits| + 1](_ => DataBranch(0.0, [], []));
      var nb, sizeAssum, i := 0, |solver.assumption|, 0;
      FirstBranch(problem, base, specs.value, connected, lits);
      assert b[..nb] == [];
      while i <= |lits|
        invariant Inv() && specs.value == old(specs.value) && nb == i <= |lits| + 1
        invariant base <= solver.assumption && (i <= |lits| ==> solver.assumption == Stack(base, lits, i))
        invariant BranchSum(problem, b[..nb]) + Remaining(problem, base, specs.value, connected, lits, i) == CountOf(problem, connected, [], specs.value)
      {
        var open, e := ComputeBranch(connected, lits, i, base);
        if !open { break; }
        ghost var before := b[..nb];
        b[nb] := e;
        assert b[..nb + 1] == before + [e];
        BranchCounted(problem, base, specs.value, connected, lits, i, before, e);
        nb := nb + 1;
        i := i + 1;
      }
      RemainingEnd(problem, base, specs.value, connected, lits);
      solver.PopAssumption(|solver.assumption| - sizeAssum);
      r := ManageDeterministOr(problem, b, nb);
    }

    /** Iteration `i` of a decision node; it is not open when nothing is left to count. */
    method ComputeBranch(connected: seq<Var>, lits: seq<Lit>, i: nat, ghost base: seq<Lit>) returns (open: bool, e: DataBranch)
      requires Inv() && ComponentReady(problem, base, specs.value, connected) && Selection(problem, connected, lits)
      requires 0 < |lits| && i <= |lits| && solver.assumption == Stack(base, lits, i)
      modifies this, solver, cache, specs, specs.parent, specs.size, specs.pos, specs.markView
      ensures Inv() && specs.value == old(specs.value) && base <= solver.assumption
      ensures open ==> solver.assumption == Stack(base, lits, i + 1)
      ensures open ==> e.d * UnitFree(problem, e.unitLits, e.freeVars) == CountOf(problem, connected, Branch(base, lits, i), specs.value)
      ensures !open ==> Remaining(problem, base, specs.value, connected, lits, i) == 0.0
      decreases |connected|, 1
    {
      hide *;
      StackStep(base, lits, i);
      BranchReady(problem, base, specs.value, connected, lits, i);
      if i != 0 {
        solver.PopAssumption(1);
        solver.PushAssumption(lits[i - 1].Neg());
        if |lits| > 1 {
          var sat := solver.Solve(specs.value, connected);
          if !sat {
            NothingRemains(problem, base, specs.value, connected, lits, i);
            return false, DataBranch(0.0, [], []);
          }
        }
      }
      if i != |lits| {
        solver.PushAssumption(lits[i]);
      }
      var d, u, f := Compute_(connected);
      return true, DataBranch(d, u, f);
    }

    // ---------- Entry points ----------

    method Compute(setOfVar: seq<Var>, warmStart: bool) returns (r: real)
      requires Inv() && Ready(problem, solver.assumption, specs.value, setOfVar)
      modifies this, solver, cache, specs, specs.parent, specs.size, specs.pos, specs.markView
      ensures Inv() && solver.assumption == old(solver.assumption) && specs.value == old(specs.value)
      ensures problem.isUnsat ==> r == 0.0
      ensures !problem.isUnsat && !warmStart ==> r == CountOf(problem, setOfVar, solver.assumption, specs.value)
      ensures r == CountOf(problem, setOfVar, solver.assumption, specs.value)
           || (r == 0.0 && forall a: Asg :: !Sat(problem.clauses, a))
    {
      hide *;
      UnsatAnswers();
      var decisionVar: seq<Var> := [];
      for i := 0 to |setOfVar| {
        if problem.IsDecisionVariable(setOfVar[i]) {
          decisionVar := decisionVar + [setOfVar[i]];
        }
      }
      if problem.isUnsat {
        return 0.0;
      }
      if warmStart {
        var ok := solver.WarmStart(decisionVar);
        if !ok {
          return 0.0;
        }
      }
      var d, unitLits, freeVars := Compute_(setOfVar);
      var w := ComputeWeightUnitFree(problem, unitLits, freeVars);
      r := d * w;
    }

    /** The number of models of the formula simplified by the given assumptions. */
    method Count(setOfVar: seq<Var>, assums: seq<Lit>) returns (r: real)
      requires Inv() && specs.value == map[] && Countable(problem, assums, setOfVar)
      modifies this, solver, cache, specs, specs.parent, specs.size, specs.pos, specs.markView
      ensures Inv() && solver.assumption == assums && specs.value == map[]
      ensures r == if problem.isUnsat then 0.0 else
                     SetSum(Weigh(problem.nbVar + 1, problem.M()),
                            ProjectedModels(problem.M(), Elements(setOfVar), Res(problem.clauses, Elements(setOfVar), Lits(assums)),
                                            AsgOf(Shadow(assums, setOfVar))))
    {
      hide *;
      solver.assumption := assums;
      var shadowUnits := ShadowUnits(assums, setOfVar);
      CountableReady(problem, assums, setOfVar);
      CountableDistinct(problem, assums, setOfVar);
      specs.PreUpdate(shadowUnits);
      MapEmpty(AsgOf(shadowUnits));
      r := Compute(setOfVar, false);
      specs.PostUpdate(shadowUnits);
      MapErase(AsgOf(shadowUnits));
      CountSum(problem, setOfVar, assums, AsgOf(shadowUnits));
    }

    /** The whole run returns the weighted projected model count of the formula. */
    method Run() returns (r: real)
      requires Inv() && solver.assumption == [] && specs.value == map[]
      modifies this, solver, cache, specs, specs.parent, specs.size, specs.pos, specs.markView
      ensures Inv() && solver.assumption == [] && specs.value == map[]
      ensures r == WeightedModelCount(problem)
    {
      hide *;
      var setOfVar := ListVars(problem);
      InvHolds();
      WholeCount(problem, setOfVar);
      r := Compute(setOfVar, true);
      if forall a: Asg :: !Sat(problem.clauses, a) {
        NoModel(problem);
      }
    }

    lemma UnsatAnswers()
      requires Inv()
      ensures problem.isUnsat ==> forall a: Asg :: !Sat(problem.clauses, a)
      ensures OraclesOk(solver.problem, solver.oracles) && solver.problem == problem
    {
    }

    lemma InvHolds()
      requires Inv()
      ensures problem.Consistent() && OraclesOk(problem, oracles)
    {
    }

    method ShadowUnits(assums: seq<Lit>, setOfVar: seq<Var>) returns (shadowUnits: seq<Lit>)
      ensures shadowUnits == Shadow(assums, setOfVar)
    {
      hide *;
      shadowUnits := [];
      ShadowEnds(assums, setOfVar);
      for i := 0 to |assums|
        invariant shadowUnits + Shadow(assums[i..], setOfVar) == Shadow(assums, setOfVar)
      {
        ShadowNext(assums, i, setOfVar);
        if assums[i].v !in setOfVar {
          shadowUnits := shadowUnits + [assums[i]];
        }
      }
    }
  }
}
