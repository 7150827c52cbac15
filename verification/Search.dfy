/**
  One step of a DPLL search: what the solver, the heuristics and the bucket encoder answer,
  and what pushing literals, collecting units and splitting into components do to the count.
*/
module Search {
  import opened FiniteSets
  import opened Cnf
  import opened Counting
  import opened ModelSum
  import opened Residual
  import opened Components
  import opened Operation
  import opened Caching

  /**
    The answers of the SAT solver, the branching heuristic and the bucket encoder.
    The first argument stands for their hidden state: no two consultations share it.
  */
  datatype Oracles = Oracles(
    solve: (nat, seq<Lit>, Asg, seq<Var>) -> bool,
    units: (nat, seq<Lit>, Asg, seq<Var>) -> seq<Lit>,
    select: (nat, Asg, seq<Var>) -> seq<Lit>,
    bucket: (Asg, seq<Var>) -> CachedBucket<real>,
    warm: (nat, seq<Var>) -> bool)

  function Lits(s: seq<Lit>): set<Lit> {
    set l | l in s
  }

  /** The trail covers every assumption outside `vars`; the variables of `vars` are open. */
  ghost predicate Ready(p: Problem, assumption: seq<Lit>, trail: Asg, vars: seq<Var>) {
    && DistinctVars(assumption)
    && NoDup(vars)
    && Open(p.clauses, p.nbVar + 1, Elements(vars), trail)
    && 0 !in vars
    && (forall l :: l in assumption && l.v !in vars ==> TrueIn(l, trail))
  }

  /** `solve` decides satisfiability of the open clauses under the assumptions. */
  ghost predicate SolveOk(p: Problem, o: Oracles) {
    forall t: nat, a: seq<Lit>, trail: Asg, vars: seq<Var> :: Ready(p, a, trail, vars) ==>
      (o.solve(t, a, trail, vars) <==> Satisfiable(p.clauses, Elements(vars), Lits(a), trail))
  }

  ghost predicate UnitsOf(p: Problem, assumption: seq<Lit>, trail: Asg, vars: seq<Var>, u: seq<Lit>) {
    && DistinctVars(u)
    && (forall l :: l in u ==> l.v in vars && Implied(p.clauses, Elements(vars), Lits(assumption), trail, l))
    && (forall l :: l in assumption && l.v in vars ==> l in u)
  }

  /** `whichAreUnits` returns implied literals, the assumed ones among them. */
  ghost predicate UnitsOk(p: Problem, o: Oracles) {
    forall t: nat, a: seq<Lit>, trail: Asg, vars: seq<Var> :: Ready(p, a, trail, vars) && Satisfiable(p.clauses, Elements(vars), Lits(a), trail) ==>
      UnitsOf(p, a, trail, vars, o.units(t, a, trail, vars))
  }

  ghost predicate Selection(p: Problem, vars: seq<Var>, lits: seq<Lit>) {
    && DistinctVars(lits)
    && (forall l :: l in lits ==> l.v in vars && p.IsDecisionVariable(l.v))
    && (lits == [] ==> forall v :: v in vars ==> !p.IsDecisionVariable(v))
  }

  /** `selectLitSet` returns decision literals, and none only if no decision variable is left. */
  ghost predicate SelectOk(p: Problem, o: Oracles) {
    forall t: nat, trail: Asg, vars: seq<Var> :: Selection(p, vars, o.select(t, trail, vars))
  }

  ghost predicate Cacheable(p: Problem, trail: Asg, vars: seq<Var>) {
    NoDup(vars) && vars != [] && Open(p.clauses, p.nbVar + 1, Elements(vars), trail)
  }

  /** A component the cache is asked about: none larger than `limit` is. */
  ghost predicate Asked(p: Problem, limit: nat, trail: Asg, vars: seq<Var>) {
    Cacheable(p, trail, vars) && |vars| <= limit
  }

  /** Equal buckets encode the same variables and the same open clauses. */
  ghost predicate BucketOk(p: Problem, o: Oracles, limit: nat) {
    && (forall trail: Asg, vars: seq<Var> :: Asked(p, limit, trail, vars) ==> o.bucket(trail, vars).Sized() && o.bucket(trail, vars).Live())
    && (forall t1: Asg, v1: seq<Var>, t2: Asg, v2: seq<Var> :: Asked(p, limit, t1, v1) && Asked(p, limit, t2, v2) && SameKey(o.bucket(t1, v1), o.bucket(t2, v2)) ==>
          Elements(v1) == Elements(v2) && OpenClauses(p.clauses, Elements(v1), t1) == OpenClauses(p.clauses, Elements(v2), t2))
  }

  /** A warm start that fails has shown the formula unsatisfiable. */
  ghost predicate WarmOk(p: Problem, o: Oracles) {
    forall t: nat, vars: seq<Var> :: !o.warm(t, vars) ==> forall a: Asg :: !Sat(p.clauses, a)
  }

  ghost predicate OraclesOk(p: Problem, o: Oracles) {
    SolveOk(p, o) && UnitsOk(p, o) && SelectOk(p, o) && WarmOk(p, o)
  }

  ghost function CountOf(p: Problem, vars: seq<Var>, assumed: seq<Lit>, trail: Asg): real {
    ResCount(p.M(), p.clauses, Elements(vars), Lits(assumed), trail)
  }

  /** A cache entry is right for every component encoded by its key. */
  ghost predicate EntrySound(p: Problem, o: Oracles, limit: nat, b: CachedBucket<real>) {
    forall trail: Asg, vars: seq<Var> :: Asked(p, limit, trail, vars) && SameKey(o.bucket(trail, vars), b) ==>
      b.fc == CountOf(p, vars, [], trail)
  }

  lemma FreshEntrySound(p: Problem, o: Oracles, limit: nat, trail: Asg, vars: seq<Var>, e: CachedBucket<real>, val: real)
    requires BucketOk(p, o, limit) && Asked(p, limit, trail, vars) && SameKey(e, o.bucket(trail, vars))
    requires val == CountOf(p, vars, [], trail)
    ensures EntrySound(p, o, limit, e.LockedBucket(val))
  {
    forall trail': Asg, vars': seq<Var> | Asked(p, limit, trail', vars') && SameKey(o.bucket(trail', vars'), e.LockedBucket(val))
      ensures val == CountOf(p, vars', [], trail')
    {
      assert SameKey(o.bucket(trail, vars), o.bucket(trail', vars'));
      SameOpenClausesSameCount(p.M(), p.clauses, Elements(vars), trail, trail');
      assert Lits([]) == {};
    }
  }

  // ---------- Termination: the unassigned variables ----------

  lemma Smaller(vars: seq<Var>, comp: seq<Var>, x: Var)
    requires NoDup(vars) && NoDup(comp)
    requires Elements(comp) <= Elements(vars)
    ensures |comp| <= |vars|
    ensures x in vars && x !in comp ==> |comp| < |vars|
  {
    ElementsSize(vars);
    ElementsSize(comp);
    SubsetSize(Elements(comp), Elements(vars));
    if x in vars && x !in comp {
      SubsetSize(Elements(comp), Elements(vars) - {x});
    }
  }

  ghost predicate Pending(assumption: seq<Lit>, vars: seq<Var>) {
    exists l :: l in assumption && l.v in vars
  }

  // ---------- One call, step by step ----------

  ghost function Scaled(p: Problem, d: real, units: seq<Lit>, frees: seq<Var>): real {
    d * UnitFree(p, units, frees)
  }

  lemma UnassignedAfter(trail: Asg, vars: seq<Var>, u: seq<Lit>)
    requires DistinctVars(u) && Elements(vars) !! trail.Keys
    ensures forall x: Var :: x in Elements(vars) - LitVars(u) <==> Unassigned(x, vars, trail + AsgOf(u))
  {
  }

  lemma AssumptionsOnTrail(p: Problem, assumption: seq<Lit>, trail: Asg, vars: seq<Var>, u: seq<Lit>)
    requires Ready(p, assumption, trail, vars) && UnitsOf(p, assumption, trail, vars, u)
    ensures forall l :: l in assumption ==> TrueIn(l, trail + AsgOf(u))
  {
    forall l | l in assumption
      ensures TrueIn(l, trail + AsgOf(u))
    {
      if l.v in vars {
        assert l in u;
      } else {
        assert l.v !in LitVars(u);
      }
    }
  }

  /** After the units are on the trail, what is left is ready to be split. */
  lemma AfterUnits(p: Problem, assumption: seq<Lit>, trail: Asg, vars: seq<Var>, u: seq<Lit>)
    requires Ready(p, assumption, trail, vars) && UnitsOf(p, assumption, trail, vars, u)
    requires Satisfiable(p.clauses, Elements(vars), Lits(assumption), trail)
    ensures Open(p.clauses, p.nbVar + 1, Elements(vars) - LitVars(u), trail + AsgOf(u))
    ensures CountOf(p, vars, assumption, trail)
         == LitsWeight(p.M(), u) * ResCount(p.M(), p.clauses, Elements(vars) - LitVars(u), {}, trail + AsgOf(u))
    ensures Satisfiable(p.clauses, Elements(vars) - LitVars(u), {}, trail + AsgOf(u))
  {
    hide Open, Satisfiable, Implied, LitVars, AsgOf, DistinctVars, NoDup, LitsWeight, ResCount;
    UnitsKeepOpen(p.clauses, p.nbVar + 1, Elements(vars), trail, u);
    UnitsLaw(p.M(), p.clauses, Elements(vars), Lits(assumption), trail, u);
    UnitsStaySatisfiable(p.clauses, p.nbVar + 1, Elements(vars), Lits(assumption), trail, u);
  }

  /** The value returned by a call, scaled by its units and free variables, is the residual count. */
  lemma ScaledIsCount(p: Problem, assumption: seq<Lit>, trail: Asg, vars: seq<Var>, u: seq<Lit>,
      comps: seq<seq<Var>>, free: seq<Var>, d: real)
    requires p.Consistent()
    requires Ready(p, assumption, trail, vars) && UnitsOf(p, assumption, trail, vars, u)
    requires Satisfiable(p.clauses, Elements(vars), Lits(assumption), trail)
    requires IsSplit(p.clauses, vars, trail + AsgOf(u), comps, free)
    requires d == CompsCount(p.M(), p.clauses, trail + AsgOf(u), comps, 0)
    ensures d * UnitFree(p, KeepLits(p, u), KeepVars(p, free)) == CountOf(p, vars, assumption, trail)
  {
    hide *;
    UnitsRange(p, assumption, trail, vars, u);
    var m, f, t, vs := p.M(), p.clauses, trail + AsgOf(u), Elements(vars) - LitVars(u);
    ReadyRange(p, assumption, trail, vars);
    AfterUnits(p, assumption, trail, vars, u);
    UnassignedAfter(trail, vars, u);
    SplitRange(f, vars, t, comps, free);
    SplitCount(m, f, vars, t, comps, free, vs);
    KeptLitsWeight(p, u);
    KeptVarsWeight(p, free);
    UnitFreeFactors(p, KeepLits(p, u), KeepVars(p, free));
    Rearrange(d, LitsWeight(m, u), VarsWeight(m, free), RawLits(p, KeepLits(p, u)), RawVars(p, KeepVars(p, free)),
              UnitFree(p, KeepLits(p, u), KeepVars(p, free)), ResCount(m, f, vs, {}, t), CountOf(p, vars, assumption, trail));
  }

  lemma UnitFreeFactors(p: Problem, units: seq<Lit>, frees: seq<Var>)
    ensures UnitFree(p, units, frees) == RawLits(p, units) * RawVars(p, frees)
  {
  }

  lemma ReadyRange(p: Problem, assumption: seq<Lit>, trail: Asg, vars: seq<Var>)
    requires Ready(p, assumption, trail, vars)
    ensures forall x: Var :: x in vars ==> 1 <= x <= p.nbVar
    ensures Elements(vars) !! trail.Keys && Open(p.clauses, p.nbVar + 1, Elements(vars), trail)
    ensures DistinctVars(assumption) && NoDup(vars)
  {
    assert forall x: Var :: x in vars ==> x in Elements(vars);
  }

  lemma UnitsRange(p: Problem, assumption: seq<Lit>, trail: Asg, vars: seq<Var>, u: seq<Lit>)
    requires UnitsOf(p, assumption, trail, vars, u)
    ensures DistinctVars(u) && forall l :: l in u ==> l.v in vars
    ensures forall l :: l in assumption && l.v in vars ==> l in u
    ensures p.M().n == p.nbVar + 1
  {
    hide Implied;
  }

  lemma SplitRange(f: Formula, vars: seq<Var>, trail: Asg, comps: seq<seq<Var>>, free: seq<Var>)
    requires IsSplit(f, vars, trail, comps, free)
    ensures forall x: Var :: x in free ==> x in vars
    ensures forall i, x: Var :: 0 <= i < |comps| && x in comps[i] ==> x in vars && x !in trail
    ensures forall i :: 0 <= i < |comps| ==> comps[i] != [] && NoDup(comps[i])
  {
    hide FreeIn, Separated;
    forall x: Var | x in free
      ensures x in vars
    {
      assert Unassigned(x, vars, trail);
    }
    forall i, x: Var | 0 <= i < |comps| && x in comps[i]
      ensures x in vars && x !in trail
    {
      assert InSomeComponent(comps, x);
      assert Unassigned(x, vars, trail);
    }
  }

  lemma Rearrange(d: real, lw: real, vw: real, rl: real, rv: real, uf: real, rc: real, c: real)
    requires rl == lw && rv == vw && uf == rl * rv && rc == vw * d && c == lw * rc
    ensures d * uf == c
  {
    assert d * (lw * vw) == lw * (vw * d);
  }

  // ---------- Decisions ----------

  /** The negations of the first `i` decision literals. */
  ghost function Negs(lits: seq<Lit>, i: nat): seq<Lit>
    requires i <= |lits|
  {
    seq(i, k requires 0 <= k < i => lits[k].Neg())
  }

  lemma ReadyPush(p: Problem, assumption: seq<Lit>, trail: Asg, vars: seq<Var>, l: Lit)
    requires Ready(p, assumption, trail, vars) && l.v in vars
    requires forall k :: k in assumption ==> k.v != l.v
    ensures Ready(p, assumption + [l], trail, vars)
  {
    hide Open;
  }

  /** Assumptions on other variables do not matter. */
  lemma AssumptionsElsewhere(p: Problem, a1: seq<Lit>, a2: seq<Lit>, trail: Asg, vars: seq<Var>)
    requires forall l: Lit :: l.v in vars ==> (l in a1 <==> l in a2)
    ensures CountOf(p, vars, a1, trail) == CountOf(p, vars, a2, trail)
    ensures Satisfiable(p.clauses, Elements(vars), Lits(a1), trail) <==> Satisfiable(p.clauses, Elements(vars), Lits(a2), trail)
  {
    var vs := Elements(vars);
    var p1, p2 := Res(p.clauses, vs, Lits(a1)), Res(p.clauses, vs, Lits(a2));
    assert forall b :: Holds(p.clauses, vs, Lits(a1), b) == Holds(p.clauses, vs, Lits(a2), b);
    Congruence(p.M(), vs, p1, trail, p2, trail);
    if Extends(vs, p1, trail) {
      var e :| Witness(vs, p1, trail, e);
      assert Witness(vs, p2, trail, e);
    }
    if Extends(vs, p2, trail) {
      var e :| Witness(vs, p2, trail, e);
      assert Witness(vs, p1, trail, e);
    }
  }

  lemma BranchStep(p: Problem, assumption: seq<Lit>, trail: Asg, vars: seq<Var>, l: Lit)
    requires p.Consistent() && Ready(p, assumption, trail, vars) && l.v in vars && p.IsDecisionVariable(l.v)
    ensures CountOf(p, vars, assumption, trail)
         == CountOf(p, vars, assumption + [l], trail) + CountOf(p, vars, assumption + [l.Neg()], trail)
  {
    assert l.v in p.M().proj by { ReadyRange(p, assumption, trail, vars); }
    assert Lits(assumption + [l]) == Lits(assumption) + {l};
    assert Lits(assumption + [l.Neg()]) == Lits(assumption) + {l.Neg()};
    ReadyRange(p, assumption, trail, vars);
    hide *;
    assert p.M().n == p.nbVar + 1 by { MeasureRange(p); }
    BranchLaw(p.M(), p.clauses, Elements(vars), Lits(assumption), trail, l);
  }

  lemma MeasureRange(p: Problem)
    ensures p.M().n == p.nbVar + 1
  {
  }

  // ---------- Glue for the recursive methods ----------

  lemma UnsatCount(p: Problem, assumption: seq<Lit>, trail: Asg, vars: seq<Var>)
    requires !Satisfiable(p.clauses, Elements(vars), Lits(assumption), trail)
    ensures CountOf(p, vars, assumption, trail) == 0.0
    ensures 0.0 * UnitFree(p, [], []) == 0.0
  {
    UnsatLaw(p.M(), p.clauses, Elements(vars), Lits(assumption), trail);
  }

  lemma UnitsUnassigned(p: Problem, assumption: seq<Lit>, trail: Asg, vars: seq<Var>, u: seq<Lit>)
    requires Ready(p, assumption, trail, vars) && UnitsOf(p, assumption, trail, vars, u)
    ensures DistinctVars(u) && forall l :: l in u ==> l.v !in trail
    ensures trail + AsgOf(u) - LitVars(u) == trail
  {
    hide Implied, Closed;
    forall l | l in u
      ensures l.v !in trail
    {
      assert l.v in Elements(vars);
    }
  }

  lemma NoComponent(p: Problem, trail: Asg)
    ensures CompsCount(p.M(), p.clauses, trail, [], 0) == 1.0
  {
  }

  ghost predicate ComponentReady(p: Problem, assumption: seq<Lit>, trail: Asg, vars: seq<Var>) {
    && Ready(p, assumption, trail, vars)
    && vars != []
    && (forall l :: l in assumption ==> l.v !in vars)
    && Satisfiable(p.clauses, Elements(vars), {}, trail)
  }

  ghost function Bound(assumption: seq<Lit>, vars: seq<Var>): nat {
    if Pending(assumption, vars) then |vars| - 1 else |vars|
  }

  lemma PartSmaller(assumption: seq<Lit>, trail: Asg, vars: seq<Var>, u: seq<Lit>, comp: seq<Var>)
    requires NoDup(vars) && NoDup(comp) && DistinctVars(u)
    requires forall l :: l in assumption && l.v in vars ==> l in u
    requires forall x: Var :: x in comp ==> x in vars && x !in trail + AsgOf(u)
    ensures |comp| <= Bound(assumption, vars)
  {
    assert forall x: Var :: x in comp ==> x in Elements(vars);
    if Pending(assumption, vars) {
      var l :| l in assumption && l.v in vars;
      assert l.v in LitVars(u);
      Smaller(vars, comp, l.v);
    } else {
      Smaller(vars, comp, 0);
    }
  }

  lemma PartsReady(p: Problem, assumption: seq<Lit>, trail: Asg, vars: seq<Var>, u: seq<Lit>,
      comps: seq<seq<Var>>, free: seq<Var>)
    requires Ready(p, assumption, trail, vars) && UnitsOf(p, assumption, trail, vars, u)
    requires Satisfiable(p.clauses, Elements(vars), Lits(assumption), trail)
    requires IsSplit(p.clauses, vars, trail + AsgOf(u), comps, free)
    ensures forall i :: 0 <= i < |comps| ==>
      |comps[i]| <= Bound(assumption, vars) && ComponentReady(p, assumption, trail + AsgOf(u), comps[i])
  {
    hide *;
    UnitsRange(p, assumption, trail, vars, u);
    var t, vs := trail + AsgOf(u), Elements(vars) - LitVars(u);
    ReadyRange(p, assumption, trail, vars);
    AfterUnits(p, assumption, trail, vars, u);
    UnassignedAfter(trail, vars, u);
    SplitRange(p.clauses, vars, t, comps, free);
    AssumptionsOnTrail(p, assumption, trail, vars, u);
    SplitCount(p.M(), p.clauses, vars, t, comps, free, vs);
    forall i | 0 <= i < |comps|
      ensures |comps[i]| <= Bound(assumption, vars) && ComponentReady(p, assumption, t, comps[i])
    {
      forall x: Var | x in comps[i]
        ensures x in vars && x !in t && 1 <= x <= p.nbVar
      {
      }
      PartSmaller(assumption, trail, vars, u, comps[i]);
      MakeReady(p, assumption, t, comps[i]);
    }
  }

  lemma MakeReady(p: Problem, assumption: seq<Lit>, t: Asg, comp: seq<Var>)
    requires DistinctVars(assumption) && NoDup(comp) && comp != []
    requires Open(p.clauses, p.nbVar + 1, Elements(comp), t) && Satisfiable(p.clauses, Elements(comp), {}, t)
    requires forall l :: l in assumption ==> TrueIn(l, t)
    requires forall x: Var :: x in comp ==> 1 <= x <= p.nbVar && x !in t
    ensures ComponentReady(p, assumption, t, comp)
  {
    hide Open, Satisfiable;
  }

  lemma NothingToDecide(p: Problem, assumption: seq<Lit>, trail: Asg, vars: seq<Var>, lits: seq<Lit>)
    requires ComponentReady(p, assumption, trail, vars) && Selection(p, vars, lits) && lits == []
    ensures CountOf(p, vars, [], trail) == 1.0
  {
    assert Lits([]) == {};
    HiddenLaw(p.M(), p.clauses, Elements(vars), {}, trail);
  }

  /** The assumption stack at the start of iteration `i` of a decision node. */
  ghost function Stack(base: seq<Lit>, lits: seq<Lit>, i: nat): seq<Lit>
    requires i <= |lits| + 1
  {
    if i == 0 then base
    else if i == |lits| + 1 then base + Negs(lits, |lits|)
    else base + Negs(lits, i - 1) + [lits[i - 1]]
  }

  /** What the branches from `i` on still have to count. */
  ghost function Remaining(p: Problem, base: seq<Lit>, trail: Asg, vars: seq<Var>, lits: seq<Lit>, i: nat): real
    requires i <= |lits| + 1
  {
    if i == |lits| + 1 then 0.0 else CountOf(p, vars, base + Negs(lits, i), trail)
  }

  /** The assumptions under which branch `i` is counted. */
  ghost function Branch(base: seq<Lit>, lits: seq<Lit>, i: nat): seq<Lit>
    requires i <= |lits|
  {
    base + Negs(lits, i) + if i < |lits| then [lits[i]] else []
  }

  lemma FirstBranch(p: Problem, base: seq<Lit>, trail: Asg, vars: seq<Var>, lits: seq<Lit>)
    requires ComponentReady(p, base, trail, vars)
    ensures Stack(base, lits, 0) == base
    ensures BranchSum(p, []) + Remaining(p, base, trail, vars, lits, 0) == CountOf(p, vars, [], trail)
  {
    AssumptionsElsewhere(p, base + Negs(lits, 0), [], trail, vars);
  }

  lemma StackStep(base: seq<Lit>, lits: seq<Lit>, i: nat)
    requires i <= |lits|
    ensures i != 0 ==>
      |Stack(base, lits, i)| >= 1
      && Stack(base, lits, i)[..|Stack(base, lits, i)| - 1] + [lits[i - 1].Neg()] == base + Negs(lits, i)
    ensures i == 0 ==> Stack(base, lits, i) == base + Negs(lits, i)
    ensures Branch(base, lits, i) == Stack(base, lits, i + 1)
    ensures i < |lits| ==> Branch(base, lits, i) == base + Negs(lits, i) + [lits[i]]
    ensures i == |lits| ==> Branch(base, lits, i) == base + Negs(lits, i)
  {
  }

  lemma NegsFresh(p: Problem, base: seq<Lit>, trail: Asg, vars: seq<Var>, lits: seq<Lit>, i: nat)
    requires ComponentReady(p, base, trail, vars) && Selection(p, vars, lits) && i < |lits|
    ensures forall k :: k in base + Negs(lits, i) ==> k.v != lits[i].v
  {
    hide Ready, Satisfiable;
    assert lits[i] in lits;
  }

  lemma {:induction false} NegsReady(p: Problem, base: seq<Lit>, trail: Asg, vars: seq<Var>, lits: seq<Lit>, i: nat)
    requires ComponentReady(p, base, trail, vars) && Selection(p, vars, lits) && i <= |lits|
    ensures Ready(p, base + Negs(lits, i), trail, vars)
  {
    if i == 0 {
      assert base + Negs(lits, 0) == base;
    } else {
      NegsReady(p, base, trail, vars, lits, i - 1);
      NegsFresh(p, base, trail, vars, lits, i - 1);
      NegsSnoc(base, lits, i - 1);
      SelectedIn(p, vars, lits, i - 1);
      hide *;
      ReadyPush(p, base + Negs(lits, i - 1), trail, vars, lits[i - 1].Neg());
    }
  }

  lemma SelectedIn(p: Problem, vars: seq<Var>, lits: seq<Lit>, i: nat)
    requires Selection(p, vars, lits) && i < |lits|
    ensures lits[i].v in vars && p.IsDecisionVariable(lits[i].v) && lits[i].Neg().v == lits[i].v
  {
    assert lits[i] in lits;
  }

  lemma NegsSnoc(base: seq<Lit>, lits: seq<Lit>, i: nat)
    requires i < |lits|
    ensures base + Negs(lits, i) + [lits[i].Neg()] == base + Negs(lits, i + 1)
  {
  }

  /** Everything one iteration of a decision node needs to push its literals and recurse. */
  lemma BranchReady(p: Problem, base: seq<Lit>, trail: Asg, vars: seq<Var>, lits: seq<Lit>, i: nat)
    requires ComponentReady(p, base, trail, vars) && Selection(p, vars, lits) && i <= |lits| && lits != []
    ensures Ready(p, base + Negs(lits, i), trail, vars) && Ready(p, Branch(base, lits, i), trail, vars)
    ensures Bound(Branch(base, lits, i), vars) < |vars|
    ensures i != 0 ==> |Stack(base, lits, i)| >= 1
    ensures i != 0 ==> forall k :: k in Stack(base, lits, i)[..|Stack(base, lits, i)| - 1] ==> k.v != lits[i - 1].Neg().v
    ensures i < |lits| ==> forall k :: k in base + Negs(lits, i) ==> k.v != lits[i].v
  {
    hide *;
    NegsReady(p, base, trail, vars, lits, i);
    StackStep(base, lits, i);
    BranchPending(p, base, vars, lits, i);
    if i < |lits| {
      NegsFresh(p, base, trail, vars, lits, i);
      SelectedIn(p, vars, lits, i);
      ReadyPush(p, base + Negs(lits, i), trail, vars, lits[i]);
    }
    if i != 0 {
      NegsFresh(p, base, trail, vars, lits, i - 1);
      SelectedIn(p, vars, lits, i - 1);
      StackTop(base, lits, i);
    }
  }

  lemma StackTop(base: seq<Lit>, lits: seq<Lit>, i: nat)
    requires 0 < i <= |lits|
    ensures |Stack(base, lits, i)| >= 1
    ensures Stack(base, lits, i)[..|Stack(base, lits, i)| - 1] == base + Negs(lits, i - 1)
  {
  }

  lemma BranchPending(p: Problem, base: seq<Lit>, vars: seq<Var>, lits: seq<Lit>, i: nat)
    requires Selection(p, vars, lits) && i <= |lits| && lits != []
    ensures Bound(Branch(base, lits, i), vars) < |vars|
  {
    var l := if i < |lits| then lits[i] else lits[0].Neg();
    SelectedIn(p, vars, lits, if i < |lits| then i else 0);
    var a := Branch(base, lits, i);
    assert a[if i < |lits| then |base| + i else |base|] == l;
    assert l in a && l.v in vars;
    assert Pending(a, vars);
  }

  lemma NothingRemains(p: Problem, base: seq<Lit>, trail: Asg, vars: seq<Var>, lits: seq<Lit>, i: nat)
    requires i <= |lits|
    requires !Satisfiable(p.clauses, Elements(vars), Lits(base + Negs(lits, i)), trail)
    ensures Remaining(p, base, trail, vars, lits, i) == 0.0
  {
    UnsatCount(p, base + Negs(lits, i), trail, vars);
  }

  lemma BranchSumStep(p: Problem, b: seq<DataBranch>, e: DataBranch)
    ensures BranchSum(p, b + [e]) == BranchSum(p, b) + e.d * UnitFree(p, e.unitLits, e.freeVars)
  {
    assert (b + [e])[..|b + [e]| - 1] == b;
    hide UnitFree;
  }

  lemma RemainingStep(p: Problem, base: seq<Lit>, trail: Asg, vars: seq<Var>, lits: seq<Lit>, i: nat)
    requires p.Consistent() && ComponentReady(p, base, trail, vars) && Selection(p, vars, lits) && i <= |lits|
    ensures Remaining(p, base, trail, vars, lits, i)
         == CountOf(p, vars, Branch(base, lits, i), trail) + Remaining(p, base, trail, vars, lits, i + 1)
  {
    hide Ready, Selection, ComponentReady, CountOf, Negs, Problem.Consistent;
    if i < |lits| {
      NegsReady(p, base, trail, vars, lits, i);
      SelectedIn(p, vars, lits, i);
      NegsSnoc(base, lits, i);
      BranchStep(p, base + Negs(lits, i), trail, vars, lits[i]);
    } else {
      assert base + Negs(lits, i) + [] == base + Negs(lits, i);
    }
  }

  /** Counting branch `i` moves its share from what remains to the sum so far. */
  lemma BranchCounted(p: Problem, base: seq<Lit>, trail: Asg, vars: seq<Var>, lits: seq<Lit>, i: nat, b: seq<DataBranch>, e: DataBranch)
    requires p.Consistent() && ComponentReady(p, base, trail, vars) && Selection(p, vars, lits) && i <= |lits|
    requires BranchSum(p, b) + Remaining(p, base, trail, vars, lits, i) == CountOf(p, vars, [], trail)
    requires e.d * UnitFree(p, e.unitLits, e.freeVars) == CountOf(p, vars, Branch(base, lits, i), trail)
    ensures BranchSum(p, b + [e]) + Remaining(p, base, trail, vars, lits, i + 1) == CountOf(p, vars, [], trail)
  {
    hide *;
    BranchSumStep(p, b, e);
    RemainingStep(p, base, trail, vars, lits, i);
  }

  lemma RemainingEnd(p: Problem, base: seq<Lit>, trail: Asg, vars: seq<Var>, lits: seq<Lit>)
    ensures Remaining(p, base, trail, vars, lits, |lits| + 1) == 0.0
  {
  }

  lemma ComponentCacheable(p: Problem, base: seq<Lit>, trail: Asg, vars: seq<Var>)
    requires ComponentReady(p, base, trail, vars)
    ensures Asked(p, p.nbVar, trail, vars)
  {
    hide Satisfiable, Closed;
    ReadyRange(p, base, trail, vars);
    PositiveFits(vars, p.nbVar);
  }

  lemma NegVar(l: Lit)
    ensures l.Neg().v == l.v
  {
  }

  // ---------- Whole runs ----------

  /** The assumed literals over variables that are not counted. */
  function Shadow(assumption: seq<Lit>, vars: seq<Var>): seq<Lit> {
    if assumption == [] then []
    else (if assumption[0].v in vars then [] else [assumption[0]]) + Shadow(assumption[1..], vars)
  }

  lemma ShadowNext(assumption: seq<Lit>, i: nat, vars: seq<Var>)
    requires i < |assumption|
    ensures Shadow(assumption[i..], vars)
         == (if assumption[i].v in vars then [] else [assumption[i]]) + Shadow(assumption[i + 1..], vars)
  {
    assert assumption[i..][1..] == assumption[i + 1..] && assumption[i..][0] == assumption[i];
  }

  lemma ShadowEnds(assumption: seq<Lit>, vars: seq<Var>)
    ensures assumption[0..] == assumption && Shadow(assumption[|assumption|..], vars) == []
  {
  }

  lemma {:induction false} ShadowHolds(assumption: seq<Lit>, vars: seq<Var>)
    requires DistinctVars(assumption)
    ensures DistinctVars(Shadow(assumption, vars))
    ensures forall l :: l in Shadow(assumption, vars) <==> l in assumption && l.v !in vars
  {
    if assumption != [] {
      var x, rest := assumption[0], assumption[1..];
      ShadowHolds(rest, vars);
      HeadFresh(assumption);
      assert assumption == [x] + rest;
      assert Shadow(assumption, vars) == (if x.v in vars then [] else [x]) + Shadow(rest, vars);
      hide Shadow;
      assert forall l :: l in Shadow(rest, vars) ==> l.v != x.v;
    }
  }

  /** The counted variables are closed once the other assumptions are made. */
  ghost predicate Countable(p: Problem, assumption: seq<Lit>, vars: seq<Var>) {
    && DistinctVars(assumption) && NoDup(vars) && 0 !in vars
    && DistinctVars(Shadow(assumption, vars))
    && Open(p.clauses, p.nbVar + 1, Elements(vars), AsgOf(Shadow(assumption, vars)))
  }

  lemma CountableReady(p: Problem, assumption: seq<Lit>, vars: seq<Var>)
    requires Countable(p, assumption, vars)
    ensures Ready(p, assumption, AsgOf(Shadow(assumption, vars)), vars)
  {
    ShadowHolds(assumption, vars);
    assert forall l :: l in assumption && l.v !in vars ==> l in Shadow(assumption, vars);
  }

  ghost function AllClauses(f: Formula): Form {
    b => Sat(f, b)
  }

  /** The sum, over the projected models of the whole formula, of the products of their weights. */
  ghost function WeightedModelCount(p: Problem): real {
    SetSum(Weigh(p.nbVar + 1, p.M()), ProjectedModels(p.M(), p.AllVars(), AllClauses(p.clauses), map[]))
  }

  lemma EverythingHolds(p: Problem, vars: seq<Var>, b: Asg)
    requires p.Consistent() && Elements(vars) == p.AllVars()
    ensures Holds(p.clauses, Elements(vars), {}, b) <==> Sat(p.clauses, b)
  {
    forall c | c in p.clauses
      ensures Touches(c, Elements(vars))
    {
      assert c[0] in c;
    }
  }

  lemma WholeReady(p: Problem, vars: seq<Var>)
    requires p.Consistent() && Elements(vars) == p.AllVars() && NoDup(vars)
    ensures Ready(p, [], map[], vars)
  {
    assert forall x: Var :: x in vars <==> x in p.AllVars() by { assert forall x: Var :: x in Elements(vars) <==> x in vars; }
  }

  lemma WholeAgrees(p: Problem, vars: seq<Var>)
    requires p.Consistent() && Elements(vars) == p.AllVars()
    ensures Lits([]) == {}
    ensures Agree(p.AllVars(), Res(p.clauses, p.AllVars(), {}), map[], AllClauses(p.clauses), map[])
  {
    hide Problem.Consistent, Problem.AllVars, Holds;
    forall e: Asg | e.Keys == p.AllVars()
      ensures Res(p.clauses, p.AllVars(), {})(map[] + e) == AllClauses(p.clauses)(map[] + e)
    {
      EverythingHolds(p, vars, map[] + e);
    }
  }

  /** Counting every variable without assumptions counts the models of the formula. */
  lemma WholeCount(p: Problem, vars: seq<Var>)
    requires p.Consistent() && Elements(vars) == p.AllVars() && NoDup(vars)
    ensures Ready(p, [], map[], vars)
    ensures CountOf(p, vars, [], map[]) == WeightedModelCount(p)
  {
    hide *;
    WholeReady(p, vars);
    WholeAgrees(p, vars);
    Congruence(p.M(), p.AllVars(), Res(p.clauses, p.AllVars(), {}), map[], AllClauses(p.clauses), map[]);
    AllVarsBelow(p);
    CountIsModelSum(p.M(), p.AllVars(), AllClauses(p.clauses), map[]);
    CountOfIs(p, vars, [], map[]);
    ModelCountIs(p);
  }

  lemma AllVarsBelow(p: Problem)
    ensures p.M().n == p.nbVar + 1 && forall x: Var :: x in p.AllVars() ==> x < p.M().n
  {
  }

  lemma ModelCountIs(p: Problem)
    ensures WeightedModelCount(p) == SetSum(Weigh(p.M().n, p.M()), ProjectedModels(p.M(), p.AllVars(), AllClauses(p.clauses), map[]))
  {
  }

  /** An unsatisfiable formula has no projected model. */
  lemma NoModel(p: Problem)
    requires forall a: Asg :: !Sat(p.clauses, a)
    ensures WeightedModelCount(p) == 0.0
  {
    assert ProjectedModels(p.M(), p.AllVars(), AllClauses(p.clauses), map[]) == {};
  }

  lemma CountableDistinct(p: Problem, assumption: seq<Lit>, vars: seq<Var>)
    requires Countable(p, assumption, vars)
    ensures DistinctVars(Shadow(assumption, vars))
    ensures AsgOf(Shadow(assumption, vars)).Keys == LitVars(Shadow(assumption, vars))
    ensures Open(p.clauses, p.nbVar + 1, Elements(vars), AsgOf(Shadow(assumption, vars)))
  {
  }

  lemma MapEmpty(a: Asg)
    ensures map[] + a == a
  {
  }

  lemma MapErase(a: Asg)
    ensures a - a.Keys == map[]
  {
  }

  lemma CountSum(p: Problem, vars: seq<Var>, assumption: seq<Lit>, trail: Asg)
    requires Open(p.clauses, p.nbVar + 1, Elements(vars), trail)
    ensures CountOf(p, vars, assumption, trail)
         == SetSum(Weigh(p.nbVar + 1, p.M()), ProjectedModels(p.M(), Elements(vars), Res(p.clauses, Elements(vars), Lits(assumption)), trail))
  {
    hide *;
    OpenBelow(p.clauses, p.nbVar + 1, Elements(vars), trail);
    MeasureRange(p);
    CountOfIs(p, vars, assumption, trail);
    CountIsModelSum(p.M(), Elements(vars), Res(p.clauses, Elements(vars), Lits(assumption)), trail);
  }

  lemma OpenBelow(f: Formula, n: nat, vs: set<Var>, trail: Asg)
    requires Open(f, n, vs, trail)
    ensures forall x: Var :: x in vs ==> x < n
  {
    hide Closed;
  }

  lemma CountOfIs(p: Problem, vars: seq<Var>, assumption: seq<Lit>, trail: Asg)
    ensures CountOf(p, vars, assumption, trail) == Counting.Count(p.M(), Elements(vars), Res(p.clauses, Elements(vars), Lits(assumption)), trail)
  {
    hide Counting.Count, Res, Lits, Elements;
  }

  lemma {:induction false} ComponentProductTo(p: Problem, trail: Asg, comps: seq<seq<Var>>, tab: seq<real>, i: nat)
    requires |tab| == |comps| && i <= |comps|
    requires forall j :: 0 <= j < |comps| ==> tab[j] == CountOf(p, comps[j], [], trail)
    ensures Operation.Product(tab[..i]) * CompsCount(p.M(), p.clauses, trail, comps, i) == CompsCount(p.M(), p.clauses, trail, comps, 0)
  {
    if i != 0 {
      ComponentProductTo(p, trail, comps, tab, i - 1);
      assert tab[..i][..i - 1] == tab[..i - 1];
      assert Lits([]) == {};
      var c := CompsCount(p.M(), p.clauses, trail, comps, i);
      Associate(Operation.Product(tab[..i - 1]), tab[i - 1], c);
    }
  }

  lemma ComponentProduct(p: Problem, trail: Asg, comps: seq<seq<Var>>, tab: seq<real>)
    requires |tab| == |comps|
    requires forall j :: 0 <= j < |comps| ==> tab[j] == CountOf(p, comps[j], [], trail)
    ensures Operation.Product(tab) == CompsCount(p.M(), p.clauses, trail, comps, 0)
  {
    ComponentProductTo(p, trail, comps, tab, |comps|);
    assert tab[..|comps|] == tab;
  }

  /** The incremental solver: a stack of assumptions over a formula whose open part the values describe. */
  class WrapperSolver {
    const problem: Problem
    const oracles: Oracles
    var assumption: seq<Lit>
    var clock: nat

    constructor (problem: Problem, oracles: Oracles)
      ensures this.problem == problem && this.oracles == oracles && assumption == []
    {
      this.problem, this.oracles := problem, oracles;
      assumption, clock := [], 0;
    }

    method Solve(value: Asg, setOfVar: seq<Var>) returns (sat: bool)
      requires OraclesOk(problem, oracles) && Ready(problem, assumption, value, setOfVar)
      modifies this`clock
      ensures sat <==> Satisfiable(problem.clauses, Elements(setOfVar), Lits(assumption), value)
    {
      clock := clock + 1;
      sat := oracles.solve(clock, assumption, value, setOfVar);
    }

    method WhichAreUnits(value: Asg, setOfVar: seq<Var>) returns (units: seq<Lit>)
      requires OraclesOk(problem, oracles) && Ready(problem, assumption, value, setOfVar)
      requires Satisfiable(problem.clauses, Elements(setOfVar), Lits(assumption), value)
      modifies this`clock
      ensures UnitsOf(problem, assumption, value, setOfVar, units)
    {
      clock := clock + 1;
      units := oracles.units(clock, assumption, value, setOfVar);
    }

    method PushAssumption(l: Lit)
      requires forall k :: k in assumption ==> k.v != l.v
      modifies this`assumption
      ensures assumption == old(assumption) + [l]
    {
      assumption := assumption + [l];
    }

    method PopAssumption(count: nat)
      requires count <= |assumption|
      modifies this`assumption
      ensures assumption == old(assumption)[..|old(assumption)| - count]
    {
      assumption := assumption[..|assumption| - count];
    }

    method WarmStart(vars: seq<Var>) returns (ok: bool)
      requires OraclesOk(problem, oracles)
      modifies this`clock
      ensures !ok ==> forall a: Asg :: !Sat(problem.clauses, a)
    {
      clock := clock + 1;
      ok := oracles.warm(clock, vars);
    }
  }
}
