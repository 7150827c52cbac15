/**
  The best score of a residual formula: how unit literals, free variables, components and
  branching on a block variable change it.
*/
module MaxResidual {
  import opened FiniteSets
  import opened Cnf
  import opened Counting
  import opened MaxCounting
  import opened Residual
  import opened Components

  /** `v`, a valuation of the whole block, attains the best score `r` on its part over `vs`. */
  ghost predicate BestAt(m: Measure, block: set<Var>, vs: set<Var>, phi: Form, a: Asg, r: real, v: Asg) {
    block <= v.Keys && Best(m, block, vs, phi, a, r, Restrict(v, vs * block))
  }

  lemma BestSame(m: Measure, block: set<Var>, vs: set<Var>, phi: Form, a: Asg, r: real, v: Asg, w: Asg)
    requires BestAt(m, block, vs, phi, a, r, v) && block <= w.Keys
    requires forall x: Var :: x in vs * block ==> w[x] == v[x]
    ensures BestAt(m, block, vs, phi, a, r, w)
  {
    hide Best;
    assert Restrict(w, vs * block) == Restrict(v, vs * block);
  }

  // ---------- Unit literals ----------

  function FixLits(m: Measure, block: set<Var>, lits: seq<Lit>): real {
    if lits == [] then 1.0 else FixWeight(m, block, lits[0]) * FixLits(m, block, lits[1..])
  }

  ghost predicate Follows(block: set<Var>, lits: seq<Lit>, v: Asg) {
    forall l :: l in lits && l.v in block ==> TrueIn(l, v)
  }

  lemma BestFixUnit(m: Measure, block: set<Var>, vs: set<Var>, phi: Form, a: Asg, l: Lit, r: real, s: real, v: Asg)
    requires NonNegative(m) && l.v in vs && l.v < m.n && Forces(vs, phi, a, l) && s == FixWeight(m, block, l) * r
    requires BestAt(m, block, vs - {l.v}, phi, a[l.v := !l.sign], r, v) && Follows(block, [l], v)
    ensures BestAt(m, block, vs, phi, a, s, v)
  {
    hide *;
    var x, t := l.v, !l.sign;
    PointPart(block, vs, l, v);
    BestAtParts(m, block, vs - {x}, phi, a[x := t], r, v);
    ForcedFactors(vs, phi, a, l);
    BestPoint(m, block, x, t);
    BestProduct(m, block, {x}, vs - {x}, phi, a, Point(x, t), map[], phi, a[x := t],
                FixWeight(m, block, l), PointValue(block, x, t), r, Restrict(v, (vs - {x}) * block), s);
    BestAtWhole(m, block, vs, phi, a, s, v);
  }

  lemma PointPart(block: set<Var>, vs: set<Var>, l: Lit, v: Asg)
    requires l.v in vs && Follows(block, [l], v)
    ensures PointValue(block, l.v, !l.sign) + Restrict(v, (vs - {l.v}) * block) == Restrict(v, vs * block)
    ensures {l.v} + (vs - {l.v}) == vs && Lit(l.v, l.sign) == l
    ensures {l.v} !! vs - {l.v}
  {
    assert l in [l];
  }

  lemma BestAtParts(m: Measure, block: set<Var>, vs: set<Var>, phi: Form, a: Asg, r: real, v: Asg)
    requires BestAt(m, block, vs, phi, a, r, v)
    ensures Best(m, block, vs, phi, a, r, Restrict(v, vs * block)) && block <= v.Keys
  {
    hide Best, Restrict;
  }

  lemma BestAtWhole(m: Measure, block: set<Var>, vs: set<Var>, phi: Form, a: Asg, r: real, v: Asg)
    requires Best(m, block, vs, phi, a, r, Restrict(v, vs * block)) && block <= v.Keys
    ensures BestAt(m, block, vs, phi, a, r, v)
  {
    hide Best, Restrict;
  }

  lemma {:induction false} BestFixUnits(m: Measure, block: set<Var>, vs: set<Var>, phi: Form, a: Asg, lits: seq<Lit>, r: real, s: real, v: Asg)
    requires NonNegative(m) && DistinctVars(lits) && s == FixLits(m, block, lits) * r
    requires forall l :: l in lits ==> l.v in vs && l.v < m.n && Forces(vs, phi, a, l)
    requires BestAt(m, block, vs - LitVars(lits), phi, a + AsgOf(lits), r, v) && Follows(block, lits, v)
    ensures BestAt(m, block, vs, phi, a, s, v)
  {
    hide *;
    if lits == [] {
      NoUnits(m, block, vs, a, r);
    } else {
      var l, rest := lits[0], lits[1..];
      var vs', a' := vs - {l.v}, a[l.v := !l.sign];
      UnfoldUnits(vs, a, lits);
      RestForced(m, vs, phi, a, lits);
      FollowsHead(block, lits, v);
      var s' := FixLits(m, block, rest) * r;
      BestFixUnits(m, block, vs', phi, a', rest, r, s', v);
      assert l in lits;
      FixLitsCons(m, block, lits, r, s', s);
      BestFixUnit(m, block, vs, phi, a, l, s', s, v);
    }
  }

  lemma NoUnits(m: Measure, block: set<Var>, vs: set<Var>, a: Asg, r: real)
    ensures vs - LitVars([]) == vs && a + AsgOf([]) == a && FixLits(m, block, []) * r == r
  {
  }

  lemma FollowsHead(block: set<Var>, lits: seq<Lit>, v: Asg)
    requires Follows(block, lits, v) && lits != []
    ensures Follows(block, [lits[0]], v) && Follows(block, lits[1..], v)
  {
  }

  lemma FixLitsCons(m: Measure, block: set<Var>, lits: seq<Lit>, r: real, s': real, s: real)
    requires lits != [] && s' == FixLits(m, block, lits[1..]) * r && s == FixLits(m, block, lits) * r
    ensures s == FixWeight(m, block, lits[0]) * s'
  {
    hide FixWeight;
    JoinFirst(FixWeight(m, block, lits[0]), FixLits(m, block, lits[1..]), r, s', FixLits(m, block, lits));
  }

  lemma AgreeFlip(vs: set<Var>, phi: Form, a: Asg, psi: Form, b: Asg)
    requires Agree(vs, phi, a, psi, b)
    ensures Agree(vs, psi, b, phi, a)
  {
  }

  lemma BestAtCongruence(m: Measure, block: set<Var>, vs: set<Var>, phi: Form, a: Asg, psi: Form, b: Asg, r: real, v: Asg)
    requires Agree(vs, phi, a, psi, b) && BestAt(m, block, vs, phi, a, r, v)
    ensures BestAt(m, block, vs, psi, b, r, v)
  {
    hide Agree, Best, Restrict;
    BestCongruence(m, block, vs, phi, a, psi, b, r, Restrict(v, vs * block));
  }

  /** Moving the unit literals to the trail multiplies the best score by their weight. */
  lemma BestUnits(m: Measure, block: set<Var>, f: Formula, vs: set<Var>, assumed: set<Lit>, trail: Asg, lits: seq<Lit>, r: real, s: real, v: Asg)
    requires s == FixLits(m, block, lits) * r
    requires NonNegative(m) && Open(f, m.n, vs, trail) && Satisfiable(f, vs, assumed, trail) && DistinctVars(lits)
    requires forall l :: l in lits ==> l.v in vs && Implied(f, vs, assumed, trail, l)
    requires forall l :: l in assumed && l.v in vs ==> l in lits
    requires BestAt(m, block, vs - LitVars(lits), Res(f, vs - LitVars(lits), {}), trail + AsgOf(lits), r, v) && Follows(block, lits, v)
    ensures BestAt(m, block, vs, Res(f, vs, assumed), trail, s, v)
  {
    var vs', a' := vs - LitVars(lits), trail + AsgOf(lits);
    assert forall l :: l in lits ==> l.v in vs && l.v < m.n && Forces(vs, Res(f, vs, assumed), trail, l) by {
      hide Closed, Satisfiable, Forces, BestAt, Res;
    }
    hide *;
    UnitsLeaveResidual(f, m.n, vs, assumed, trail, lits);
    AgreeFlip(vs', Res(f, vs, assumed), a', Res(f, vs', {}), a');
    BestAtCongruence(m, block, vs', Res(f, vs', {}), a', Res(f, vs, assumed), a', r, v);
    BestFixUnits(m, block, vs, Res(f, vs, assumed), trail, lits, r, s, v);
  }

  // ---------- Independent parts ----------

  lemma BestAtProduct(m: Measure, block: set<Var>, v1: set<Var>, v2: set<Var>, phi: Form, a: Asg, p1: Form, a1: Asg, p2: Form, a2: Asg,
      r1: real, r2: real, r: real, v: Asg)
    requires r == r1 * r2
    requires NonNegative(m) && Factors(v1, v2, phi, a, p1, a1, p2, a2) && v1 !! v2
    requires BestAt(m, block, v1, p1, a1, r1, v) && BestAt(m, block, v2, p2, a2, r2, v)
    ensures BestAt(m, block, v1 + v2, phi, a, r, v)
  {
    assert Restrict(v, v1 * block) + Restrict(v, v2 * block) == Restrict(v, (v1 + v2) * block);
    hide Best, NonNegative, Factors, Restrict;
    BestProduct(m, block, v1, v2, phi, a, p1, a1, p2, a2, r1, Restrict(v, v1 * block), r2, Restrict(v, v2 * block), r);
  }

  /** Separated parts are maximised independently. */
  lemma BestSplit(m: Measure, block: set<Var>, f: Formula, v1: set<Var>, v2: set<Var>, trail: Asg, r1: real, r2: real, r: real, v: Asg)
    requires r == r1 * r2
    requires NonNegative(m) && Open(f, m.n, v1 + v2, trail) && v1 !! v2 && Separated(f, v1, v2, trail)
    requires BestAt(m, block, v1, Res(f, v1, {}), trail, r1, v) && BestAt(m, block, v2, Res(f, v2, {}), trail, r2, v)
    ensures BestAt(m, block, v1 + v2, Res(f, v1 + v2, {}), trail, r, v)
  {
    hide *;
    SplitFactors(f, m.n, v1, v2, trail);
    BestAtProduct(m, block, v1, v2, Res(f, v1 + v2, {}), trail, Res(f, v1, {}), trail, Res(f, v2, {}), trail, r1, r2, r, v);
  }

  function FreeVars(m: Measure, block: set<Var>, free: seq<Var>): real {
    if free == [] then 1.0 else FreeWeight(m, block, free[0]) * FreeVars(m, block, free[1..])
  }

  /** Free block variables take the value of their heavier literal. */
  ghost predicate Heaviest(m: Measure, block: set<Var>, free: seq<Var>, v: Asg) {
    forall x: Var :: x in free && x in block ==> x in v && v[x] == !Heavier(m, x).sign
  }

  lemma AnythingFactors(x: Var, vs: set<Var>, trail: Asg)
    ensures Factors({x}, vs, Anything(), trail, Anything(), map[], Anything(), trail)
  {
  }

  lemma BestFree(m: Measure, block: set<Var>, x: Var, v: Asg)
    requires x < m.n && block <= v.Keys && Heaviest(m, block, [x], v)
    ensures BestAt(m, block, {x}, Anything(), map[], FreeWeight(m, block, x), v)
  {
    assert x in [x];
    assert Restrict(v, {x} * block) == PointValue(block, x, !Heavier(m, x).sign);
    hide Restrict, PointValue, Heavier, FreeWeight;
    BestAnything(m, block, x);
    BestCongruence(m, block, {x}, e => true, map[], Anything(), map[], FreeWeight(m, block, x), PointValue(block, x, !Heavier(m, x).sign));
  }

  lemma {:induction false} BestFreeCount(m: Measure, block: set<Var>, free: seq<Var>, trail: Asg, v: Asg)
    requires NonNegative(m) && NoDup(free) && block <= v.Keys && Heaviest(m, block, free, v)
    requires forall x: Var :: x in free ==> x < m.n
    ensures BestAt(m, block, Elements(free), Anything(), trail, FreeVars(m, block, free), v)
  {
    hide *;
    if free == [] {
      NothingFree(m, block, trail, v);
    } else {
      FreeHead(m, block, free, v);
      BestFreeCount(m, block, free[1..], trail, v);
      BestFree(m, block, free[0], v);
      AnythingFactors(free[0], Elements(free[1..]), trail);
      BestAtProduct(m, block, {free[0]}, Elements(free[1..]), Anything(), trail, Anything(), map[], Anything(), trail,
                    FreeWeight(m, block, free[0]), FreeVars(m, block, free[1..]), FreeVars(m, block, free), v);
    }
  }

  lemma FreeHead(m: Measure, block: set<Var>, free: seq<Var>, v: Asg)
    requires NoDup(free) && free != [] && Heaviest(m, block, free, v)
    requires forall x: Var :: x in free ==> x < m.n
    ensures NoDup(free[1..]) && free[0] < m.n && forall x: Var :: x in free[1..] ==> x < m.n
    ensures Heaviest(m, block, [free[0]], v) && Heaviest(m, block, free[1..], v)
    ensures Elements(free) == {free[0]} + Elements(free[1..]) && {free[0]} !! Elements(free[1..])
    ensures FreeVars(m, block, free) == FreeWeight(m, block, free[0]) * FreeVars(m, block, free[1..])
  {
    hide *;
    FreeHeadVars(free);
    HeaviestHead(m, block, free, v);
    assert free[0] in free && forall x: Var :: x in free[1..] ==> x in free;
  }

  lemma FreeHeadVars(free: seq<Var>)
    requires NoDup(free) && free != []
    ensures NoDup(free[1..]) && Elements(free) == {free[0]} + Elements(free[1..]) && {free[0]} !! Elements(free[1..])
  {
    assert free == [free[0]] + free[1..];
  }

  lemma HeaviestHead(m: Measure, block: set<Var>, free: seq<Var>, v: Asg)
    requires free != [] && Heaviest(m, block, free, v)
    ensures Heaviest(m, block, [free[0]], v) && Heaviest(m, block, free[1..], v)
    ensures FreeVars(m, block, free) == FreeWeight(m, block, free[0]) * FreeVars(m, block, free[1..])
  {
    hide Heavier, FreeWeight;
  }

  lemma NothingFree(m: Measure, block: set<Var>, trail: Asg, v: Asg)
    requires block <= v.Keys
    ensures BestAt(m, block, Elements([]), Anything(), trail, FreeVars(m, block, []), v)
  {
    assert Elements<Var>([]) == {} && Restrict(v, {} * block) == map[];
    hide Best, Restrict;
    BestOffBlock(m, block, {}, Anything(), trail);
    CountNoProj(m, {}, Anything(), trail);
    ExtendsNone(Anything(), trail);
  }

  lemma BestFreeVars(m: Measure, block: set<Var>, f: Formula, free: seq<Var>, trail: Asg, v: Asg)
    requires NonNegative(m) && NoDup(free) && block <= v.Keys && Heaviest(m, block, free, v)
    requires forall x: Var :: x in free ==> x < m.n && x !in trail && FreeIn(f, trail, x)
    ensures BestAt(m, block, Elements(free), Res(f, Elements(free), {}), trail, FreeVars(m, block, free), v)
  {
    hide *;
    BestFreeCount(m, block, free, trail, v);
    FreeAgrees(f, free, trail);
    AgreeFlip(Elements(free), Res(f, Elements(free), {}), trail, Anything(), trail);
    BestAtCongruence(m, block, Elements(free), Anything(), trail, Res(f, Elements(free), {}), trail, FreeVars(m, block, free), v);
  }

  // ---------- Components ----------

  /** The product of the results from index `i` on. */
  ghost function ProductFrom(rs: seq<real>, i: nat): real
    requires i <= |rs|
    decreases |rs| - i
  {
    if i == |rs| then 1.0 else rs[i] * ProductFrom(rs, i + 1)
  }

  ghost predicate PartsBest(m: Measure, block: set<Var>, f: Formula, trail: Asg, comps: seq<seq<Var>>, rs: seq<real>, v: Asg) {
    |rs| == |comps| && forall j :: 0 <= j < |comps| ==> BestAt(m, block, Elements(comps[j]), Res(f, Elements(comps[j]), {}), trail, rs[j], v)
  }

  lemma {:induction false} BestComponents(m: Measure, block: set<Var>, f: Formula, vars: seq<Var>, trail: Asg, comps: seq<seq<Var>>, free: seq<Var>,
      rs: seq<real>, v: Asg, i: nat)
    requires NonNegative(m) && IsSplit(f, vars, trail, comps, free) && i <= |comps| && Open(f, m.n, UnionFrom(comps, i), trail)
    requires block <= v.Keys && PartsBest(m, block, f, trail, comps, rs, v)
    ensures |rs| == |comps| && BestAt(m, block, UnionFrom(comps, i), Res(f, UnionFrom(comps, i), {}), trail, ProductFrom(rs, i), v)
    decreases |comps| - i
  {
    hide *;
    UnfoldParts(m, block, f, trail, comps, rs, v, i);
    if i == |comps| {
      BestNothing(m, block, f, trail, v);
    } else {
      UnionSeparated(f, vars, trail, comps, free, i);
      SplitOpen(f, m.n, Elements(comps[i]), UnionFrom(comps, i + 1), trail);
      BestComponents(m, block, f, vars, trail, comps, free, rs, v, i + 1);
      BestSplit(m, block, f, Elements(comps[i]), UnionFrom(comps, i + 1), trail, rs[i], ProductFrom(rs, i + 1), ProductFrom(rs, i), v);
    }
  }

  lemma BestNothing(m: Measure, block: set<Var>, f: Formula, trail: Asg, v: Asg)
    requires block <= v.Keys
    ensures BestAt(m, block, {}, Res(f, {}, {}), trail, 1.0, v)
  {
    var none: seq<Var> := [];
    assert Elements(none) == {} && FreeVars(m, block, none) == 1.0;
    hide BestAt;
    NothingFree(m, block, trail, v);
    FreeAgrees(f, none, trail);
    AgreeFlip({}, Res(f, {}, {}), trail, Anything(), trail);
    BestAtCongruence(m, block, {}, Anything(), trail, Res(f, {}, {}), trail, 1.0, v);
  }

  lemma UnfoldParts(m: Measure, block: set<Var>, f: Formula, trail: Asg, comps: seq<seq<Var>>, rs: seq<real>, v: Asg, i: nat)
    requires PartsBest(m, block, f, trail, comps, rs, v) && i <= |comps|
    ensures |rs| == |comps|
    ensures i == |comps| ==> UnionFrom(comps, i) == {} && ProductFrom(rs, i) == 1.0
    ensures i < |comps| ==>
      && UnionFrom(comps, i) == Elements(comps[i]) + UnionFrom(comps, i + 1)
      && ProductFrom(rs, i) == rs[i] * ProductFrom(rs, i + 1)
      && BestAt(m, block, Elements(comps[i]), Res(f, Elements(comps[i]), {}), trail, rs[i], v)
  {
    hide BestAt;
  }

  /** The whole open part: free variables and components together. */
  lemma BestParts(m: Measure, block: set<Var>, f: Formula, vars: seq<Var>, trail: Asg, comps: seq<seq<Var>>, free: seq<Var>, vs: set<Var>,
      rs: seq<real>, r: real, v: Asg)
    requires |rs| == |comps| && r == FreeVars(m, block, free) * ProductFrom(rs, 0)
    requires NonNegative(m) && IsSplit(f, vars, trail, comps, free) && Open(f, m.n, vs, trail)
    requires forall x :: x in vs <==> Unassigned(x, vars, trail)
    requires block <= v.Keys && PartsBest(m, block, f, trail, comps, rs, v) && Heaviest(m, block, free, v)
    ensures BestAt(m, block, vs, Res(f, vs, {}), trail, r, v)
  {
    hide *;
    FreePart(f, m.n, vars, trail, comps, free, vs);
    FreeSeparated(f, trail, free, UnionFrom(comps, 0));
    SplitOpen(f, m.n, Elements(free), UnionFrom(comps, 0), trail);
    BestFreeVars(m, block, f, free, trail, v);
    BestComponents(m, block, f, vars, trail, comps, free, rs, v, 0);
    BestSplit(m, block, f, Elements(free), UnionFrom(comps, 0), trail, FreeVars(m, block, free), ProductFrom(rs, 0), r, v);
  }
}
