/**
  The residual of a CNF formula under a trail, restricted to a set of variables, and how
  its weighted count reacts to the steps of a DPLL search: unit literals, free variables,
  splitting into components and branching on a literal.
*/
module Residual {
  import opened FiniteSets
  import opened Cnf
  import opened Counting

  ghost predicate Touches(c: Clause, vs: set<Var>) {
    exists l :: l in c && l.v in vs
  }

  /** The clauses that mention a variable of `vs`, together with the assumed literals over `vs`. */
  ghost predicate Holds(f: Formula, vs: set<Var>, assumed: set<Lit>, b: Asg) {
    && (forall c :: c in f && Touches(c, vs) ==> SatClause(c, b))
    && (forall l :: l in assumed && l.v in vs ==> TrueIn(l, b))
  }

  ghost function Res(f: Formula, vs: set<Var>, assumed: set<Lit>): Form {
    b => Holds(f, vs, assumed, b)
  }

  /** Every clause that mentions `vs` and is not yet satisfied has its undefined variables in `vs`. */
  ghost predicate Closed(f: Formula, vs: set<Var>, trail: Asg) {
    forall c :: c in f && Touches(c, vs) && !SatClause(c, trail) ==>
      forall l :: l in c ==> l.v in vs || l.v in trail
  }

  /** The search state at which a residual problem is considered. */
  ghost predicate Open(f: Formula, n: nat, vs: set<Var>, trail: Asg) {
    && vs !! trail.Keys
    && (forall x :: x in vs ==> x < n)
    && Closed(f, vs, trail)
  }

  ghost predicate Satisfiable(f: Formula, vs: set<Var>, assumed: set<Lit>, trail: Asg) {
    Extends(vs, Res(f, vs, assumed), trail)
  }

  /** The number every step of the counter is about. */
  ghost function ResCount(m: Measure, f: Formula, vs: set<Var>, assumed: set<Lit>, trail: Asg): real {
    Count(m, vs, Res(f, vs, assumed), trail)
  }

  lemma SatClauseGrows(c: Clause, a: Asg, e: Asg)
    requires SatClause(c, a) && a.Keys !! e.Keys
    ensures SatClause(c, a + e)
  {
    var i :| 0 <= i < |c| && TrueIn(c[i], a);
    assert TrueIn(c[i], a + e);
  }

  lemma SatClauseWithin(c: Clause, a: Asg, b: Asg)
    requires SatClause(c, a)
    requires forall l :: l in c && l.v in a ==> l.v in b && b[l.v] == a[l.v]
    ensures SatClause(c, b)
  {
    var i :| 0 <= i < |c| && TrueIn(c[i], a);
    assert c[i] in c;
    assert TrueIn(c[i], b);
  }

  // ---------- Unit literals ----------

  ghost predicate Implied(f: Formula, vs: set<Var>, assumed: set<Lit>, trail: Asg, l: Lit) {
    Forces(vs, Res(f, vs, assumed), trail, l)
  }

  /** The weight of a list of unit literals: hidden ones weigh nothing. */
  function LitsWeight(m: Measure, lits: seq<Lit>): real {
    if lits == [] then 1.0 else LitWeight(m, lits[0]) * LitsWeight(m, lits[1..])
  }

  function VarsWeight(m: Measure, vs: seq<Var>): real {
    if vs == [] then 1.0 else VarWeight(m, vs[0]) * VarsWeight(m, vs[1..])
  }

  lemma {:induction false} FixUnits(m: Measure, vs: set<Var>, phi: Form, a: Asg, lits: seq<Lit>)
    requires DistinctVars(lits)
    requires forall l :: l in lits ==> l.v in vs && l.v < m.n && Forces(vs, phi, a, l)
    ensures Count(m, vs, phi, a) == LitsWeight(m, lits) * Count(m, vs - LitVars(lits), phi, a + AsgOf(lits))
    decreases |lits|, 1
  {
    if lits == [] {
      assert vs - LitVars(lits) == vs;
      assert a + AsgOf(lits) == a;
    } else {
      FixFirst(m, vs, phi, a, lits);
    }
  }

  lemma {:induction false} FixFirst(m: Measure, vs: set<Var>, phi: Form, a: Asg, lits: seq<Lit>)
    requires DistinctVars(lits) && lits != []
    requires forall l :: l in lits ==> l.v in vs && l.v < m.n && Forces(vs, phi, a, l)
    ensures Count(m, vs, phi, a) == LitsWeight(m, lits) * Count(m, vs - LitVars(lits), phi, a + AsgOf(lits))
    decreases |lits|, 0
  {
    hide *;
    var l, rest := lits[0], lits[1..];
    var vs', a' := vs - {l.v}, a[l.v := !l.sign];
    UnfoldUnits(vs, a, lits);
    RestForced(m, vs, phi, a, lits);
    FixUnits(m, vs', phi, a', rest);
    UnfoldWeight(m, lits);
    assert l in lits;
    FixUnit(m, vs, phi, a, l);
    Chain(LitWeight(m, l), LitsWeight(m, rest), Count(m, vs, phi, a), Count(m, vs', phi, a'),
          Count(m, vs - LitVars(lits), phi, a + AsgOf(lits)), LitsWeight(m, lits));
  }

  lemma RestForced(m: Measure, vs: set<Var>, phi: Form, a: Asg, lits: seq<Lit>)
    requires DistinctVars(lits) && lits != []
    requires forall l :: l in lits ==> l.v in vs && l.v < m.n && Forces(vs, phi, a, l)
    ensures forall r :: r in lits[1..] ==>
              r.v in vs - {lits[0].v} && r.v < m.n && Forces(vs - {lits[0].v}, phi, a[lits[0].v := !lits[0].sign], r)
  {
    HeadFresh(lits);
    forall r | r in lits[1..]
      ensures r.v in vs - {lits[0].v} && r.v < m.n && Forces(vs - {lits[0].v}, phi, a[lits[0].v := !lits[0].sign], r)
    {
      assert r in lits;
      assert r.v in LitVars(lits[1..]);
      ForcesAfter(vs, phi, a, lits[0], r);
    }
  }

  lemma HeadFresh(lits: seq<Lit>)
    requires DistinctVars(lits) && lits != []
    ensures DistinctVars(lits[1..]) && lits[0].v !in LitVars(lits[1..])
    ensures LitVars(lits) == {lits[0].v} + LitVars(lits[1..])
  {
    assert lits == [lits[0]] + lits[1..];
  }

  lemma UnfoldWeight(m: Measure, lits: seq<Lit>)
    requires lits != []
    ensures LitsWeight(m, lits) == LitWeight(m, lits[0]) * LitsWeight(m, lits[1..])
  {
    hide LitWeight;
  }

  lemma UnfoldUnits(vs: set<Var>, a: Asg, lits: seq<Lit>)
    requires DistinctVars(lits) && lits != []
    ensures DistinctVars(lits[1..]) && lits[0].v !in LitVars(lits[1..])
    ensures vs - {lits[0].v} - LitVars(lits[1..]) == vs - LitVars(lits)
    ensures a[lits[0].v := !lits[0].sign] + AsgOf(lits[1..]) == a + AsgOf(lits)
  {
    hide *;
    HeadFresh(lits);
    UnfoldAsg(lits);
  }

  lemma UnfoldAsg(lits: seq<Lit>)
    requires lits != [] && DistinctVars(lits) && DistinctVars(lits[1..])
    ensures AsgOf(lits) == AsgOf(lits[1..])[lits[0].v := !lits[0].sign]
    ensures AsgOf(lits[1..]).Keys == LitVars(lits[1..])
  {
  }

  lemma Chain(w: real, u: real, x: real, y: real, z: real, wu: real)
    requires x == w * y && y == u * z && wu == w * u
    ensures x == wu * z
  {
    assert w * (u * z) == (w * u) * z;
  }

  lemma ForcesAfter(vs: set<Var>, phi: Form, a: Asg, l: Lit, r: Lit)
    requires l.v in vs && r.v != l.v && Forces(vs, phi, a, r)
    ensures Forces(vs - {l.v}, phi, a[l.v := !l.sign], r)
  {
    var x, t := l.v, !l.sign;
    forall e: Asg | e.Keys == vs - {x} && phi(a[x := t] + e)
      ensures TrueIn(r, e)
    {
      assert a[x := t] + e == a + e[x := t];
      assert TrueIn(r, e[x := t]);
    }
  }

  /** Clauses touched by unit variables only are satisfied once the units are on the trail. */
  lemma UnitsSatisfy(f: Formula, n: nat, vs: set<Var>, assumed: set<Lit>, trail: Asg, lits: seq<Lit>, c: Clause)
    requires Open(f, n, vs, trail) && Satisfiable(f, vs, assumed, trail) && DistinctVars(lits)
    requires forall l :: l in lits ==> l.v in vs && Implied(f, vs, assumed, trail, l)
    requires c in f && Touches(c, vs) && !Touches(c, vs - LitVars(lits))
    ensures SatClause(c, trail + AsgOf(lits))
  {
    var u := AsgOf(lits);
    if SatClause(c, trail) {
      SatClauseGrows(c, trail, u);
    } else {
      var e :| Witness(vs, Res(f, vs, assumed), trail, e);
      assert SatClause(c, trail + e);
      forall l | l in c && l.v in trail + e
        ensures l.v in trail + u && (trail + u)[l.v] == (trail + e)[l.v]
      {
        if l.v in vs {
          assert l.v in LitVars(lits);
          var r :| r in lits && r.v == l.v;
          assert TrueIn(r, e) && TrueIn(r, u);
        }
      }
      SatClauseWithin(c, trail + e, trail + u);
    }
  }

  lemma UnitsHold(f: Formula, n: nat, vs: set<Var>, assumed: set<Lit>, trail: Asg, lits: seq<Lit>, e: Asg)
    requires Open(f, n, vs, trail) && Satisfiable(f, vs, assumed, trail) && DistinctVars(lits)
    requires forall l :: l in lits ==> l.v in vs && Implied(f, vs, assumed, trail, l)
    requires forall l :: l in assumed && l.v in vs ==> l in lits
    requires e.Keys == vs - LitVars(lits)
    ensures var b := trail + AsgOf(lits) + e;
            Holds(f, vs, assumed, b) <==> Holds(f, vs - LitVars(lits), {}, b)
  {
    hide Satisfiable, Implied, Closed, DistinctVars, SatClause;
    var vs', a' := vs - LitVars(lits), trail + AsgOf(lits);
    forall c | c in f && Touches(c, vs) && !Touches(c, vs')
      ensures SatClause(c, a' + e)
    {
      UnitsSatisfy(f, n, vs, assumed, trail, lits, c);
      SatClauseGrows(c, a', e);
    }
    forall l | l in assumed && l.v in vs
      ensures TrueIn(l, a' + e)
    {
      assert TrueIn(l, AsgOf(lits));
      assert l.v in LitVars(lits);
    }
    assert forall c :: Touches(c, vs') ==> Touches(c, vs);
  }

  lemma UnitsLeaveResidual(f: Formula, n: nat, vs: set<Var>, assumed: set<Lit>, trail: Asg, lits: seq<Lit>)
    requires Open(f, n, vs, trail) && Satisfiable(f, vs, assumed, trail) && DistinctVars(lits)
    requires forall l :: l in lits ==> l.v in vs && Implied(f, vs, assumed, trail, l)
    requires forall l :: l in assumed && l.v in vs ==> l in lits
    ensures var vs', a' := vs - LitVars(lits), trail + AsgOf(lits);
            Agree(vs', Res(f, vs, assumed), a', Res(f, vs', {}), a')
  {
    hide Open, Satisfiable, Implied, DistinctVars, Holds, AsgOf;
    var vs', a' := vs - LitVars(lits), trail + AsgOf(lits);
    forall e: Asg | e.Keys == vs'
      ensures Res(f, vs, assumed)(a' + e) == Res(f, vs', {})(a' + e)
    {
      UnitsHold(f, n, vs, assumed, trail, lits, e);
    }
  }

  lemma ModelSplits(vs: set<Var>, trail: Asg, lits: seq<Lit>, e: Asg) returns (e': Asg)
    requires DistinctVars(lits) && e.Keys == vs
    requires forall l :: l in lits ==> l.v in vs && TrueIn(l, e)
    ensures e'.Keys == vs - LitVars(lits)
    ensures trail + e == trail + AsgOf(lits) + e'
  {
    e' := map x | x in vs - LitVars(lits) :: e[x];
    UnitsAgree(vs, lits, e);
    Merge(trail, AsgOf(lits), e', e);
  }

  lemma UnitsAgree(vs: set<Var>, lits: seq<Lit>, e: Asg)
    requires DistinctVars(lits) && e.Keys == vs
    requires forall l :: l in lits ==> l.v in vs && TrueIn(l, e)
    ensures forall x: Var :: x in AsgOf(lits) ==> x in e && AsgOf(lits)[x] == e[x]
  {
    forall x: Var | x in AsgOf(lits)
      ensures x in e && AsgOf(lits)[x] == e[x]
    {
      var l :| l in lits && l.v == x;
      assert TrueIn(l, e) && TrueIn(l, AsgOf(lits));
    }
  }

  lemma Merge(t: Asg, u: Asg, e': Asg, e: Asg)
    requires forall x: Var :: x in u ==> x in e && u[x] == e[x]
    requires e'.Keys == e.Keys - u.Keys && forall x: Var :: x in e' ==> e'[x] == e[x]
    ensures t + e == t + u + e'
  {
  }

  /** What the units leave open stays satisfiable. */
  lemma UnitsStaySatisfiable(f: Formula, n: nat, vs: set<Var>, assumed: set<Lit>, trail: Asg, lits: seq<Lit>)
    requires Open(f, n, vs, trail) && Satisfiable(f, vs, assumed, trail) && DistinctVars(lits)
    requires forall l :: l in lits ==> l.v in vs && Implied(f, vs, assumed, trail, l)
    requires forall l :: l in assumed && l.v in vs ==> l in lits
    ensures Satisfiable(f, vs - LitVars(lits), {}, trail + AsgOf(lits))
  {
    hide Open, DistinctVars, AsgOf, LitVars, Holds;
    var e :| Witness(vs, Res(f, vs, assumed), trail, e);
    var e' := ModelSplits(vs, trail, lits, e);
    UnitsHold(f, n, vs, assumed, trail, lits, e');
    assert Witness(vs - LitVars(lits), Res(f, vs - LitVars(lits), {}), trail + AsgOf(lits), e');
  }

  lemma UnitsKeepOpen(f: Formula, n: nat, vs: set<Var>, trail: Asg, lits: seq<Lit>)
    requires Open(f, n, vs, trail) && DistinctVars(lits)
    requires forall l :: l in lits ==> l.v in vs
    ensures Open(f, n, vs - LitVars(lits), trail + AsgOf(lits))
  {
    var vs', a' := vs - LitVars(lits), trail + AsgOf(lits);
    forall c | c in f && Touches(c, vs') && !SatClause(c, a')
      ensures forall l :: l in c ==> l.v in vs' || l.v in a'
    {
      assert Touches(c, vs);
      if SatClause(c, trail) {
        SatClauseGrows(c, trail, AsgOf(lits));
      }
    }
  }

  lemma UnitsFix(m: Measure, f: Formula, vs: set<Var>, assumed: set<Lit>, trail: Asg, lits: seq<Lit>)
    requires Open(f, m.n, vs, trail) && DistinctVars(lits)
    requires forall l :: l in lits ==> l.v in vs && Implied(f, vs, assumed, trail, l)
    ensures Count(m, vs, Res(f, vs, assumed), trail)
         == LitsWeight(m, lits) * Count(m, vs - LitVars(lits), Res(f, vs, assumed), trail + AsgOf(lits))
  {
    FixUnits(m, vs, Res(f, vs, assumed), trail, lits);
  }

  /** Moving the unit literals to the trail multiplies the count by their weight. */
  lemma UnitsLaw(m: Measure, f: Formula, vs: set<Var>, assumed: set<Lit>, trail: Asg, lits: seq<Lit>)
    requires Open(f, m.n, vs, trail) && Satisfiable(f, vs, assumed, trail) && DistinctVars(lits)
    requires forall l :: l in lits ==> l.v in vs && Implied(f, vs, assumed, trail, l)
    requires forall l :: l in assumed && l.v in vs ==> l in lits
    ensures ResCount(m, f, vs, assumed, trail)
         == LitsWeight(m, lits) * ResCount(m, f, vs - LitVars(lits), {}, trail + AsgOf(lits))
  {
    hide Satisfiable, Implied, Open, LitsWeight, AsgOf;
    UnitsFix(m, f, vs, assumed, trail, lits);
    UnitsLeaveResidual(f, m.n, vs, assumed, trail, lits);
    var vs', a' := vs - LitVars(lits), trail + AsgOf(lits);
    Congruence(m, vs', Res(f, vs, assumed), a', Res(f, vs', {}), a');
  }

  // ---------- Components ----------

  /** No clause that is still open mentions both sides. */
  ghost predicate Separated(f: Formula, v1: set<Var>, v2: set<Var>, trail: Asg) {
    forall c :: c in f && !SatClause(c, trail) ==> !(Touches(c, v1) && Touches(c, v2))
  }

  lemma SplitOpen(f: Formula, n: nat, v1: set<Var>, v2: set<Var>, trail: Asg)
    requires Open(f, n, v1 + v2, trail) && v1 !! v2 && Separated(f, v1, v2, trail)
    ensures Open(f, n, v1, trail) && Open(f, n, v2, trail)
  {
    forall c | c in f && !SatClause(c, trail) && (Touches(c, v1) || Touches(c, v2))
      ensures Touches(c, v1 + v2)
      ensures forall l :: l in c && l.v !in trail ==> if Touches(c, v1) then l.v in v1 else l.v in v2
    {
      var k :| k in c && (k.v in v1 || k.v in v2);
      assert k.v in v1 + v2;
    }
  }

  lemma SplitHolds(f: Formula, n: nat, v1: set<Var>, v2: set<Var>, trail: Asg, e1: Asg, e2: Asg)
    requires Open(f, n, v1 + v2, trail) && v1 !! v2 && Separated(f, v1, v2, trail)
    requires e1.Keys == v1 && e2.Keys == v2
    ensures Holds(f, v1 + v2, {}, trail + (e1 + e2)) <==> Holds(f, v1, {}, trail + e1) && Holds(f, v2, {}, trail + e2)
  {
    SplitOpen(f, n, v1, v2, trail);
    forall c | c in f && Touches(c, v1)
      ensures Touches(c, v1 + v2)
      ensures SatClause(c, trail + (e1 + e2)) <==> SatClause(c, trail + e1)
    {
      SplitClause(f, n, v1, v2, trail, e1, e2, c);
    }
    forall c | c in f && Touches(c, v2)
      ensures Touches(c, v1 + v2)
      ensures SatClause(c, trail + (e1 + e2)) <==> SatClause(c, trail + e2)
    {
      assert v1 + v2 == v2 + v1;
      assert e1 + e2 == e2 + e1;
      SplitClause(f, n, v2, v1, trail, e2, e1, c);
    }
    forall c | c in f && Touches(c, v1 + v2)
      ensures Touches(c, v1) || Touches(c, v2)
    {
      var k :| k in c && k.v in v1 + v2;
      assert k.v in v1 || k.v in v2;
    }
  }

  lemma SplitClause(f: Formula, n: nat, v1: set<Var>, v2: set<Var>, trail: Asg, e1: Asg, e2: Asg, c: Clause)
    requires Open(f, n, v1 + v2, trail) && v1 !! v2 && Open(f, n, v1, trail)
    requires e1.Keys == v1 && e2.Keys == v2
    requires c in f && Touches(c, v1)
    ensures Touches(c, v1 + v2)
    ensures SatClause(c, trail + (e1 + e2)) <==> SatClause(c, trail + e1)
  {
    var k :| k in c && k.v in v1;
    assert k.v in v1 + v2;
    if SatClause(c, trail) {
      SatClauseGrows(c, trail, e1);
      SatClauseGrows(c, trail, e1 + e2);
    } else {
      if SatClause(c, trail + e1) {
        SatClauseWithin(c, trail + e1, trail + (e1 + e2));
      }
      if SatClause(c, trail + (e1 + e2)) {
        SatClauseWithin(c, trail + (e1 + e2), trail + e1);
      }
    }
  }

  lemma SplitFactors(f: Formula, n: nat, v1: set<Var>, v2: set<Var>, trail: Asg)
    requires Open(f, n, v1 + v2, trail) && v1 !! v2 && Separated(f, v1, v2, trail)
    ensures Factors(v1, v2, Res(f, v1 + v2, {}), trail, Res(f, v1, {}), trail, Res(f, v2, {}), trail)
  {
    hide Open, Separated, Holds;
    forall e1: Asg, e2: Asg | e1.Keys == v1 && e2.Keys == v2
      ensures Res(f, v1 + v2, {})(trail + (e1 + e2)) == (Res(f, v1, {})(trail + e1) && Res(f, v2, {})(trail + e2))
    {
      SplitHolds(f, n, v1, v2, trail, e1, e2);
    }
  }

  /** Separated parts count independently. */
  lemma SplitLaw(m: Measure, f: Formula, v1: set<Var>, v2: set<Var>, trail: Asg)
    requires Open(f, m.n, v1 + v2, trail) && v1 !! v2 && Separated(f, v1, v2, trail)
    ensures Open(f, m.n, v1, trail) && Open(f, m.n, v2, trail)
    ensures ResCount(m, f, v1 + v2, {}, trail) == ResCount(m, f, v1, {}, trail) * ResCount(m, f, v2, {}, trail)
    ensures Satisfiable(f, v1 + v2, {}, trail) <==> Satisfiable(f, v1, {}, trail) && Satisfiable(f, v2, {}, trail)
  {
    SplitOpen(f, m.n, v1, v2, trail);
    var p, p1, p2 := Res(f, v1 + v2, {}), Res(f, v1, {}), Res(f, v2, {});
    SplitFactors(f, m.n, v1, v2, trail);
    hide *;
    Product(m, v1, v2, p, trail, p1, trail, p2, trail);
    ExtendsProduct(v1, v2, p, trail, p1, trail, p2, trail);
  }

  /** No open clause mentions `x`. */
  ghost predicate FreeIn(f: Formula, trail: Asg, x: Var) {
    forall c :: c in f && Touches(c, {x}) ==> SatClause(c, trail)
  }

  /** A set of free variables counts for the product of their weights. */
  lemma {:induction false} FreeLaw(m: Measure, f: Formula, free: seq<Var>, trail: Asg)
    requires NoDup(free)
    requires forall x :: x in free ==> x < m.n && x !in trail && FreeIn(f, trail, x)
    ensures ResCount(m, f, Elements(free), {}, trail) == VarsWeight(m, free)
  {
    FreeAgrees(f, free, trail);
    Congruence(m, Elements(free), Res(f, Elements(free), {}), trail, Anything(), trail);
    FreeCount(m, free, trail);
  }

  function Anything(): Form {
    e => true
  }

  lemma FreeAgrees(f: Formula, free: seq<Var>, trail: Asg)
    requires forall x :: x in free ==> x !in trail && FreeIn(f, trail, x)
    ensures Agree(Elements(free), Res(f, Elements(free), {}), trail, Anything(), trail)
  {
    forall e: Asg | e.Keys == Elements(free)
      ensures Holds(f, Elements(free), {}, trail + e)
    {
      forall c | c in f && Touches(c, Elements(free))
        ensures SatClause(c, trail + e)
      {
        var l :| l in c && l.v in Elements(free);
        assert Touches(c, {l.v});
        SatClauseGrows(c, trail, e);
      }
    }
  }

  lemma {:induction false} FreeCount(m: Measure, free: seq<Var>, trail: Asg)
    requires NoDup(free)
    requires forall x :: x in free ==> x < m.n
    ensures Count(m, Elements(free), Anything(), trail) == VarsWeight(m, free)
  {
    var yes := Anything();
    if free == [] {
      assert Elements(free) == {};
      CountNoProj(m, {}, yes, trail);
      ExtendsNone(yes, trail);
    } else {
      var x, rest := free[0], free[1..];
      assert free == [x] + rest;
      assert Ignores(Elements(free), yes, trail, x);
      DropFree(m, Elements(free), yes, trail, x);
      forall y | y in rest
        ensures y != x && y in free
      {
        var i :| 0 <= i < |rest| && rest[i] == y;
        assert free[i + 1] == y;
      }
      assert Elements(free) - {x} == Elements(rest);
      FreeCount(m, rest, trail);
    }
  }

  // ---------- Branching ----------

  /** Branching on a projected literal splits the count in two. */
  lemma BranchLaw(m: Measure, f: Formula, vs: set<Var>, assumed: set<Lit>, trail: Asg, l: Lit)
    requires Open(f, m.n, vs, trail)
    requires l.v in vs && l.v in m.proj
    ensures ResCount(m, f, vs, assumed, trail)
         == ResCount(m, f, vs, assumed + {l}, trail) + ResCount(m, f, vs, assumed + {l.Neg()}, trail)
  {
    var p, p1, p2 := Res(f, vs, assumed), Res(f, vs, assumed + {l}), Res(f, vs, assumed + {l.Neg()});
    forall e: Asg | e.Keys == vs
      ensures p(trail + e) == (p1(trail + e) || p2(trail + e))
    {
      assert TrueIn(l, trail + e) || TrueIn(l.Neg(), trail + e);
    }
    forall e: Asg, g: Asg | e.Keys == vs && g.Keys == vs && SameOn(vs * m.proj, e, g)
      ensures !(p1(trail + e) && p2(trail + g))
    {
      assert l.v in vs * m.proj;
      assert (trail + e)[l.v] == (trail + g)[l.v];
      assert TrueIn(l, trail + e) && TrueIn(l.Neg(), trail + g) ==> false;
    }
    Sum(m, vs, p, p1, p2, trail);
  }

  lemma UnsatLaw(m: Measure, f: Formula, vs: set<Var>, assumed: set<Lit>, trail: Asg)
    requires !Satisfiable(f, vs, assumed, trail)
    ensures ResCount(m, f, vs, assumed, trail) == 0.0
  {
    CountZero(m, vs, Res(f, vs, assumed), trail);
  }

  lemma HiddenLaw(m: Measure, f: Formula, vs: set<Var>, assumed: set<Lit>, trail: Asg)
    requires vs !! m.proj && Satisfiable(f, vs, assumed, trail)
    ensures ResCount(m, f, vs, assumed, trail) == 1.0
  {
    CountNoProj(m, vs, Res(f, vs, assumed), trail);
  }

  // ---------- What a cache key has to determine ----------

  ghost function Rest(c: Clause, trail: Asg): set<Lit> {
    set l | l in c && l.v !in trail
  }

  /** The open clauses over `vs`, stripped of their falsified literals. */
  ghost function OpenClauses(f: Formula, vs: set<Var>, trail: Asg): set<set<Lit>> {
    set c | c in f && Touches(c, vs) && !SatClause(c, trail) :: Rest(c, trail)
  }

  lemma HoldsByOpenClauses(f: Formula, n: nat, vs: set<Var>, trail: Asg, e: Asg)
    requires Open(f, n, vs, trail) && e.Keys == vs
    ensures Holds(f, vs, {}, trail + e) <==> forall r :: r in OpenClauses(f, vs, trail) ==> exists l :: l in r && TrueIn(l, e)
  {
    forall c | c in f && Touches(c, vs) && SatClause(c, trail)
      ensures SatClause(c, trail + e)
    {
      SatClauseGrows(c, trail, e);
    }
    forall c | c in f && Touches(c, vs) && !SatClause(c, trail)
      ensures SatClause(c, trail + e) <==> exists l :: l in Rest(c, trail) && TrueIn(l, e)
    {
      if SatClause(c, trail + e) {
        var i :| 0 <= i < |c| && TrueIn(c[i], trail + e);
        assert c[i] in c;
        assert c[i] in Rest(c, trail) && TrueIn(c[i], e);
      }
      if l :| l in Rest(c, trail) && TrueIn(l, e) {
        var i :| 0 <= i < |c| && c[i] == l;
        assert TrueIn(c[i], trail + e);
      }
    }
    if Holds(f, vs, {}, trail + e) {
      forall r | r in OpenClauses(f, vs, trail)
        ensures exists l :: l in r && TrueIn(l, e)
      {
        var c :| c in f && Touches(c, vs) && !SatClause(c, trail) && r == Rest(c, trail);
      }
    }
    if forall r :: r in OpenClauses(f, vs, trail) ==> exists l :: l in r && TrueIn(l, e) {
      forall c | c in f && Touches(c, vs)
        ensures SatClause(c, trail + e)
      {
        if !SatClause(c, trail) {
          assert Rest(c, trail) in OpenClauses(f, vs, trail);
        }
      }
    }
  }

  lemma SameOpenClausesAgree(f: Formula, n: nat, vs: set<Var>, t1: Asg, t2: Asg)
    requires Open(f, n, vs, t1) && Open(f, n, vs, t2)
    requires OpenClauses(f, vs, t1) == OpenClauses(f, vs, t2)
    ensures Agree(vs, Res(f, vs, {}), t1, Res(f, vs, {}), t2)
  {
    hide Open, OpenClauses, Holds, TrueIn;
    forall e: Asg | e.Keys == vs
      ensures Res(f, vs, {})(t1 + e) == Res(f, vs, {})(t2 + e)
    {
      HoldsByOpenClauses(f, n, vs, t1, e);
      HoldsByOpenClauses(f, n, vs, t2, e);
    }
  }

  /** The count of a component depends on its variables and its open clauses only. */
  lemma SameOpenClausesSameCount(m: Measure, f: Formula, vs: set<Var>, t1: Asg, t2: Asg)
    requires Open(f, m.n, vs, t1) && Open(f, m.n, vs, t2)
    requires OpenClauses(f, vs, t1) == OpenClauses(f, vs, t2)
    ensures ResCount(m, f, vs, {}, t1) == ResCount(m, f, vs, {}, t2)
  {
    SameOpenClausesAgree(f, m.n, vs, t1, t2);
    Congruence(m, vs, Res(f, vs, {}), t1, Res(f, vs, {}), t2);
  }
}
