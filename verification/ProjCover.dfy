/**
  The disjoint cover behind projMC: the models of a split formula are counted once where
  every chosen projected part holds, and the others by the first part they falsify.
*/
module ProjCover {
  import opened Cnf
  import opened Counting
  import opened Residual
  import opened Operation
  import opened ProjSplit

  // ---------- Counts depend on the projection only ----------

  /** The same projected assignments extend to models of both formulas. */
  ghost predicate SameProjection(m: Measure, vs: set<Var>, phi: Form, a: Asg, psi: Form, b: Asg) {
    forall e: Asg :: e.Keys == vs * m.proj ==> (Extends(vs - m.proj, phi, a + e) <==> Extends(vs - m.proj, psi, b + e))
  }

  lemma SameProjectionAt(m: Measure, vs: set<Var>, phi: Form, a: Asg, psi: Form, b: Asg, x: Var, t: bool)
    requires SameProjection(m, vs, phi, a, psi, b) && x in vs && x in m.proj
    ensures SameProjection(m, vs - {x}, phi, a[x := t], psi, b[x := t])
  {
    hide Extends;
    forall e: Asg | e.Keys == (vs - {x}) * m.proj
      ensures Extends(vs - {x} - m.proj, phi, a[x := t] + e) <==> Extends(vs - {x} - m.proj, psi, b[x := t] + e)
    {
      assert e[x := t].Keys == vs * m.proj;
      assert vs - {x} - m.proj == vs - m.proj;
      Move(a, e, x, t);
      Move(b, e, x, t);
    }
  }

  lemma {:induction false} ProjectionTo(k: nat, m: Measure, vs: set<Var>, phi: Form, a: Asg, psi: Form, b: Asg)
    requires SameProjection(m, vs, phi, a, psi, b) && forall x :: x in vs && x in m.proj ==> x < k
    ensures CountTo(k, m, vs, phi, a) == CountTo(k, m, vs, psi, b)
  {
    hide SameProjection, Extends;
    if k == 0 {
      ProjectionBase(m, vs, phi, a, psi, b);
    } else if k - 1 in vs && k - 1 in m.proj {
      SameProjectionAt(m, vs, phi, a, psi, b, k - 1, true);
      SameProjectionAt(m, vs, phi, a, psi, b, k - 1, false);
      ProjectionTo(k - 1, m, vs - {k - 1}, phi, a[k - 1 := true], psi, b[k - 1 := true]);
      ProjectionTo(k - 1, m, vs - {k - 1}, phi, a[k - 1 := false], psi, b[k - 1 := false]);
    } else {
      ProjectionTo(k - 1, m, vs, phi, a, psi, b);
    }
  }

  lemma ProjectionBase(m: Measure, vs: set<Var>, phi: Form, a: Asg, psi: Form, b: Asg)
    requires SameProjection(m, vs, phi, a, psi, b) && vs !! m.proj
    ensures Extends(vs, phi, a) <==> Extends(vs, psi, b)
  {
    hide Extends;
    var none: Asg := map[];
    assert vs - m.proj == vs && none.Keys == vs * m.proj && a + none == a && b + none == b;
  }

  lemma CountByProjection(m: Measure, vs: set<Var>, phi: Form, a: Asg, psi: Form, b: Asg)
    requires SameProjection(m, vs, phi, a, psi, b) && forall x :: x in vs ==> x < m.n
    ensures Count(m, vs, phi, a) == Count(m, vs, psi, b)
  {
    ProjectionTo(m.n, m, vs, phi, a, psi, b);
  }

  // ---------- The structure of a split formula ----------

  ghost predicate Structured(q: Problem, s: Split) {
    && q.clauses == s.Clauses() && q.projected && s.rest.Keys == s.part.Keys
    && (forall v :: v in s.part ==> v !in q.selected && UpperOk(q, s, v))
    && (forall v, k :: v in s.rest && k in s.rest[v] ==> LowerOk(q, s, v, k))
    && (Unsplit(s) || ProjectedApart(q, s))
    && (forall c :: c in s.nproj ==> PureRest(q, s, c) || IsLower(s, c))
  }

  /** Nothing was split: all clauses stand together and there is no selector. */
  ghost predicate Unsplit(s: Split) {
    s.part == map[] && s.nproj == []
  }

  ghost predicate ProjectedApart(q: Problem, s: Split) {
    forall c :: c in s.proj ==> PureProj(q, c) || IsUpper(s, c)
  }

  ghost predicate PureProj(q: Problem, c: Clause) {
    forall l :: l in c ==> l.v in q.selected
  }

  ghost predicate PureRest(q: Problem, s: Split, c: Clause) {
    forall l :: l in c ==> l.v !in q.selected && l.v !in s.part
  }

  ghost predicate IsUpper(s: Split, c: Clause) {
    exists v :: v in s.part && c == Upper(s.part[v], v)
  }

  ghost predicate IsLower(s: Split, c: Clause) {
    exists v, k :: v in s.rest && k in s.rest[v] && k < |s.notProj| && c == Lower(s.notProj[k].0, v)
  }

  ghost predicate UpperOk(q: Problem, s: Split, v: Var) {
    v in s.part && PureProj(q, s.part[v]) && Upper(s.part[v], v) in s.proj
  }

  ghost predicate LowerOk(q: Problem, s: Split, v: Var, k: nat) {
    k < |s.notProj| && PureRest(q, s, s.notProj[k].0) && Lower(s.notProj[k].0, v) in s.nproj
  }

  /** Every remainder that hangs on selector `v` is satisfied. */
  predicate RestOk(s: Split, v: Var, b: Asg) {
    v in s.rest ==> forall k :: k in s.rest[v] && k < |s.notProj| ==> SatClause(s.notProj[k].0, b)
  }

  lemma SnocMembers(c: Clause, k: Lit, l: Lit)
    ensures l in c + [k] <==> l in c || l == k
  {
  }

  /** Where a selector occurs, and with which sign. */
  lemma SelectorOccurs(q: Problem, s: Split, c: Clause, l: Lit)
    requires Structured(q, s) && c in q.clauses && l in c && l.v in s.part
    ensures !l.sign ==> c == Upper(s.part[l.v], l.v)
    ensures l.sign ==> exists k :: k in s.rest[l.v] && k < |s.notProj| && c == Lower(s.notProj[k].0, l.v)
  {
    if c in s.proj && IsUpper(s, c) {
      var v :| v in s.part && c == Upper(s.part[v], v);
      SnocMembers(s.part[v], SelectorLit(v), l);
      assert UpperOk(q, s, v);
    } else if IsLower(s, c) {
      var v, k :| v in s.rest && k in s.rest[v] && k < |s.notProj| && c == Lower(s.notProj[k].0, v);
      SnocMembers(s.notProj[k].0, SelectorLit(v).Neg(), l);
      assert LowerOk(q, s, v, k);
    }
  }

  lemma SatOther(c: Clause, b: Asg, v: Var, t: bool)
    requires SatClause(c, b) && forall l :: l in c ==> l.v != v
    ensures SatClause(c, b[v := t])
  {
    var i :| 0 <= i < |c| && TrueIn(c[i], b);
    assert c[i] in c;
    assert TrueIn(c[i], b[v := t]);
  }

  lemma PartAvoids(q: Problem, s: Split, v: Var, w: Var)
    requires Structured(q, s) && v in s.part && w in s.part
    ensures forall l :: l in s.part[v] ==> l.v != w
    ensures forall k :: k in s.rest[v] ==> k < |s.notProj| && forall l :: l in s.notProj[k].0 ==> l.v != w
  {
    assert UpperOk(q, s, v);
    forall k | k in s.rest[v]
      ensures k < |s.notProj| && forall l :: l in s.notProj[k].0 ==> l.v != w
    {
      assert LowerOk(q, s, v, k);
    }
  }

  /** Flipping a selector keeps a clause satisfied when the half it releases already holds. */
  lemma FlipClause(q: Problem, s: Split, c: Clause, v: Var, b: Asg, t: bool)
    requires Structured(q, s) && c in q.clauses && SatClause(c, b) && v in s.part
    requires if t then RestOk(s, v, b) else SatClause(s.part[v], b)
    ensures SatClause(c, b[v := t])
  {
    PartAvoids(q, s, v, v);
    if l :| l in c && l.v == v {
      SelectorOccurs(q, s, c, l);
      if l.sign == t {
        if t {
          var k :| k in s.rest[v] && k < |s.notProj| && c == Lower(s.notProj[k].0, v);
          SatOther(s.notProj[k].0, b, v, t);
          SnocSatisfies(s.notProj[k].0, SelectorLit(v).Neg(), b[v := t]);
        } else {
          SatOther(s.part[v], b, v, t);
          SnocSatisfies(s.part[v], SelectorLit(v), b[v := t]);
        }
      } else {
        assert TrueIn(l, b[v := t]);
        SatIn(c, b[v := t]);
      }
    } else {
      SatOther(c, b, v, t);
    }
  }

  lemma FlipHolds(q: Problem, s: Split, vs: set<Var>, assumed: set<Lit>, v: Var, b: Asg, t: bool)
    requires Structured(q, s) && v in s.part && v in b && Holds(q.clauses, vs, assumed, b)
    requires if t then RestOk(s, v, b) else SatClause(s.part[v], b)
    requires forall l :: l in assumed && l.v in vs ==> l != Lit(v, t)
    ensures Holds(q.clauses, vs, assumed, b[v := t])
  {
    hide Structured, SatClause, RestOk;
    forall c | c in q.clauses && Touches(c, vs)
      ensures SatClause(c, b[v := t])
    {
      FlipClause(q, s, c, v, b, t);
    }
    forall l | l in assumed && l.v in vs
      ensures TrueIn(l, b[v := t])
    {
      assert TrueIn(l, b);
      if l.v == v {
        assert l == Lit(v, !t) || l == Lit(v, t);
      }
    }
  }

  /** What the value of a selector says about its two halves. */
  lemma SelectorFacts(q: Problem, s: Split, vs: set<Var>, assumed: set<Lit>, v: Var, b: Asg)
    requires Structured(q, s) && v in s.part && v in vs && v in b && Holds(q.clauses, vs, assumed, b)
    ensures !b[v] ==> SatClause(s.part[v], b)
    ensures b[v] ==> RestOk(s, v, b)
  {
    hide SatClause;
    assert UpperOk(q, s, v);
    UpperTouches(s.part[v], v, vs);
    SnocSatisfies(s.part[v], SelectorLit(v), b);
    if b[v] {
      forall k | k in s.rest[v] && k < |s.notProj|
        ensures SatClause(s.notProj[k].0, b)
      {
        assert LowerOk(q, s, v, k);
        LowerTouches(s.notProj[k].0, v, vs);
        SnocSatisfies(s.notProj[k].0, SelectorLit(v).Neg(), b);
      }
    }
  }

  lemma UpperTouches(p: Clause, v: Var, vs: set<Var>)
    requires v in vs
    ensures Touches(Upper(p, v), vs)
  {
    assert SelectorLit(v) in Upper(p, v);
  }

  lemma LowerTouches(r: Clause, v: Var, vs: set<Var>)
    requires v in vs
    ensures Touches(Lower(r, v), vs)
  {
    assert SelectorLit(v).Neg() in Lower(r, v);
  }

  // ---------- One step of the cover ----------

  /** The models that satisfy, or falsify, the clause `c`. */
  ghost function Deciding(q: Problem, vs: set<Var>, assumed: set<Lit>, c: Clause, t: bool): Form {
    b => Holds(q.clauses, vs, assumed, b) && SatClause(c, b) == t
  }

  lemma SatByProjection(m: Measure, vs: set<Var>, trail: Asg, c: Clause, e: Asg, g: Asg)
    requires e.Keys == vs && g.Keys == vs && SameOn(vs * m.proj, e, g)
    requires forall l :: l in c ==> l.v in m.proj
    ensures SatClause(c, trail + e) == SatClause(c, trail + g)
  {
    forall l | l in c
      ensures TrueIn(l, trail + e) == TrueIn(l, trail + g)
    {
      if l.v in vs {
        assert l.v in vs * m.proj;
      }
    }
    SatIn(c, trail + e);
    SatIn(c, trail + g);
  }

  /** Every projected assignment either satisfies or falsifies a projected part. */
  lemma PartSplits(q: Problem, vs: set<Var>, assumed: set<Lit>, trail: Asg, c: Clause)
    requires q.Consistent() && q.projected && PureProj(q, c) && forall x :: x in vs ==> x < q.M().n
    ensures Count(q.M(), vs, Res(q.clauses, vs, assumed), trail)
         == Count(q.M(), vs, Deciding(q, vs, assumed, c, true), trail) + Count(q.M(), vs, Deciding(q, vs, assumed, c, false), trail)
  {
    var m, phi, p1, p2 := q.M(), Res(q.clauses, vs, assumed), Deciding(q, vs, assumed, c, true), Deciding(q, vs, assumed, c, false);
    assert forall l :: l in c ==> l.v in m.proj;
    hide Problem.M, Problem.Consistent, Holds, SatClause;
    forall e: Asg, g: Asg | e.Keys == vs && g.Keys == vs && SameOn(vs * m.proj, e, g)
      ensures !(p1(trail + e) && p2(trail + g))
    {
      SatByProjection(m, vs, trail, c, e, g);
    }
    assert Splits(m, vs, phi, p1, p2, trail);
    hide Splits, Count;
    Sum(m, vs, phi, p1, p2, trail);
  }

  /** Where its projected part holds, a selector may as well be false. */
  lemma PartHeld(q: Problem, s: Split, vs: set<Var>, assumed: set<Lit>, trail: Asg, v: Var)
    requires Structured(q, s) && v in s.part && v in vs && vs !! trail.Keys && v !in q.M().proj && forall x :: x in vs ==> x < q.M().n
    requires forall l :: l in assumed ==> l.v != v
    ensures Count(q.M(), vs, Deciding(q, vs, assumed, s.part[v], true), trail)
         == Count(q.M(), vs, Res(q.clauses, vs, assumed + {Lit(v, true)}), trail)
  {
    var m, p1, p2 := q.M(), Deciding(q, vs, assumed, s.part[v], true), Res(q.clauses, vs, assumed + {Lit(v, true)});
    hide Structured, Problem.M;
    forall e: Asg | e.Keys == vs * m.proj
      ensures Extends(vs - m.proj, p1, trail + e) <==> Extends(vs - m.proj, p2, trail + e)
    {
      PartHeldAt(q, s, vs, assumed, trail, v, m.proj, e);
    }
    hide Extends, Count;
    CountByProjection(m, vs, p1, trail, p2, trail);
  }

  lemma PartHeldAt(q: Problem, s: Split, vs: set<Var>, assumed: set<Lit>, trail: Asg, v: Var, proj: set<Var>, e: Asg)
    requires Structured(q, s) && v in s.part && v in vs && vs !! trail.Keys && v !in proj && e.Keys == vs * proj
    requires forall l :: l in assumed ==> l.v != v
    ensures Extends(vs - proj, Deciding(q, vs, assumed, s.part[v], true), trail + e)
       <==> Extends(vs - proj, Res(q.clauses, vs, assumed + {Lit(v, true)}), trail + e)
  {
    var p1, p2, a, hid := Deciding(q, vs, assumed, s.part[v], true), Res(q.clauses, vs, assumed + {Lit(v, true)}), trail + e, vs - proj;
    hide Structured, Deciding, Res;
    if Extends(hid, p1, a) {
      var g :| Witness(hid, p1, a, g);
      HeldRelease(q, s, vs, assumed, v, a, g);
      assert g[v := false].Keys == hid;
      assert Witness(hid, p2, a, g[v := false]);
    }
    if Extends(hid, p2, a) {
      var g :| Witness(hid, p2, a, g);
      HeldBack(q, s, vs, assumed, v, a, g);
      assert Witness(hid, p1, a, g);
    }
  }

  lemma HeldRelease(q: Problem, s: Split, vs: set<Var>, assumed: set<Lit>, v: Var, a: Asg, g: Asg)
    requires Structured(q, s) && v in s.part && v in g && forall l :: l in assumed ==> l.v != v
    requires Deciding(q, vs, assumed, s.part[v], true)(a + g)
    ensures Res(q.clauses, vs, assumed + {Lit(v, true)})(a + g[v := false])
  {
    hide Structured, SatClause, Holds;
    FlipHolds(q, s, vs, assumed, v, a + g, false);
    Update(a, g, v, false);
    HoldsMore(q.clauses, vs, assumed, Lit(v, true), a + g[v := false]);
  }

  lemma HeldBack(q: Problem, s: Split, vs: set<Var>, assumed: set<Lit>, v: Var, a: Asg, g: Asg)
    requires Structured(q, s) && v in s.part && v in vs && v in g
    requires Res(q.clauses, vs, assumed + {Lit(v, true)})(a + g)
    ensures Deciding(q, vs, assumed, s.part[v], true)(a + g)
  {
    hide Structured, SatClause, Touches;
    assert Lit(v, true) in assumed + {Lit(v, true)} && TrueIn(Lit(v, true), a + g);
    SelectorFacts(q, s, vs, assumed + {Lit(v, true)}, v, a + g);
  }

  lemma Update(a: Asg, g: Asg, v: Var, t: bool)
    ensures (a + g)[v := t] == a + g[v := t]
  {
  }

  lemma HoldsMore(f: Formula, vs: set<Var>, assumed: set<Lit>, l: Lit, b: Asg)
    requires Holds(f, vs, assumed, b) && TrueIn(l, b)
    ensures Holds(f, vs, assumed + {l}, b)
  {
    hide SatClause, Touches;
  }

  /** One step: the models are counted where selector `v` is false, and where its projected part is falsified. */
  lemma CoverStep(q: Problem, s: Split, vs: set<Var>, assumed: set<Lit>, trail: Asg, v: Var)
    requires q.Consistent() && Structured(q, s) && v in s.part && v in vs && Open(q.clauses, q.nbVar + 1, vs, trail)
    requires forall l :: l in assumed ==> l.v != v
    ensures Count(q.M(), vs, Res(q.clauses, vs, assumed), trail)
         == Count(q.M(), vs, Res(q.clauses, vs, assumed + {Lit(v, true)}), trail)
          + Count(q.M(), vs, Deciding(q, vs, assumed, s.part[v], false), trail)
  {
    assert v !in q.M().proj && UpperOk(q, s, v) && forall x :: x in vs ==> x < q.M().n;
    hide Problem.M, Problem.Consistent, Structured, Res, Deciding, Count, Closed;
    PartSplits(q, vs, assumed, trail, s.part[v]);
    PartHeld(q, s, vs, assumed, trail, v);
  }

  // ---------- Where every chosen projected part holds ----------

  /** The selectors of `vs`, each decided by a literal of `lits`. */
  ghost predicate Decides(s: Split, vs: set<Var>, lits: set<Lit>) {
    && (forall l :: l in lits ==> l.v in s.part && l.v in vs)
    && (forall v :: v in s.part && v in vs ==> (Lit(v, true) in lits <==> Lit(v, false) !in lits))
  }

  ghost function TrueOnes(lits: set<Lit>): set<Lit> {
    set l | l in lits && !l.sign
  }

  ghost function FalseOnes(lits: set<Lit>): set<Lit> {
    set l | l in lits && l.sign
  }

  /** An assignment with the selectors of `vs` set as the literals say. */
  ghost function Decided(s: Split, vs: set<Var>, lits: set<Lit>, e: Asg): Asg {
    map x | x in e :: if x in s.part && x in vs then Lit(x, false) in lits else e[x]
  }

  /**
    With the selectors decided, the other variables can be chosen once and for all: the
    projected clauses alone determine the projected models.
  */
  lemma ProjectedClausesDecide(q: Problem, s: Split, vs: set<Var>, trail: Asg, lits: set<Lit>)
    requires Structured(q, s) && Decides(s, vs, lits) && Open(q.clauses, q.nbVar + 1, vs, trail)
    requires Satisfiable(q.clauses, vs, TrueOnes(lits), trail)
    ensures Count(q.M(), vs, Res(q.clauses, vs, FalseOnes(lits)), trail) == Count(q.M(), vs, Res(s.proj, vs, lits), trail)
  {
    var m, phi, psi := q.M(), Res(q.clauses, vs, FalseOnes(lits)), Res(s.proj, vs, lits);
    assert m.proj == q.selected && forall x :: x in vs ==> x < m.n;
    if Unsplit(s) {
      UnsplitDecides(q, s, vs, lits);
      return;
    }
    assert ProjectedApart(q, s);
    var w :| Witness(vs, Res(q.clauses, vs, TrueOnes(lits)), trail, w);
    hide Structured, ProjectedApart, Problem.M, Decides, Holds, Closed;
    forall e: Asg | e.Keys == vs * m.proj
      ensures Extends(vs - m.proj, phi, trail + e) <==> Extends(vs - m.proj, psi, trail + e)
    {
      if Extends(vs - m.proj, phi, trail + e) {
        var g :| Witness(vs - m.proj, phi, trail + e, g);
        AllToProj(q, s, vs, trail, lits, e, g);
        assert Witness(vs - m.proj, psi, trail + e, Decided(s, vs, lits, g));
      }
      if Extends(vs - m.proj, psi, trail + e) {
        var g :| Witness(vs - m.proj, psi, trail + e, g);
        ProjToAll(q, s, vs, trail, lits, e, g, w);
        assert Witness(vs - m.proj, phi, trail + e, Decided(s, vs, lits, Hidden(q, w)));
      }
    }
    hide Extends, Count;
    CountByProjection(m, vs, phi, trail, psi, trail);
  }

  lemma UnsplitDecides(q: Problem, s: Split, vs: set<Var>, lits: set<Lit>)
    requires Structured(q, s) && Decides(s, vs, lits) && Unsplit(s)
    ensures lits == {} && FalseOnes(lits) == {} && s.proj == q.clauses
  {
    assert s.Clauses() == s.proj;
  }

  ghost function Hidden(q: Problem, w: Asg): Asg {
    map x | x in w && x !in q.selected :: w[x]
  }

  lemma DecidedAssumed(s: Split, vs: set<Var>, lits: set<Lit>, b: Asg, g: Asg)
    requires Decides(s, vs, lits) && forall v :: v in s.part && v in vs ==> v in g
    ensures forall l :: l in lits ==> TrueIn(l, b + Decided(s, vs, lits, g))
  {
    forall l | l in lits
      ensures TrueIn(l, b + Decided(s, vs, lits, g))
    {
      assert l == Lit(l.v, true) || l == Lit(l.v, false);
    }
  }

  lemma AllToProj(q: Problem, s: Split, vs: set<Var>, trail: Asg, lits: set<Lit>, e: Asg, g: Asg)
    requires Structured(q, s) && ProjectedApart(q, s) && Decides(s, vs, lits) && vs !! trail.Keys
    requires e.Keys == vs * q.selected && g.Keys == vs - q.selected
    requires Holds(q.clauses, vs, FalseOnes(lits), trail + e + g)
    ensures Decided(s, vs, lits, g).Keys == vs - q.selected
    ensures Holds(s.proj, vs, lits, trail + e + Decided(s, vs, lits, g))
  {
    var b, d := trail + e + g, trail + e + Decided(s, vs, lits, g);
    assert forall v :: v in s.part && v in vs ==> v in g;
    DecidedAssumed(s, vs, lits, trail + e, g);
    hide SatClause, Touches;
    forall c | c in s.proj && Touches(c, vs)
      ensures SatClause(c, d)
    {
      assert c in q.clauses && SatClause(c, b);
      ProjKept(q, s, vs, trail, lits, e, g, g, c);
    }
  }

  /** A projected clause stays satisfied when hidden variables change, provided the selectors follow `lits`. */
  lemma ProjKept(q: Problem, s: Split, vs: set<Var>, trail: Asg, lits: set<Lit>, e: Asg, g: Asg, h: Asg, c: Clause)
    requires Structured(q, s) && ProjectedApart(q, s) && Decides(s, vs, lits) && vs !! trail.Keys
    requires e.Keys == vs * q.selected && g.Keys == vs - q.selected && h.Keys == vs - q.selected
    requires c in s.proj && SatClause(c, trail + e + g)
    requires forall l :: l in FalseOnes(lits) ==> TrueIn(l, trail + e + g)
    ensures SatClause(c, trail + e + Decided(s, vs, lits, h))
  {
    var b, d := trail + e + g, trail + e + Decided(s, vs, lits, h);
    SatIn(c, b);
    SatIn(c, d);
    var l :| l in c && TrueIn(l, b);
    ProjMember(q, s, c, l);
    if l.v in q.selected {
    } else {
      SelectorKept(q, s, vs, trail, lits, e, g, h, l);
    }
  }

  lemma ProjMember(q: Problem, s: Split, c: Clause, l: Lit)
    requires ProjectedApart(q, s) && Structured(q, s) && c in s.proj && l in c
    ensures l.v in q.selected || (l.v in s.part && l == Lit(l.v, false))
  {
    if !PureProj(q, c) {
      var v :| v in s.part && c == Upper(s.part[v], v);
      assert UpperOk(q, s, v);
      SnocMembers(s.part[v], SelectorLit(v), l);
    }
  }

  lemma SelectorKept(q: Problem, s: Split, vs: set<Var>, trail: Asg, lits: set<Lit>, e: Asg, g: Asg, h: Asg, l: Lit)
    requires Decides(s, vs, lits) && vs !! trail.Keys
    requires e.Keys == vs * q.selected && g.Keys == vs - q.selected && h.Keys == vs - q.selected
    requires l.v !in q.selected && l.v in s.part && l == Lit(l.v, false) && TrueIn(l, trail + e + g)
    requires forall k :: k in FalseOnes(lits) ==> TrueIn(k, trail + e + g)
    ensures TrueIn(l, trail + e + Decided(s, vs, lits, h))
  {
    if l.v in vs {
      assert Lit(l.v, true) in lits ==> Lit(l.v, true) in FalseOnes(lits) && TrueIn(Lit(l.v, true), trail + e + g);
      assert Lit(l.v, false) in lits;
    }
  }

  lemma ProjToAll(q: Problem, s: Split, vs: set<Var>, trail: Asg, lits: set<Lit>, e: Asg, g: Asg, w: Asg)
    requires Structured(q, s) && ProjectedApart(q, s) && Decides(s, vs, lits) && vs !! trail.Keys
    requires e.Keys == vs * q.selected && g.Keys == vs - q.selected && w.Keys == vs
    requires Holds(s.proj, vs, lits, trail + e + g)
    requires Holds(q.clauses, vs, TrueOnes(lits), trail + w)
    ensures Decided(s, vs, lits, Hidden(q, w)).Keys == vs - q.selected
    ensures Holds(q.clauses, vs, FalseOnes(lits), trail + e + Decided(s, vs, lits, Hidden(q, w)))
  {
    var h := Hidden(q, w);
    var d := trail + e + Decided(s, vs, lits, h);
    assert h.Keys == vs - q.selected;
    assert forall v :: v in s.part && v in vs ==> v in h;
    DecidedAssumed(s, vs, lits, trail + e, h);
    hide SatClause, Touches;
    forall c | c in q.clauses && Touches(c, vs)
      ensures SatClause(c, d)
    {
      if c in s.proj {
        assert forall l :: l in FalseOnes(lits) ==> l.v in vs && TrueIn(l, trail + e + g);
        ProjKept(q, s, vs, trail, lits, e, g, h, c);
      } else {
        RestKept(q, s, vs, trail, lits, e, w, c);
      }
    }
  }

  lemma RestKept(q: Problem, s: Split, vs: set<Var>, trail: Asg, lits: set<Lit>, e: Asg, w: Asg, c: Clause)
    requires Structured(q, s) && Decides(s, vs, lits) && vs !! trail.Keys
    requires e.Keys == vs * q.selected && w.Keys == vs
    requires c in s.nproj && SatClause(c, trail + w)
    requires forall l :: l in TrueOnes(lits) ==> TrueIn(l, trail + w)
    ensures SatClause(c, trail + e + Decided(s, vs, lits, Hidden(q, w)))
  {
    var b, d := trail + w, trail + e + Decided(s, vs, lits, Hidden(q, w));
    SatIn(c, b);
    SatIn(c, d);
    var l :| l in c && TrueIn(l, b);
    hide *;
    RestAvoids(q, s, c);
    if l.v in s.part {
      RestSelector(q, s, c, l);
      RestSelectorKept(q, s, vs, trail, lits, e, w, l);
    } else {
      RestLiteralKept(q, s, vs, trail, lits, e, w, l);
    }
  }

  lemma RestSelectorKept(q: Problem, s: Split, vs: set<Var>, trail: Asg, lits: set<Lit>, e: Asg, w: Asg, l: Lit)
    requires Decides(s, vs, lits) && vs !! trail.Keys && e.Keys == vs * q.selected && w.Keys == vs
    requires l.v !in q.selected && l.v in s.part && l == Lit(l.v, true) && TrueIn(l, trail + w)
    requires forall k :: k in TrueOnes(lits) ==> TrueIn(k, trail + w)
    ensures TrueIn(l, trail + e + Decided(s, vs, lits, Hidden(q, w)))
  {
    if l.v in vs {
      assert Lit(l.v, false) in lits ==> Lit(l.v, false) in TrueOnes(lits) && TrueIn(Lit(l.v, false), trail + w);
      assert Lit(l.v, true) in lits;
    }
  }

  lemma RestLiteralKept(q: Problem, s: Split, vs: set<Var>, trail: Asg, lits: set<Lit>, e: Asg, w: Asg, l: Lit)
    requires vs !! trail.Keys && e.Keys == vs * q.selected && w.Keys == vs
    requires l.v !in q.selected && l.v !in s.part && TrueIn(l, trail + w)
    ensures TrueIn(l, trail + e + Decided(s, vs, lits, Hidden(q, w)))
  {
  }

  lemma RestAvoids(q: Problem, s: Split, c: Clause)
    requires Structured(q, s) && c in s.nproj
    ensures forall l :: l in c ==> l.v !in q.selected
  {
    if !PureRest(q, s, c) {
      var v, k :| v in s.rest && k in s.rest[v] && k < |s.notProj| && c == Lower(s.notProj[k].0, v);
      assert LowerOk(q, s, v, k);
      forall l | l in c
        ensures l.v !in q.selected
      {
        SnocMembers(s.notProj[k].0, SelectorLit(v).Neg(), l);
      }
    }
  }

  /** Selectors occur negatively among the clauses that are not projected. */
  lemma RestSelector(q: Problem, s: Split, c: Clause, l: Lit)
    requires Structured(q, s) && c in s.nproj && l in c && l.v in s.part
    ensures l == Lit(l.v, true)
  {
    var v, k :| v in s.rest && k in s.rest[v] && k < |s.notProj| && c == Lower(s.notProj[k].0, v);
    assert LowerOk(q, s, v, k);
    SnocMembers(s.notProj[k].0, SelectorLit(v).Neg(), l);
  }
}
