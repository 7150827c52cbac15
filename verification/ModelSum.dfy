/**
  The textbook meaning of a weighted projected model count: the sum, over the set of
  projected models, of the product of the weights of their literals.
*/
module ModelSum {
  import opened Cnf
  import opened Counting

  // ---------- Sums over finite sets of assignments ----------

  ghost function SetSum(f: Asg -> real, s: set<Asg>): real {
    if s == {} then 0.0
    else
      var p :| p in s;
      f(p) + SetSum(f, s - {p})
  }

  lemma {:induction false} SetSumAny(f: Asg -> real, s: set<Asg>, q: Asg)
    requires q in s
    ensures SetSum(f, s) == f(q) + SetSum(f, s - {q})
  {
    var p :| p in s && SetSum(f, s) == f(p) + SetSum(f, s - {p});
    if p != q {
      SetSumAny(f, s - {p}, q);
      SetSumAny(f, s - {q}, p);
      assert s - {p} - {q} == s - {q} - {p};
    }
  }

  lemma {:induction false} SetSumUnion(f: Asg -> real, s: set<Asg>, r: set<Asg>)
    requires s !! r
    ensures SetSum(f, s + r) == SetSum(f, s) + SetSum(f, r)
  {
    if s == {} {
      assert s + r == r;
    } else {
      var p :| p in s;
      SetSumAny(f, s, p);
      SetSumAny(f, s + r, p);
      assert s + r - {p} == (s - {p}) + r;
      SetSumUnion(f, s - {p}, r);
    }
  }

  ghost function With(s: set<Asg>, x: Var, t: bool): set<Asg> {
    set p | p in s :: p[x := t]
  }

  ghost predicate Without(s: set<Asg>, x: Var) {
    forall p :: p in s ==> x !in p
  }

  lemma WithLess(s: set<Asg>, p: Asg, x: Var, t: bool)
    requires p in s && Without(s, x)
    ensures p[x := t] in With(s, x, t)
    ensures With(s, x, t) - {p[x := t]} == With(s - {p}, x, t)
  {
    var q := p[x := t];
    forall r | r in s && r[x := t] == q
      ensures r == p
    {
      assert r == r[x := t] - {x};
      assert p == q - {x};
    }
    forall r | r in With(s, x, t) - {q}
      ensures r in With(s - {p}, x, t)
    {
      var r' :| r' in s && r == r'[x := t];
      assert r' in s - {p};
    }
  }

  ghost predicate Scales(g: Asg -> real, f: Asg -> real, w: real, s: set<Asg>, x: Var, t: bool) {
    forall p :: p in s ==> g(p[x := t]) == w * f(p)
  }

  lemma {:induction false} SetSumWith(g: Asg -> real, f: Asg -> real, w: real, s: set<Asg>, x: Var, t: bool)
    requires Without(s, x) && Scales(g, f, w, s, x, t)
    ensures SetSum(g, With(s, x, t)) == w * SetSum(f, s)
  {
    if s == {} {
      assert With(s, x, t) == {};
    } else {
      var p :| p in s;
      SetSumWith(g, f, w, s - {p}, x, t);
      assert g(p[x := t]) == w * f(p);
      SetSumGrow(g, f, w, s, x, t, p);
    }
  }

  lemma SetSumGrow(g: Asg -> real, f: Asg -> real, w: real, s: set<Asg>, x: Var, t: bool, p: Asg)
    requires p in s && Without(s, x) && g(p[x := t]) == w * f(p)
    requires SetSum(g, With(s - {p}, x, t)) == w * SetSum(f, s - {p})
    ensures SetSum(g, With(s, x, t)) == w * SetSum(f, s)
  {
    hide *;
    WithLess(s, p, x, t);
    SetSumAny(f, s, p);
    SetSumAny(g, With(s, x, t), p[x := t]);
    ScaledSum(w, SetSum(g, With(s, x, t)), g(p[x := t]), SetSum(g, With(s - {p}, x, t)), SetSum(f, s), f(p), SetSum(f, s - {p}));
  }

  lemma ScaledSum(w: real, z: real, x: real, y: real, z': real, x': real, y': real)
    requires z == x + y && z' == x' + y'
    requires x == w * x' && y == w * y'
    ensures z == w * z'
  {
  }

  lemma {:induction false} SetSumSame(g: Asg -> real, f: Asg -> real, s: set<Asg>)
    requires forall p :: p in s ==> g(p) == f(p)
    ensures SetSum(g, s) == SetSum(f, s)
  {
    if s != {} {
      var p :| p in s;
      SetSumAny(f, s, p);
      SetSumAny(g, s, p);
      SetSumSame(g, f, s - {p});
    }
  }

  // ---------- Projected models and their weights ----------

  ghost function Below(k: nat, vs: set<Var>): set<Var> {
    set x | x in vs && x < k
  }

  /** All assignments of the variables of `vs` below `k`. */
  ghost function AllTo(k: nat, vs: set<Var>): set<Asg> {
    if k == 0 then {map[]}
    else if k - 1 in vs then With(AllTo(k - 1, vs), k - 1, true) + With(AllTo(k - 1, vs), k - 1, false)
    else AllTo(k - 1, vs)
  }

  lemma {:induction false} AllToHolds(k: nat, vs: set<Var>, p: Asg)
    ensures p in AllTo(k, vs) <==> p.Keys == Below(k, vs)
  {
    if k == 0 {
    } else if k - 1 in vs {
      var q := p - {k - 1};
      AllToHolds(k - 1, vs, q);
      assert Below(k, vs) == Below(k - 1, vs) + {k - 1};
      if p.Keys == Below(k, vs) {
        assert p == q[k - 1 := p[k - 1]];
        assert p in With(AllTo(k - 1, vs), k - 1, p[k - 1]);
      }
      if p in AllTo(k, vs) {
        var r, t :| r in AllTo(k - 1, vs) && p == r[k - 1 := t];
        AllToHolds(k - 1, vs, r);
        assert p.Keys == Below(k, vs);
      }
    } else {
      AllToHolds(k - 1, vs, p);
      assert Below(k, vs) == Below(k - 1, vs);
    }
  }

  /** The product of the weights of the literals of an assignment of variables below `k`. */
  ghost function WeightTo(k: nat, m: Measure, p: Asg): real {
    if k == 0 then 1.0
    else if k - 1 in p then m.weight(Lit(k - 1, !p[k - 1])) * WeightTo(k - 1, m, p)
    else WeightTo(k - 1, m, p)
  }

  ghost function Weigh(k: nat, m: Measure): Asg -> real {
    p => WeightTo(k, m, p)
  }

  lemma {:induction false} WeightToIgnores(k: nat, m: Measure, p: Asg, x: Var, t: bool)
    requires k <= x
    ensures WeightTo(k, m, p[x := t]) == WeightTo(k, m, p)
  {
    if k != 0 {
      WeightToIgnores(k - 1, m, p, x, t);
    }
  }

  lemma WeighScales(x: Var, m: Measure, s: set<Asg>, t: bool)
    ensures Scales(Weigh(x + 1, m), Weigh(x, m), m.weight(Lit(x, !t)), s, x, t)
  {
    hide Weigh;
    forall p | p in s
      ensures Weigh(x + 1, m)(p[x := t]) == m.weight(Lit(x, !t)) * Weigh(x, m)(p)
    {
      WeighPoint(x, m, p, t);
    }
  }

  lemma WeighPoint(x: Var, m: Measure, p: Asg, t: bool)
    ensures Weigh(x + 1, m)(p[x := t]) == m.weight(Lit(x, !t)) * Weigh(x, m)(p)
  {
    WeightToIgnores(x, m, p, x, t);
  }

  ghost function ModelsTo(k: nat, m: Measure, vs: set<Var>, phi: Form, a: Asg): set<Asg> {
    set p | p in AllTo(k, vs * m.proj) && Extends(vs - m.proj, phi, a + p)
  }

  /** The projected models of `phi` above `a`: assignments of the projected variables of `vs` that extend to a model. */
  ghost function ProjectedModels(m: Measure, vs: set<Var>, phi: Form, a: Asg): set<Asg> {
    ModelsTo(m.n, m, vs, phi, a)
  }

  lemma ModelDown(x: Var, m: Measure, vs: set<Var>, phi: Form, a: Asg, p: Asg)
    requires x in vs * m.proj
    requires p in ModelsTo(x + 1, m, vs, phi, a)
    ensures x in p && p in With(ModelsTo(x, m, vs - {x}, phi, a[x := p[x]]), x, p[x])
  {
    AllToHolds(x + 1, vs * m.proj, p);
    assert Below(x + 1, vs * m.proj) == Below(x, (vs - {x}) * m.proj) + {x};
    var q := p - {x};
    AllToHolds(x, (vs - {x}) * m.proj, q);
    assert vs - m.proj == vs - {x} - m.proj;
    assert p == q[x := p[x]];
    assert a + p == a[x := p[x]] + q;
    assert q in ModelsTo(x, m, vs - {x}, phi, a[x := p[x]]);
  }

  lemma ModelUp(x: Var, m: Measure, vs: set<Var>, phi: Form, a: Asg, r: Asg, t: bool)
    requires x in vs * m.proj
    requires r in ModelsTo(x, m, vs - {x}, phi, a[x := t])
    ensures r[x := t] in ModelsTo(x + 1, m, vs, phi, a)
  {
    AllToHolds(x, (vs - {x}) * m.proj, r);
    assert Below(x + 1, vs * m.proj) == Below(x, (vs - {x}) * m.proj) + {x};
    AllToHolds(x + 1, vs * m.proj, r[x := t]);
    assert vs - m.proj == vs - {x} - m.proj;
    assert a[x := t] + r == a + r[x := t];
  }

  lemma ModelsStep(x: Var, m: Measure, vs: set<Var>, phi: Form, a: Asg, yes: set<Asg>, no: set<Asg>)
    requires x in vs * m.proj
    requires yes == ModelsTo(x, m, vs - {x}, phi, a[x := true])
    requires no == ModelsTo(x, m, vs - {x}, phi, a[x := false])
    ensures ModelsTo(x + 1, m, vs, phi, a) == With(yes, x, true) + With(no, x, false)
    ensures Without(yes, x) && Without(no, x)
    ensures With(yes, x, true) !! With(no, x, false)
  {
    forall p | p in ModelsTo(x + 1, m, vs, phi, a)
      ensures p in With(yes, x, true) + With(no, x, false)
    {
      ModelDown(x, m, vs, phi, a, p);
      assert p[x] == true || p[x] == false;
    }
    forall p | p in With(yes, x, true)
      ensures p in ModelsTo(x + 1, m, vs, phi, a) && x in p && p[x]
    {
      var r :| r in yes && p == r[x := true];
      ModelUp(x, m, vs, phi, a, r, true);
    }
    forall p | p in With(no, x, false)
      ensures p in ModelsTo(x + 1, m, vs, phi, a) && x in p && !p[x]
    {
      var r :| r in no && p == r[x := false];
      ModelUp(x, m, vs, phi, a, r, false);
    }
    ModelsWithout(x, m, vs - {x}, phi, a[x := true]);
    ModelsWithout(x, m, vs - {x}, phi, a[x := false]);
  }

  lemma ModelsWithout(x: Var, m: Measure, vs: set<Var>, phi: Form, a: Asg)
    ensures Without(ModelsTo(x, m, vs, phi, a), x)
  {
    forall p | p in ModelsTo(x, m, vs, phi, a)
      ensures x !in p
    {
      AllToHolds(x, vs * m.proj, p);
    }
  }

  // ---------- The recursive count is that sum ----------

  lemma {:induction false} CountIsModelSumTo(k: nat, m: Measure, vs: set<Var>, phi: Form, a: Asg)
    requires forall x :: x in vs && x in m.proj ==> x < k
    ensures CountTo(k, m, vs, phi, a) == SetSum(Weigh(k, m), ModelsTo(k, m, vs, phi, a))
    decreases k, 1
  {
    if k == 0 {
      BaseSum(m, vs, phi, a);
    } else if k - 1 in vs * m.proj {
      BranchCount(k - 1, m, vs, phi, a);
    } else {
      CountIsModelSumTo(k - 1, m, vs, phi, a);
      SkipSum(k - 1, m, vs, phi, a);
    }
  }

  lemma BranchUnfold(x: Var, m: Measure, vs: set<Var>, phi: Form, a: Asg)
    requires x in vs && x in m.proj
    ensures CountTo(x + 1, m, vs, phi, a)
         == m.weight(Lit(x, false)) * CountTo(x, m, vs - {x}, phi, a[x := true])
            + m.weight(Lit(x, true)) * CountTo(x, m, vs - {x}, phi, a[x := false])
  {
  }

  lemma {:induction false} BranchCount(x: Var, m: Measure, vs: set<Var>, phi: Form, a: Asg)
    requires x in vs * m.proj
    requires forall y :: y in vs && y in m.proj ==> y < x + 1
    ensures CountTo(x + 1, m, vs, phi, a) == SetSum(Weigh(x + 1, m), ModelsTo(x + 1, m, vs, phi, a))
    decreases x + 1, 0
  {
    hide *;
    CountIsModelSumTo(x, m, vs - {x}, phi, a[x := true]);
    CountIsModelSumTo(x, m, vs - {x}, phi, a[x := false]);
    BranchUnfold(x, m, vs, phi, a);
    SplitSum(x, m, vs, phi, a);
  }

  lemma BaseSum(m: Measure, vs: set<Var>, phi: Form, a: Asg)
    requires vs !! m.proj
    ensures SetSum(Weigh(0, m), ModelsTo(0, m, vs, phi, a)) == if Extends(vs, phi, a) then 1.0 else 0.0
  {
    assert a + map[] == a;
    assert vs - m.proj == vs;
    if Extends(vs, phi, a) {
      assert ModelsTo(0, m, vs, phi, a) == {map[]};
      SetSumAny(Weigh(0, m), {map[]}, map[]);
    } else {
      assert ModelsTo(0, m, vs, phi, a) == {};
    }
  }

  lemma SplitSum(x: Var, m: Measure, vs: set<Var>, phi: Form, a: Asg)
    requires x in vs * m.proj
    ensures SetSum(Weigh(x + 1, m), ModelsTo(x + 1, m, vs, phi, a))
         == m.weight(Lit(x, false)) * SetSum(Weigh(x, m), ModelsTo(x, m, vs - {x}, phi, a[x := true]))
            + m.weight(Lit(x, true)) * SetSum(Weigh(x, m), ModelsTo(x, m, vs - {x}, phi, a[x := false]))
  {
    hide *;
    var yes := ModelsTo(x, m, vs - {x}, phi, a[x := true]);
    var no := ModelsTo(x, m, vs - {x}, phi, a[x := false]);
    ModelsStep(x, m, vs, phi, a, yes, no);
    WeighScales(x, m, yes, true);
    WeighScales(x, m, no, false);
    SetSumWith(Weigh(x + 1, m), Weigh(x, m), m.weight(Lit(x, false)), yes, x, true);
    SetSumWith(Weigh(x + 1, m), Weigh(x, m), m.weight(Lit(x, true)), no, x, false);
    SetSumUnion(Weigh(x + 1, m), With(yes, x, true), With(no, x, false));
  }

  lemma SkipSum(x: Var, m: Measure, vs: set<Var>, phi: Form, a: Asg)
    requires x !in vs * m.proj
    ensures SetSum(Weigh(x + 1, m), ModelsTo(x + 1, m, vs, phi, a)) == SetSum(Weigh(x, m), ModelsTo(x, m, vs, phi, a))
  {
    var s := ModelsTo(x, m, vs, phi, a);
    assert ModelsTo(x + 1, m, vs, phi, a) == s;
    forall p | p in s
      ensures Weigh(x + 1, m)(p) == Weigh(x, m)(p)
    {
      AllToHolds(x, vs * m.proj, p);
    }
    SetSumSame(Weigh(x + 1, m), Weigh(x, m), s);
  }

  /** The recursive count is the sum of the weights of the projected models. */
  lemma CountIsModelSum(m: Measure, vs: set<Var>, phi: Form, a: Asg)
    requires forall x :: x in vs ==> x < m.n
    ensures Count(m, vs, phi, a) == SetSum(Weigh(m.n, m), ProjectedModels(m, vs, phi, a))
    ensures forall p: Asg :: p in ProjectedModels(m, vs, phi, a)
                        <==> p.Keys == vs * m.proj && Extends(vs - m.proj, phi, a + p)
  {
    CountIsModelSumTo(m.n, m, vs, phi, a);
    assert Below(m.n, vs * m.proj) == vs * m.proj;
    forall p: Asg
      ensures p in ProjectedModels(m, vs, phi, a) <==> p.Keys == vs * m.proj && Extends(vs - m.proj, phi, a + p)
    {
      AllToHolds(m.n, vs * m.proj, p);
    }
  }

  lemma {:induction false} UnitWeight(k: nat, m: Measure, p: Asg)
    requires forall l :: m.weight(l) == 1.0
    ensures WeightTo(k, m, p) == 1.0
  {
    if k != 0 {
      UnitWeight(k - 1, m, p);
    }
  }

  /** With unit weights the weighted count is the number of projected models. */
  lemma {:induction false} UnitCount(m: Measure, s: set<Asg>)
    requires forall l :: m.weight(l) == 1.0
    ensures SetSum(Weigh(m.n, m), s) == |s| as real
  {
    if s != {} {
      var p :| p in s;
      SetSumAny(Weigh(m.n, m), s, p);
      UnitWeight(m.n, m, p);
      UnitCount(m, s - {p});
    }
  }
}
