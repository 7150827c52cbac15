/**
  Weighted projected model counting, stated independently of any algorithm.

  A formula is any predicate on assignments.  `Count` sums, over the values of the
  projected variables, the product of their literal weights, whenever the remaining
  variables can be chosen so that the formula holds.
*/
module Counting {
  import opened Cnf

  type Form = Asg -> bool

  /** Variables are below `n`; `proj` are the projected ones. */
  datatype Measure = Measure(n: nat, proj: set<Var>, weight: Lit -> real)

  ghost predicate Witness(vs: set<Var>, phi: Form, a: Asg, e: Asg) {
    e.Keys == vs && phi(a + e)
  }

  /** Some choice of values for `vs` on top of `a` satisfies `phi`. */
  ghost predicate Extends(vs: set<Var>, phi: Form, a: Asg) {
    exists e :: Witness(vs, phi, a, e)
  }

  ghost function CountTo(k: nat, m: Measure, vs: set<Var>, phi: Form, a: Asg): real {
    if k == 0 then
      if Extends(vs, phi, a) then 1.0 else 0.0
    else
      var x := k - 1;
      if x in vs && x in m.proj then
        m.weight(Lit(x, false)) * CountTo(k - 1, m, vs - {x}, phi, a[x := true])
        + m.weight(Lit(x, true)) * CountTo(k - 1, m, vs - {x}, phi, a[x := false])
      else
        CountTo(k - 1, m, vs, phi, a)
  }

  ghost function Count(m: Measure, vs: set<Var>, phi: Form, a: Asg): real {
    CountTo(m.n, m, vs, phi, a)
  }

  // ---------- Congruence ----------

  ghost predicate Agree(vs: set<Var>, phi: Form, a: Asg, psi: Form, b: Asg) {
    forall e: Asg :: e.Keys == vs ==> phi(a + e) == psi(b + e)
  }

  lemma Move(a: Asg, e: Asg, x: Var, t: bool)
    requires x !in e
    ensures a[x := t] + e == a + e[x := t]
  {
  }

  lemma AgreeAt(vs: set<Var>, phi: Form, a: Asg, psi: Form, b: Asg, x: Var, t: bool)
    requires Agree(vs, phi, a, psi, b) && x in vs
    ensures Agree(vs - {x}, phi, a[x := t], psi, b[x := t])
  {
    forall e: Asg | e.Keys == vs - {x}
      ensures phi(a[x := t] + e) == psi(b[x := t] + e)
    {
      assert e[x := t].Keys == vs;
      Move(a, e, x, t);
      Move(b, e, x, t);
    }
  }

  lemma AgreeExtends(vs: set<Var>, phi: Form, a: Asg, psi: Form, b: Asg)
    requires Agree(vs, phi, a, psi, b)
    ensures Extends(vs, phi, a) <==> Extends(vs, psi, b)
  {
    if Extends(vs, phi, a) {
      var e :| Witness(vs, phi, a, e);
      assert Witness(vs, psi, b, e);
    }
    if Extends(vs, psi, b) {
      var e :| Witness(vs, psi, b, e);
      assert Witness(vs, phi, a, e);
    }
  }

  lemma {:induction false} CongruenceTo(k: nat, m: Measure, vs: set<Var>, phi: Form, a: Asg, psi: Form, b: Asg)
    requires Agree(vs, phi, a, psi, b)
    ensures CountTo(k, m, vs, phi, a) == CountTo(k, m, vs, psi, b)
  {
    hide Agree, Extends;
    if k == 0 {
      AgreeExtends(vs, phi, a, psi, b);
    } else if k - 1 in vs && k - 1 in m.proj {
      AgreeAt(vs, phi, a, psi, b, k - 1, true);
      AgreeAt(vs, phi, a, psi, b, k - 1, false);
      CongruenceTo(k - 1, m, vs - {k - 1}, phi, a[k - 1 := true], psi, b[k - 1 := true]);
      CongruenceTo(k - 1, m, vs - {k - 1}, phi, a[k - 1 := false], psi, b[k - 1 := false]);
    } else {
      CongruenceTo(k - 1, m, vs, phi, a, psi, b);
    }
  }

  /** The count only looks at the formula on assignments of the counted variables. */
  lemma Congruence(m: Measure, vs: set<Var>, phi: Form, a: Asg, psi: Form, b: Asg)
    requires Agree(vs, phi, a, psi, b)
    ensures Count(m, vs, phi, a) == Count(m, vs, psi, b)
  {
    CongruenceTo(m.n, m, vs, phi, a, psi, b);
  }

  // ---------- Disjoint sums ----------

  ghost predicate SameOn(ps: set<Var>, e: Asg, f: Asg) {
    forall x :: x in ps ==> x in e && x in f && e[x] == f[x]
  }

  /** `phi` is the union of `p1` and `p2`, which no common projection satisfies. */
  ghost predicate Splits(m: Measure, vs: set<Var>, phi: Form, p1: Form, p2: Form, a: Asg) {
    && (forall e: Asg :: e.Keys == vs ==> phi(a + e) == (p1(a + e) || p2(a + e)))
    && (forall e: Asg, f: Asg :: e.Keys == vs && f.Keys == vs && SameOn(vs * m.proj, e, f)
                                 ==> !(p1(a + e) && p2(a + f)))
  }

  lemma SplitsAt(m: Measure, vs: set<Var>, phi: Form, p1: Form, p2: Form, a: Asg, x: Var, t: bool)
    requires Splits(m, vs, phi, p1, p2, a) && x in vs
    ensures Splits(m, vs - {x}, phi, p1, p2, a[x := t])
  {
    forall e: Asg | e.Keys == vs - {x}
      ensures phi(a[x := t] + e) == (p1(a[x := t] + e) || p2(a[x := t] + e))
    {
      assert e[x := t].Keys == vs;
      Move(a, e, x, t);
    }
    forall e: Asg, f: Asg | e.Keys == vs - {x} && f.Keys == vs - {x} && SameOn((vs - {x}) * m.proj, e, f)
      ensures !(p1(a[x := t] + e) && p2(a[x := t] + f))
    {
      assert e[x := t].Keys == vs && f[x := t].Keys == vs;
      Move(a, e, x, t);
      Move(a, f, x, t);
      assert SameOn(vs * m.proj, e[x := t], f[x := t]);
    }
  }

  lemma SplitsExtends(m: Measure, vs: set<Var>, phi: Form, p1: Form, p2: Form, a: Asg)
    requires Splits(m, vs, phi, p1, p2, a) && vs !! m.proj
    ensures Extends(vs, phi, a) <==> Extends(vs, p1, a) || Extends(vs, p2, a)
    ensures !(Extends(vs, p1, a) && Extends(vs, p2, a))
  {
    if Extends(vs, phi, a) {
      var e :| Witness(vs, phi, a, e);
      assert Witness(vs, p1, a, e) || Witness(vs, p2, a, e);
    }
    if Extends(vs, p1, a) {
      var e :| Witness(vs, p1, a, e);
      assert Witness(vs, phi, a, e);
      if Extends(vs, p2, a) {
        var f :| Witness(vs, p2, a, f);
        assert SameOn(vs * m.proj, e, f);
      }
    }
    if Extends(vs, p2, a) {
      var f :| Witness(vs, p2, a, f);
      assert Witness(vs, phi, a, f);
    }
  }

  lemma {:induction false} SumTo(k: nat, m: Measure, vs: set<Var>, phi: Form, p1: Form, p2: Form, a: Asg)
    requires Splits(m, vs, phi, p1, p2, a)
    requires forall x :: x in vs && x in m.proj ==> x < k
    ensures CountTo(k, m, vs, phi, a) == CountTo(k, m, vs, p1, a) + CountTo(k, m, vs, p2, a)
  {
    hide Splits, Extends;
    if k == 0 {
      SplitsExtends(m, vs, phi, p1, p2, a);
    } else if k - 1 in vs && k - 1 in m.proj {
      SplitsAt(m, vs, phi, p1, p2, a, k - 1, true);
      SplitsAt(m, vs, phi, p1, p2, a, k - 1, false);
      SumTo(k - 1, m, vs - {k - 1}, phi, p1, p2, a[k - 1 := true]);
      SumTo(k - 1, m, vs - {k - 1}, phi, p1, p2, a[k - 1 := false]);
    } else {
      SumTo(k - 1, m, vs, phi, p1, p2, a);
    }
  }

  /** Counts of projection-disjoint alternatives add up. */
  lemma Sum(m: Measure, vs: set<Var>, phi: Form, p1: Form, p2: Form, a: Asg)
    requires Splits(m, vs, phi, p1, p2, a)
    requires forall x :: x in vs ==> x < m.n
    ensures Count(m, vs, phi, a) == Count(m, vs, p1, a) + Count(m, vs, p2, a)
  {
    SumTo(m.n, m, vs, phi, p1, p2, a);
  }

  // ---------- Independent products ----------

  ghost predicate Factors(v1: set<Var>, v2: set<Var>, phi: Form, a: Asg, p1: Form, a1: Asg, p2: Form, a2: Asg) {
    forall e1: Asg, e2: Asg :: e1.Keys == v1 && e2.Keys == v2
                               ==> phi(a + (e1 + e2)) == (p1(a1 + e1) && p2(a2 + e2))
  }

  lemma FactorsAtFirst(v1: set<Var>, v2: set<Var>, phi: Form, a: Asg, p1: Form, a1: Asg, p2: Form, a2: Asg, x: Var, t: bool)
    requires Factors(v1, v2, phi, a, p1, a1, p2, a2) && v1 !! v2 && x in v1
    ensures Factors(v1 - {x}, v2, phi, a[x := t], p1, a1[x := t], p2, a2)
  {
    forall e1: Asg, e2: Asg | e1.Keys == v1 - {x} && e2.Keys == v2
      ensures phi(a[x := t] + (e1 + e2)) == (p1(a1[x := t] + e1) && p2(a2 + e2))
    {
      assert e1[x := t].Keys == v1;
      assert a[x := t] + (e1 + e2) == a + (e1[x := t] + e2);
      assert a1[x := t] + e1 == a1 + e1[x := t];
    }
  }

  lemma FactorsAtSecond(v1: set<Var>, v2: set<Var>, phi: Form, a: Asg, p1: Form, a1: Asg, p2: Form, a2: Asg, x: Var, t: bool)
    requires Factors(v1, v2, phi, a, p1, a1, p2, a2) && v1 !! v2 && x in v2
    ensures Factors(v1, v2 - {x}, phi, a[x := t], p1, a1, p2, a2[x := t])
  {
    forall e1: Asg, e2: Asg | e1.Keys == v1 && e2.Keys == v2 - {x}
      ensures phi(a[x := t] + (e1 + e2)) == (p1(a1 + e1) && p2(a2[x := t] + e2))
    {
      assert e2[x := t].Keys == v2;
      assert a[x := t] + (e1 + e2) == a + (e1 + e2[x := t]);
      assert a2[x := t] + e2 == a2 + e2[x := t];
    }
  }

  lemma ExtendsProduct(v1: set<Var>, v2: set<Var>, phi: Form, a: Asg, p1: Form, a1: Asg, p2: Form, a2: Asg)
    requires Factors(v1, v2, phi, a, p1, a1, p2, a2) && v1 !! v2
    ensures Extends(v1 + v2, phi, a) <==> Extends(v1, p1, a1) && Extends(v2, p2, a2)
  {
    if Extends(v1 + v2, phi, a) {
      var e :| Witness(v1 + v2, phi, a, e);
      var e1 := map x | x in v1 :: e[x];
      var e2 := map x | x in v2 :: e[x];
      assert e == e1 + e2;
      assert Witness(v1, p1, a1, e1) && Witness(v2, p2, a2, e2);
    }
    if Extends(v1, p1, a1) && Extends(v2, p2, a2) {
      var e1 :| Witness(v1, p1, a1, e1);
      var e2 :| Witness(v2, p2, a2, e2);
      assert Witness(v1 + v2, phi, a, e1 + e2);
    }
  }

  lemma {:induction false} ProductTo(k: nat, m: Measure, v1: set<Var>, v2: set<Var>,
      phi: Form, a: Asg, p1: Form, a1: Asg, p2: Form, a2: Asg)
    requires Factors(v1, v2, phi, a, p1, a1, p2, a2) && v1 !! v2
    ensures CountTo(k, m, v1 + v2, phi, a) == CountTo(k, m, v1, p1, a1) * CountTo(k, m, v2, p2, a2)
    decreases k, 1
  {
    if k == 0 {
      ExtendsProduct(v1, v2, phi, a, p1, a1, p2, a2);
    } else if k - 1 in m.proj && k - 1 in v1 {
      ProductFirst(k, m, v1, v2, phi, a, p1, a1, p2, a2);
    } else if k - 1 in m.proj && k - 1 in v2 {
      ProductSecond(k, m, v1, v2, phi, a, p1, a1, p2, a2);
    } else {
      ProductTo(k - 1, m, v1, v2, phi, a, p1, a1, p2, a2);
    }
  }

  lemma {:induction false} ProductFirst(k: nat, m: Measure, v1: set<Var>, v2: set<Var>,
      phi: Form, a: Asg, p1: Form, a1: Asg, p2: Form, a2: Asg)
    requires Factors(v1, v2, phi, a, p1, a1, p2, a2) && v1 !! v2 && k > 0 && k - 1 in v1 && k - 1 in m.proj
    ensures CountTo(k, m, v1 + v2, phi, a) == CountTo(k, m, v1, p1, a1) * CountTo(k, m, v2, p2, a2)
    decreases k, 0
  {
    FactorsAtFirst(v1, v2, phi, a, p1, a1, p2, a2, k - 1, true);
    FactorsAtFirst(v1, v2, phi, a, p1, a1, p2, a2, k - 1, false);
    ProductTo(k - 1, m, v1 - {k - 1}, v2, phi, a[k - 1 := true], p1, a1[k - 1 := true], p2, a2);
    ProductTo(k - 1, m, v1 - {k - 1}, v2, phi, a[k - 1 := false], p1, a1[k - 1 := false], p2, a2);
    assert v1 + v2 - {k - 1} == (v1 - {k - 1}) + v2;
    Scale(k, m, v1 + v2, phi, a, v1, p1, a1, CountTo(k, m, v2, p2, a2));
  }

  lemma {:induction false} ProductSecond(k: nat, m: Measure, v1: set<Var>, v2: set<Var>,
      phi: Form, a: Asg, p1: Form, a1: Asg, p2: Form, a2: Asg)
    requires Factors(v1, v2, phi, a, p1, a1, p2, a2) && v1 !! v2 && k > 0 && k - 1 in v2 && k - 1 in m.proj
    ensures CountTo(k, m, v1 + v2, phi, a) == CountTo(k, m, v1, p1, a1) * CountTo(k, m, v2, p2, a2)
    decreases k, 0
  {
    FactorsAtSecond(v1, v2, phi, a, p1, a1, p2, a2, k - 1, true);
    FactorsAtSecond(v1, v2, phi, a, p1, a1, p2, a2, k - 1, false);
    ProductTo(k - 1, m, v1, v2 - {k - 1}, phi, a[k - 1 := true], p1, a1, p2, a2[k - 1 := true]);
    ProductTo(k - 1, m, v1, v2 - {k - 1}, phi, a[k - 1 := false], p1, a1, p2, a2[k - 1 := false]);
    assert v1 + v2 - {k - 1} == v1 + (v2 - {k - 1});
    Scale(k, m, v1 + v2, phi, a, v2, p2, a2, CountTo(k, m, v1, p1, a1));
  }

  /** If both branches on variable k - 1 scale by `r`, so does the whole count. */
  lemma {:induction false} Scale(k: nat, m: Measure, vs: set<Var>, phi: Form, a: Asg, v: set<Var>, p: Form, b: Asg, r: real)
    requires k > 0 && k - 1 in m.proj && k - 1 in vs && k - 1 in v
    requires CountTo(k - 1, m, vs - {k - 1}, phi, a[k - 1 := true]) == CountTo(k - 1, m, v - {k - 1}, p, b[k - 1 := true]) * r
    requires CountTo(k - 1, m, vs - {k - 1}, phi, a[k - 1 := false]) == CountTo(k - 1, m, v - {k - 1}, p, b[k - 1 := false]) * r
    ensures CountTo(k, m, vs, phi, a) == CountTo(k, m, v, p, b) * r
  {
    Distribute(m.weight(Lit(k - 1, false)), m.weight(Lit(k - 1, true)),
               CountTo(k - 1, m, v - {k - 1}, p, b[k - 1 := true]),
               CountTo(k - 1, m, v - {k - 1}, p, b[k - 1 := false]), r);
  }

  lemma Distribute(w: real, w': real, p: real, q: real, r: real)
    ensures w * (p * r) + w' * (q * r) == (w * p + w' * q) * r
  {
  }

  /** Counts of variable-disjoint factors multiply. */
  lemma Product(m: Measure, v1: set<Var>, v2: set<Var>, phi: Form, a: Asg, p1: Form, a1: Asg, p2: Form, a2: Asg)
    requires Factors(v1, v2, phi, a, p1, a1, p2, a2) && v1 !! v2
    ensures Count(m, v1 + v2, phi, a) == Count(m, v1, p1, a1) * Count(m, v2, p2, a2)
  {
    ProductTo(m.n, m, v1, v2, phi, a, p1, a1, p2, a2);
  }

  // ---------- Extreme formulas ----------

  lemma ExtendsUp(vs: set<Var>, phi: Form, a: Asg, x: Var, t: bool)
    requires x in vs
    ensures Extends(vs - {x}, phi, a[x := t]) ==> Extends(vs, phi, a)
  {
    if Extends(vs - {x}, phi, a[x := t]) {
      var e :| Witness(vs - {x}, phi, a[x := t], e);
      assert a[x := t] + e == a + e[x := t];
      assert Witness(vs, phi, a, e[x := t]);
    }
  }

  lemma {:induction false} CountZeroTo(k: nat, m: Measure, vs: set<Var>, phi: Form, a: Asg)
    requires !Extends(vs, phi, a)
    ensures CountTo(k, m, vs, phi, a) == 0.0
  {
    if k != 0 {
      if k - 1 in vs && k - 1 in m.proj {
        ExtendsUp(vs, phi, a, k - 1, true);
        ExtendsUp(vs, phi, a, k - 1, false);
        CountZeroTo(k - 1, m, vs - {k - 1}, phi, a[k - 1 := true]);
        CountZeroTo(k - 1, m, vs - {k - 1}, phi, a[k - 1 := false]);
      } else {
        CountZeroTo(k - 1, m, vs, phi, a);
      }
    }
  }

  /** An unsatisfiable formula counts zero. */
  lemma CountZero(m: Measure, vs: set<Var>, phi: Form, a: Asg)
    requires !Extends(vs, phi, a)
    ensures Count(m, vs, phi, a) == 0.0
  {
    CountZeroTo(m.n, m, vs, phi, a);
  }

  lemma {:induction false} CountNoProjTo(k: nat, m: Measure, vs: set<Var>, phi: Form, a: Asg)
    requires vs !! m.proj
    ensures CountTo(k, m, vs, phi, a) == if Extends(vs, phi, a) then 1.0 else 0.0
  {
    if k != 0 {
      CountNoProjTo(k - 1, m, vs, phi, a);
    }
  }

  /** Without projected variables the count says whether the formula is satisfiable. */
  lemma CountNoProj(m: Measure, vs: set<Var>, phi: Form, a: Asg)
    requires vs !! m.proj
    ensures Count(m, vs, phi, a) == if Extends(vs, phi, a) then 1.0 else 0.0
  {
    CountNoProjTo(m.n, m, vs, phi, a);
  }

  // ---------- Fixing one variable ----------

  /** The weight a fixed literal contributes: hidden variables weigh nothing. */
  function LitWeight(m: Measure, l: Lit): real {
    if l.v in m.proj then m.weight(l) else 1.0
  }

  function VarWeight(m: Measure, x: Var): real {
    if x in m.proj then m.weight(Lit(x, false)) + m.weight(Lit(x, true)) else 1.0
  }

  lemma ExtendsNone(phi: Form, a: Asg)
    ensures Extends({}, phi, a) <==> phi(a)
  {
    assert a + map[] == a;
    if phi(a) {
      assert Witness({}, phi, a, map[]);
    }
    if Extends({}, phi, a) {
      var e :| Witness({}, phi, a, e);
      assert e == map[];
    }
  }

  lemma {:induction false} CountOneTo(k: nat, m: Measure, x: Var, phi: Form, a: Asg)
    requires x in m.proj
    ensures k <= x ==> CountTo(k, m, {}, phi, a) == if phi(a) then 1.0 else 0.0
    ensures x < k ==> CountTo(k, m, {}, phi, a) == if phi(a) then 1.0 else 0.0
    ensures x < k ==> CountTo(k, m, {x}, phi, a)
                      == (if phi(a[x := true]) then m.weight(Lit(x, false)) else 0.0)
                         + (if phi(a[x := false]) then m.weight(Lit(x, true)) else 0.0)
  {
    CountNoProjTo(k, m, {}, phi, a);
    ExtendsNone(phi, a);
    if k > 0 && x < k - 1 {
      CountOneTo(k - 1, m, x, phi, a);
    } else if k == x + 1 {
      CountNoProjTo(k - 1, m, {}, phi, a[x := true]);
      CountNoProjTo(k - 1, m, {}, phi, a[x := false]);
      ExtendsNone(phi, a[x := true]);
      ExtendsNone(phi, a[x := false]);
      assert {x} - {x} == {};
    }
  }

  /** The point formula that only accepts value `t` for `x`. */
  function Point(x: Var, t: bool): Form {
    e => x in e && e[x] == t
  }

  lemma CountPoint(m: Measure, x: Var, t: bool)
    requires x < m.n
    ensures Count(m, {x}, Point(x, t), map[]) == LitWeight(m, Lit(x, !t))
  {
    if x in m.proj {
      CountOneTo(m.n, m, x, Point(x, t), map[]);
    } else {
      CountNoProj(m, {x}, Point(x, t), map[]);
      var e: Asg := map[x := t];
      assert map[] + e == e;
      assert Witness({x}, Point(x, t), map[], e);
    }
  }

  lemma CountFree(m: Measure, x: Var)
    requires x < m.n
    ensures Count(m, {x}, e => true, map[]) == VarWeight(m, x)
  {
    var yes: Form := e => true;
    if x in m.proj {
      CountOneTo(m.n, m, x, yes, map[]);
    } else {
      CountNoProj(m, {x}, yes, map[]);
      var e: Asg := map[x := true];
      assert map[] + e == e;
      assert Witness({x}, yes, map[], e);
    }
  }

  ghost predicate Forces(vs: set<Var>, phi: Form, a: Asg, l: Lit) {
    forall e: Asg :: e.Keys == vs && phi(a + e) ==> TrueIn(l, e)
  }

  /** A literal true in every model can be fixed for its weight. */
  lemma FixUnit(m: Measure, vs: set<Var>, phi: Form, a: Asg, l: Lit)
    requires l.v in vs && l.v < m.n
    requires Forces(vs, phi, a, l)
    ensures Count(m, vs, phi, a) == LitWeight(m, l) * Count(m, vs - {l.v}, phi, a[l.v := !l.sign])
  {
    var x, t, vs' := l.v, !l.sign, vs - {l.v};
    ForcedFactors(vs, phi, a, l);
    Product(m, {x}, vs', phi, a, Point(x, t), map[], phi, a[x := t]);
    assert {x} + vs' == vs;
    CountPoint(m, x, t);
  }

  lemma ForcedFactors(vs: set<Var>, phi: Form, a: Asg, l: Lit)
    requires l.v in vs && Forces(vs, phi, a, l)
    ensures Factors({l.v}, vs - {l.v}, phi, a, Point(l.v, !l.sign), map[], phi, a[l.v := !l.sign])
  {
    var x, t, vs' := l.v, !l.sign, vs - {l.v};
    var a' := a[x := t];
    forall e1: Asg, e2: Asg | e1.Keys == {x} && e2.Keys == vs'
      ensures phi(a + (e1 + e2)) == (Point(x, t)(map[] + e1) && phi(a' + e2))
    {
      ForcedAt(vs, phi, a, l, e1, e2);
    }
  }

  lemma ForcedAt(vs: set<Var>, phi: Form, a: Asg, l: Lit, e1: Asg, e2: Asg)
    requires l.v in vs && Forces(vs, phi, a, l) && e1.Keys == {l.v} && e2.Keys == vs - {l.v}
    ensures phi(a + (e1 + e2)) == (Point(l.v, !l.sign)(map[] + e1) && phi(a[l.v := !l.sign] + e2))
  {
    assert (e1 + e2).Keys == vs;
    assert map[] + e1 == e1;
    assert phi(a + (e1 + e2)) ==> TrueIn(l, e1 + e2);
    if e1[l.v] == !l.sign {
      assert a + (e1 + e2) == a[l.v := !l.sign] + e2;
    }
  }

  ghost predicate Ignores(vs: set<Var>, phi: Form, a: Asg, x: Var) {
    forall e1: Asg, e2: Asg :: e1.Keys == {x} && e2.Keys == vs - {x} ==> phi(a + (e1 + e2)) == phi(a + e2)
  }

  /** A variable the formula does not look at contributes the sum of its weights. */
  lemma DropFree(m: Measure, vs: set<Var>, phi: Form, a: Asg, x: Var)
    requires x in vs && x < m.n
    requires Ignores(vs, phi, a, x)
    ensures Count(m, vs, phi, a) == VarWeight(m, x) * Count(m, vs - {x}, phi, a)
  {
    var yes: Form := e => true;
    assert Factors({x}, vs - {x}, phi, a, yes, map[], phi, a);
    Product(m, {x}, vs - {x}, phi, a, yes, map[], phi, a);
    assert {x} + (vs - {x}) == vs;
    CountFree(m, x);
  }
}
