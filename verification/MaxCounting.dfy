/**
  Maximising a weighted projected model count over a block of variables: the score of an
  assignment of the block, and how the best score reacts to the steps of a search.
*/
module MaxCounting {
  import opened Cnf
  import opened Counting
  import opened ModelSum

  ghost predicate NonNegative(m: Measure) {
    forall l :: m.weight(l) >= 0.0
  }

  /** The weight of the block's assignment times the count of what it leaves. */
  ghost function Score(m: Measure, block: set<Var>, vs: set<Var>, phi: Form, a: Asg, e: Asg): real {
    WeightTo(m.n, m, e) * Count(m, vs - block, phi, a + e)
  }

  ghost predicate Bounded(m: Measure, block: set<Var>, vs: set<Var>, phi: Form, a: Asg, r: real) {
    forall e: Asg :: e.Keys == vs * block ==> Score(m, block, vs, phi, a, e) <= r
  }

  /** `r` is the maximal score, and `val` attains it. */
  ghost predicate Best(m: Measure, block: set<Var>, vs: set<Var>, phi: Form, a: Asg, r: real, val: Asg) {
    && val.Keys == vs * block
    && Score(m, block, vs, phi, a, val) == r
    && Bounded(m, block, vs, phi, a, r)
  }

  // ---------- Signs ----------

  lemma {:induction false} WeightNonNegative(k: nat, m: Measure, p: Asg)
    requires NonNegative(m)
    ensures WeightTo(k, m, p) >= 0.0
  {
    if k != 0 {
      WeightNonNegative(k - 1, m, p);
      if k - 1 in p {
        TimesNonNegative(m.weight(Lit(k - 1, !p[k - 1])), WeightTo(k - 1, m, p));
      }
    }
  }

  lemma TimesNonNegative(x: real, y: real)
    requires x >= 0.0 && y >= 0.0
    ensures x * y >= 0.0
  {
  }

  lemma {:induction false} CountNonNegative(k: nat, m: Measure, vs: set<Var>, phi: Form, a: Asg)
    requires NonNegative(m)
    ensures CountTo(k, m, vs, phi, a) >= 0.0
  {
    hide Extends;
    if k != 0 {
      if k - 1 in vs && k - 1 in m.proj {
        CountNonNegative(k - 1, m, vs - {k - 1}, phi, a[k - 1 := true]);
        CountNonNegative(k - 1, m, vs - {k - 1}, phi, a[k - 1 := false]);
        TimesNonNegative(m.weight(Lit(k - 1, false)), CountTo(k - 1, m, vs - {k - 1}, phi, a[k - 1 := true]));
        TimesNonNegative(m.weight(Lit(k - 1, true)), CountTo(k - 1, m, vs - {k - 1}, phi, a[k - 1 := false]));
      } else {
        CountNonNegative(k - 1, m, vs, phi, a);
      }
    }
  }

  lemma ScoreNonNegative(m: Measure, block: set<Var>, vs: set<Var>, phi: Form, a: Asg, e: Asg)
    requires NonNegative(m)
    ensures Score(m, block, vs, phi, a, e) >= 0.0
  {
    hide CountTo, WeightTo;
    WeightNonNegative(m.n, m, e);
    CountNonNegative(m.n, m, vs - block, phi, a + e);
    TimesNonNegative(WeightTo(m.n, m, e), Count(m, vs - block, phi, a + e));
  }

  // ---------- Weights ----------

  lemma {:induction false} WeightJoin(k: nat, m: Measure, p: Asg, q: Asg)
    requires p.Keys !! q.Keys
    ensures WeightTo(k, m, p + q) == WeightTo(k, m, p) * WeightTo(k, m, q)
  {
    hide *;
    if k == 0 {
      WeightNone(m, p);
      WeightNone(m, q);
      WeightNone(m, p + q);
    } else {
      WeightJoin(k - 1, m, p, q);
      WeightStep(k, m, p);
      WeightStep(k, m, q);
      WeightStep(k, m, p + q);
      if k - 1 in p {
        JoinFirst(m.weight(Lit(k - 1, !p[k - 1])), WeightTo(k - 1, m, p), WeightTo(k - 1, m, q),
                  WeightTo(k - 1, m, p + q), WeightTo(k, m, p));
      } else if k - 1 in q {
        JoinSecond(m.weight(Lit(k - 1, !q[k - 1])), WeightTo(k - 1, m, p), WeightTo(k - 1, m, q),
                   WeightTo(k - 1, m, p + q), WeightTo(k, m, q));
      }
    }
  }

  lemma WeightNone(m: Measure, p: Asg)
    ensures WeightTo(0, m, p) == 1.0
  {
  }

  lemma WeightStep(k: nat, m: Measure, p: Asg)
    requires k > 0
    ensures WeightTo(k, m, p) == if k - 1 in p then m.weight(Lit(k - 1, !p[k - 1])) * WeightTo(k - 1, m, p) else WeightTo(k - 1, m, p)
  {
  }

  lemma JoinFirst(w: real, x: real, y: real, xy: real, wx: real)
    requires xy == x * y && wx == w * x
    ensures w * xy == wx * y
  {
    assert w * (x * y) == (w * x) * y;
  }

  lemma JoinSecond(w: real, x: real, y: real, xy: real, wy: real)
    requires xy == x * y && wy == w * y
    ensures w * xy == x * wy
  {
    assert w * (x * y) == x * (w * y);
  }

  lemma {:induction false} WeightEmpty(k: nat, m: Measure)
    ensures WeightTo(k, m, map[]) == 1.0
  {
    if k != 0 {
      WeightEmpty(k - 1, m);
    }
  }

  lemma {:induction false} WeightSingle(k: nat, m: Measure, x: Var, t: bool)
    ensures WeightTo(k, m, map[x := t]) == if x < k then m.weight(Lit(x, !t)) else 1.0
  {
    if k != 0 {
      WeightSingle(k - 1, m, x, t);
    }
  }

  // ---------- Congruence ----------

  lemma AgreeUnder(block: set<Var>, vs: set<Var>, phi: Form, a: Asg, psi: Form, b: Asg, e: Asg)
    requires Agree(vs, phi, a, psi, b) && e.Keys == vs * block
    ensures Agree(vs - block, phi, a + e, psi, b + e)
  {
    forall g: Asg | g.Keys == vs - block
      ensures phi(a + e + g) == psi(b + e + g)
    {
      assert (e + g).Keys == vs;
      assert a + e + g == a + (e + g) && b + e + g == b + (e + g);
    }
  }

  lemma ScoreCongruence(m: Measure, block: set<Var>, vs: set<Var>, phi: Form, a: Asg, psi: Form, b: Asg, e: Asg)
    requires Agree(vs, phi, a, psi, b) && e.Keys == vs * block
    ensures Score(m, block, vs, phi, a, e) == Score(m, block, vs, psi, b, e)
  {
    hide Agree, Count;
    AgreeUnder(block, vs, phi, a, psi, b, e);
    Congruence(m, vs - block, phi, a + e, psi, b + e);
  }

  lemma BestCongruence(m: Measure, block: set<Var>, vs: set<Var>, phi: Form, a: Asg, psi: Form, b: Asg, r: real, val: Asg)
    requires Agree(vs, phi, a, psi, b) && Best(m, block, vs, phi, a, r, val)
    ensures Best(m, block, vs, psi, b, r, val)
  {
    hide Agree, Score;
    ScoreCongruence(m, block, vs, phi, a, psi, b, val);
    forall e: Asg | e.Keys == vs * block
      ensures Score(m, block, vs, psi, b, e) <= r
    {
      ScoreCongruence(m, block, vs, phi, a, psi, b, e);
    }
  }

  // ---------- Independent parts ----------

  lemma FactorsUnder(block: set<Var>, v1: set<Var>, v2: set<Var>, phi: Form, a: Asg, p1: Form, a1: Asg, p2: Form, a2: Asg, e1: Asg, e2: Asg)
    requires Factors(v1, v2, phi, a, p1, a1, p2, a2) && v1 !! v2
    requires e1.Keys == v1 * block && e2.Keys == v2 * block
    ensures Factors(v1 - block, v2 - block, phi, a + (e1 + e2), p1, a1 + e1, p2, a2 + e2)
  {
    forall g1: Asg, g2: Asg | g1.Keys == v1 - block && g2.Keys == v2 - block
      ensures phi(a + (e1 + e2) + (g1 + g2)) == (p1(a1 + e1 + g1) && p2(a2 + e2 + g2))
    {
      Regroup(v1, v2, a, e1, e2, g1, g2);
      Associate(a1, e1, g1);
      Associate(a2, e2, g2);
      JoinKeys(block, v1, e1, g1);
      JoinKeys(block, v2, e2, g2);
    }
  }

  lemma JoinKeys(block: set<Var>, vs: set<Var>, e: Asg, g: Asg)
    requires e.Keys == vs * block && g.Keys == vs - block
    ensures (e + g).Keys == vs
  {
  }

  lemma Associate(a: Asg, e: Asg, g: Asg)
    ensures a + e + g == a + (e + g)
  {
  }

  lemma Regroup(v1: set<Var>, v2: set<Var>, a: Asg, e1: Asg, e2: Asg, g1: Asg, g2: Asg)
    requires v1 !! v2 && e1.Keys + g1.Keys <= v1 && e2.Keys + g2.Keys <= v2
    ensures a + (e1 + e2) + (g1 + g2) == a + ((e1 + g1) + (e2 + g2))
  {
    Associate(a, e1 + e2, g1 + g2);
    assert forall v :: v in g1 ==> v !in e2;
    assert e1 + e2 + (g1 + g2) == (e1 + g1) + (e2 + g2);
  }

  lemma ScoreProduct(m: Measure, block: set<Var>, v1: set<Var>, v2: set<Var>, phi: Form, a: Asg, p1: Form, a1: Asg, p2: Form, a2: Asg, e1: Asg, e2: Asg)
    requires Factors(v1, v2, phi, a, p1, a1, p2, a2) && v1 !! v2
    requires e1.Keys == v1 * block && e2.Keys == v2 * block
    ensures (e1 + e2).Keys == (v1 + v2) * block
    ensures Score(m, block, v1 + v2, phi, a, e1 + e2) == Score(m, block, v1, p1, a1, e1) * Score(m, block, v2, p2, a2, e2)
  {
    hide *;
    BlockKeys(block, v1, v2, e1, e2);
    ScoreIs(m, block, v1 + v2, phi, a, e1 + e2);
    ScoreIs(m, block, v1, p1, a1, e1);
    ScoreIs(m, block, v2, p2, a2, e2);
    FactorsUnder(block, v1, v2, phi, a, p1, a1, p2, a2, e1, e2);
    Product(m, v1 - block, v2 - block, phi, a + (e1 + e2), p1, a1 + e1, p2, a2 + e2);
    WeightJoin(m.n, m, e1, e2);
    Interchange(WeightTo(m.n, m, e1), WeightTo(m.n, m, e2),
                Count(m, v1 - block, p1, a1 + e1), Count(m, v2 - block, p2, a2 + e2),
                WeightTo(m.n, m, e1 + e2), Count(m, v1 + v2 - block, phi, a + (e1 + e2)),
                Score(m, block, v1 + v2, phi, a, e1 + e2), Score(m, block, v1, p1, a1, e1), Score(m, block, v2, p2, a2, e2));
  }

  lemma BlockKeys(block: set<Var>, v1: set<Var>, v2: set<Var>, e1: Asg, e2: Asg)
    requires v1 !! v2 && e1.Keys == v1 * block && e2.Keys == v2 * block
    ensures (e1 + e2).Keys == (v1 + v2) * block
    ensures v1 + v2 - block == (v1 - block) + (v2 - block)
    ensures v1 - block !! v2 - block && e1.Keys !! e2.Keys
  {
  }

  lemma ScoreIs(m: Measure, block: set<Var>, vs: set<Var>, phi: Form, a: Asg, e: Asg)
    ensures Score(m, block, vs, phi, a, e) == WeightTo(m.n, m, e) * Count(m, vs - block, phi, a + e)
  {
  }

  lemma Interchange(w1: real, w2: real, c1: real, c2: real, w: real, c: real, s: real, s1: real, s2: real)
    requires w == w1 * w2 && c == c1 * c2 && s == w * c && s1 == w1 * c1 && s2 == w2 * c2
    ensures s == s1 * s2
  {
    assert (w1 * w2) * (c1 * c2) == (w1 * c1) * (w2 * c2);
  }

  lemma TimesMonotone(x: real, y: real, r: real, s: real)
    requires 0.0 <= x <= r && 0.0 <= y <= s
    ensures x * y <= r * s
  {
    assert x * y <= x * s;
    assert x * s <= r * s;
  }

  /** The maximum distributes over independent parts because scores are not negative. */
  lemma BestProduct(m: Measure, block: set<Var>, v1: set<Var>, v2: set<Var>, phi: Form, a: Asg, p1: Form, a1: Asg, p2: Form, a2: Asg,
      r1: real, val1: Asg, r2: real, val2: Asg, r: real)
    requires r == r1 * r2
    requires NonNegative(m) && Factors(v1, v2, phi, a, p1, a1, p2, a2) && v1 !! v2
    requires Best(m, block, v1, p1, a1, r1, val1) && Best(m, block, v2, p2, a2, r2, val2)
    ensures Best(m, block, v1 + v2, phi, a, r, val1 + val2)
  {
    hide Score, Factors, NonNegative;
    ScoreProduct(m, block, v1, v2, phi, a, p1, a1, p2, a2, val1, val2);
    forall e: Asg | e.Keys == (v1 + v2) * block
      ensures Score(m, block, v1 + v2, phi, a, e) <= r
    {
      ProductBounded(m, block, v1, v2, phi, a, p1, a1, p2, a2, r1, r2, e);
    }
  }

  lemma ProductBounded(m: Measure, block: set<Var>, v1: set<Var>, v2: set<Var>, phi: Form, a: Asg, p1: Form, a1: Asg, p2: Form, a2: Asg,
      r1: real, r2: real, e: Asg)
    requires NonNegative(m) && Factors(v1, v2, phi, a, p1, a1, p2, a2) && v1 !! v2
    requires Bounded(m, block, v1, p1, a1, r1) && Bounded(m, block, v2, p2, a2, r2)
    requires e.Keys == (v1 + v2) * block
    ensures Score(m, block, v1 + v2, phi, a, e) <= r1 * r2
  {
    hide Score, Factors, NonNegative;
    var e1, e2 := Restrict(e, v1 * block), Restrict(e, v2 * block);
    assert e == e1 + e2;
    ScoreProduct(m, block, v1, v2, phi, a, p1, a1, p2, a2, e1, e2);
    ScoreNonNegative(m, block, v1, p1, a1, e1);
    ScoreNonNegative(m, block, v2, p2, a2, e2);
    TimesMonotone(Score(m, block, v1, p1, a1, e1), Score(m, block, v2, p2, a2, e2), r1, r2);
  }

  /** The part of an assignment over `vs`. */
  function Restrict(e: Asg, vs: set<Var>): (r: Asg)
    ensures vs <= e.Keys ==> r.Keys == vs
  {
    map x | x in e && x in vs :: e[x]
  }

  // ---------- Single variables ----------

  function PointValue(block: set<Var>, x: Var, t: bool): Asg {
    if x in block then map[x := t] else map[]
  }

  /** The weight of fixing a literal: block and projected literals weigh, hidden ones do not. */
  function FixWeight(m: Measure, block: set<Var>, l: Lit): real {
    if l.v in block then m.weight(l) else LitWeight(m, l)
  }

  lemma ScoreOfPoint(m: Measure, block: set<Var>, x: Var, phi: Form, b: bool)
    requires x < m.n && x in block
    ensures Score(m, block, {x}, phi, map[], map[x := b]) == if phi(map[x := b]) then m.weight(Lit(x, !b)) else 0.0
  {
    assert {x} - block == {};
    var e: Asg := map[x := b];
    assert map[] + e == e;
    CountNoProj(m, {}, phi, e);
    ExtendsNone(phi, e);
    WeightSingle(m.n, m, x, b);
  }

  lemma ScoreOffBlock(m: Measure, block: set<Var>, vs: set<Var>, phi: Form, a: Asg)
    requires vs !! block
    ensures Score(m, block, vs, phi, a, map[]) == Count(m, vs, phi, a)
  {
    hide Count, WeightTo;
    assert vs - block == vs;
    assert a + map[] == a;
    WeightEmpty(m.n, m);
  }

  /** Without variables of the block, the best score is the count. */
  lemma BestOffBlock(m: Measure, block: set<Var>, vs: set<Var>, phi: Form, a: Asg)
    requires vs !! block
    ensures Best(m, block, vs, phi, a, Count(m, vs, phi, a), map[])
  {
    hide Score, Count;
    ScoreOffBlock(m, block, vs, phi, a);
    assert vs * block == {};
    assert forall e: Asg :: e.Keys == {} ==> e == map[];
  }

  lemma OneOfTwo(x: Var, e: Asg)
    requires e.Keys == {x}
    ensures e == map[x := true] || e == map[x := false]
  {
    if e[x] {
      assert e == map[x := true];
    } else {
      assert e == map[x := false];
    }
  }

  lemma BestPoint(m: Measure, block: set<Var>, x: Var, t: bool)
    requires NonNegative(m) && x < m.n
    ensures Best(m, block, {x}, Point(x, t), map[], FixWeight(m, block, Lit(x, !t)), PointValue(block, x, t))
  {
    hide Score, Count, LitWeight;
    if x in block {
      ScoreOfPoint(m, block, x, Point(x, t), true);
      ScoreOfPoint(m, block, x, Point(x, t), false);
      assert {x} * block == {x};
      forall e: Asg | e.Keys == {x}
        ensures Score(m, block, {x}, Point(x, t), map[], e) <= m.weight(Lit(x, !t))
      {
        OneOfTwo(x, e);
      }
    } else {
      BestOffBlock(m, block, {x}, Point(x, t), map[]);
      CountPoint(m, x, t);
    }
  }

  /** The literal of `x` that weighs most. */
  function Heavier(m: Measure, x: Var): Lit {
    if m.weight(Lit(x, false)) < m.weight(Lit(x, true)) then Lit(x, true) else Lit(x, false)
  }

  function FreeWeight(m: Measure, block: set<Var>, x: Var): real {
    if x in block then m.weight(Heavier(m, x)) else VarWeight(m, x)
  }

  lemma BestAnything(m: Measure, block: set<Var>, x: Var)
    requires x < m.n
    ensures Best(m, block, {x}, e => true, map[], FreeWeight(m, block, x), PointValue(block, x, !Heavier(m, x).sign))
  {
    hide Score, Count, VarWeight;
    var yes: Form := e => true;
    if x in block {
      ScoreOfPoint(m, block, x, yes, true);
      ScoreOfPoint(m, block, x, yes, false);
      assert {x} * block == {x};
      forall e: Asg | e.Keys == {x}
        ensures Score(m, block, {x}, yes, map[], e) <= m.weight(Heavier(m, x))
      {
        OneOfTwo(x, e);
      }
    } else {
      BestOffBlock(m, block, {x}, yes, map[]);
      CountFree(m, x);
    }
  }

  // ---------- Branching ----------

  ghost predicate Conditioned(vs: set<Var>, phi: Form, p: Form, a: Asg, l: Lit) {
    forall e: Asg :: e.Keys == vs ==> p(a + e) == (phi(a + e) && TrueIn(l, e))
  }

  lemma ScoreConditioned(m: Measure, block: set<Var>, vs: set<Var>, phi: Form, p: Form, a: Asg, l: Lit, e: Asg)
    requires Conditioned(vs, phi, p, a, l) && l.v in vs * block && e.Keys == vs * block
    ensures Score(m, block, vs, p, a, e) == if TrueIn(l, e) then Score(m, block, vs, phi, a, e) else 0.0
  {
    forall g: Asg | g.Keys == vs - block
      ensures p(a + e + g) == (phi(a + e + g) && TrueIn(l, e))
    {
      assert (e + g).Keys == vs;
      assert a + e + g == a + (e + g);
      assert TrueIn(l, e + g) == TrueIn(l, e);
    }
    hide Conditioned;
    if TrueIn(l, e) {
      Congruence(m, vs - block, p, a + e, phi, a + e);
    } else {
      CountZero(m, vs - block, p, a + e);
    }
  }

  lemma OneHolds(l: Lit, e: Asg)
    requires l.v in e
    ensures TrueIn(l, e) <==> !TrueIn(l.Neg(), e)
  {
  }

  lemma BranchBounded(m: Measure, block: set<Var>, vs: set<Var>, phi: Form, p1: Form, p2: Form, a: Asg, l: Lit, r: real)
    requires Conditioned(vs, phi, p1, a, l) && Conditioned(vs, phi, p2, a, l.Neg()) && l.v in vs * block
    requires Bounded(m, block, vs, p1, a, r) && Bounded(m, block, vs, p2, a, r)
    ensures Bounded(m, block, vs, phi, a, r)
  {
    hide Score, Conditioned, TrueIn;
    forall e: Asg | e.Keys == vs * block
      ensures Score(m, block, vs, phi, a, e) <= r
    {
      OneHolds(l, e);
      ScoreConditioned(m, block, vs, phi, p1, a, l, e);
      ScoreConditioned(m, block, vs, phi, p2, a, l.Neg(), e);
    }
  }

  lemma BoundedUp(m: Measure, block: set<Var>, vs: set<Var>, phi: Form, a: Asg, r: real, s: real)
    requires Bounded(m, block, vs, phi, a, r) && r <= s
    ensures Bounded(m, block, vs, phi, a, s)
  {
  }

  /** The winner of the two branches is the best overall. */
  lemma BestBranch(m: Measure, block: set<Var>, vs: set<Var>, phi: Form, p1: Form, p2: Form, a: Asg, l: Lit, r: real, r2: real, val: Asg)
    requires NonNegative(m)
    requires Conditioned(vs, phi, p1, a, l) && Conditioned(vs, phi, p2, a, l.Neg()) && l.v in vs * block
    requires Best(m, block, vs, p1, a, r, val) && Bounded(m, block, vs, p2, a, r2) && r2 <= r
    ensures Best(m, block, vs, phi, a, r, val)
  {
    hide Score, Conditioned, TrueIn, Bounded, NonNegative;
    BoundedUp(m, block, vs, p2, a, r2, r);
    BranchBounded(m, block, vs, phi, p1, p2, a, l, r);
    ScoreConditioned(m, block, vs, phi, p1, a, l, val);
    ScoreNonNegative(m, block, vs, phi, a, val);
    AtMost(m, block, vs, phi, a, r, val);
  }

  lemma AtMost(m: Measure, block: set<Var>, vs: set<Var>, phi: Form, a: Asg, r: real, e: Asg)
    requires Bounded(m, block, vs, phi, a, r) && e.Keys == vs * block
    ensures Score(m, block, vs, phi, a, e) <= r
  {
  }
}
