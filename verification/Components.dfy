/** Splitting the open part of a formula into variable-disjoint components. */
module Components {
  import opened FiniteSets
  import opened Cnf
  import opened Counting
  import opened Residual

  /** The variables of the components from index `i` on. */
  ghost function UnionFrom(comps: seq<seq<Var>>, i: nat): set<Var>
    requires i <= |comps|
    decreases |comps| - i
  {
    if i == |comps| then {} else Elements(comps[i]) + UnionFrom(comps, i + 1)
  }

  ghost predicate InSomeComponent(comps: seq<seq<Var>>, x: Var) {
    exists i :: 0 <= i < |comps| && x in comps[i]
  }

  ghost predicate Unassigned(x: Var, vars: seq<Var>, trail: Asg) {
    x in vars && x !in trail
  }

  /** What the counter needs of a split of the unassigned variables of `vars`. */
  ghost predicate IsSplit(f: Formula, vars: seq<Var>, trail: Asg, comps: seq<seq<Var>>, free: seq<Var>) {
    && NoDup(free)
    && (forall i :: 0 <= i < |comps| ==> comps[i] != [] && NoDup(comps[i]))
    && (forall i, j, x: Var :: 0 <= i < j < |comps| && x in comps[i] ==> x !in comps[j])
    && (forall i, x: Var :: 0 <= i < |comps| && x in comps[i] ==> x !in free)
    && (forall x: Var :: Unassigned(x, vars, trail) <==> x in free || InSomeComponent(comps, x))
    && (forall x: Var :: x in free ==> FreeIn(f, trail, x))
    && (forall i, j :: 0 <= i < j < |comps| ==> Separated(f, Elements(comps[i]), Elements(comps[j]), trail))
  }

  /** The product of the counts of the components from index `i` on. */
  ghost function CompsCount(m: Measure, f: Formula, trail: Asg, comps: seq<seq<Var>>, i: nat): real
    requires i <= |comps|
    decreases |comps| - i
  {
    if i == |comps| then 1.0
    else ResCount(m, f, Elements(comps[i]), {}, trail) * CompsCount(m, f, trail, comps, i + 1)
  }

  lemma {:induction false} InUnionFrom(comps: seq<seq<Var>>, i: nat, x: Var)
    requires i <= |comps|
    ensures x in UnionFrom(comps, i) <==> exists j :: i <= j < |comps| && x in comps[j]
    decreases |comps| - i
  {
    if i < |comps| {
      InUnionFrom(comps, i + 1, x);
    }
  }

  lemma UnionSeparated(f: Formula, vars: seq<Var>, trail: Asg, comps: seq<seq<Var>>, free: seq<Var>, i: nat)
    requires IsSplit(f, vars, trail, comps, free) && i < |comps|
    ensures Elements(comps[i]) !! UnionFrom(comps, i + 1)
    ensures Separated(f, Elements(comps[i]), UnionFrom(comps, i + 1), trail)
  {
    forall x | x in Elements(comps[i])
      ensures x !in UnionFrom(comps, i + 1)
    {
      InUnionFrom(comps, i + 1, x);
    }
    forall c | c in f && !SatClause(c, trail) && Touches(c, Elements(comps[i]))
      ensures !Touches(c, UnionFrom(comps, i + 1))
    {
      forall l | l in c
        ensures l.v !in UnionFrom(comps, i + 1)
      {
        InUnionFrom(comps, i + 1, l.v);
        forall j | i + 1 <= j < |comps|
          ensures l.v !in comps[j]
        {
          assert Separated(f, Elements(comps[i]), Elements(comps[j]), trail);
        }
      }
    }
  }

  /** The components of a split count independently of each other. */
  lemma {:induction false} ComponentsMultiply(m: Measure, f: Formula, vars: seq<Var>, trail: Asg,
      comps: seq<seq<Var>>, free: seq<Var>, i: nat)
    requires IsSplit(f, vars, trail, comps, free) && i <= |comps|
    requires Open(f, m.n, UnionFrom(comps, i), trail)
    ensures ResCount(m, f, UnionFrom(comps, i), {}, trail) == CompsCount(m, f, trail, comps, i)
    ensures forall j :: i <= j < |comps| ==> Open(f, m.n, Elements(comps[j]), trail)
    ensures Satisfiable(f, UnionFrom(comps, i), {}, trail) ==>
      forall j :: i <= j < |comps| ==> Satisfiable(f, Elements(comps[j]), {}, trail)
    decreases |comps| - i
  {
    if i == |comps| {
      EmptyCount(m, f, trail);
    } else {
      UnionSeparated(f, vars, trail, comps, free, i);
      SplitLaw(m, f, Elements(comps[i]), UnionFrom(comps, i + 1), trail);
      ComponentsMultiply(m, f, vars, trail, comps, free, i + 1);
    }
  }

  lemma EmptyCount(m: Measure, f: Formula, trail: Asg)
    ensures ResCount(m, f, {}, {}, trail) == 1.0
  {
    var phi := Res(f, {}, {});
    assert phi(trail);
    ExtendsNone(phi, trail);
    CountNoProj(m, {}, phi, trail);
  }

  lemma FreePart(f: Formula, n: nat, vars: seq<Var>, trail: Asg, comps: seq<seq<Var>>, free: seq<Var>, vs: set<Var>)
    requires IsSplit(f, vars, trail, comps, free) && Open(f, n, vs, trail)
    requires forall x :: x in vs <==> Unassigned(x, vars, trail)
    ensures vs == Elements(free) + UnionFrom(comps, 0) && Elements(free) !! UnionFrom(comps, 0)
    ensures NoDup(free) && forall x :: x in free ==> x < n && x !in trail && FreeIn(f, trail, x)
  {
    forall x
      ensures x in vs <==> x in free || x in UnionFrom(comps, 0)
      ensures !(x in free && x in UnionFrom(comps, 0))
    {
      InUnionFrom(comps, 0, x);
    }
    assert forall x :: x in free ==> x in vs;
  }

  lemma FreeSeparated(f: Formula, trail: Asg, free: seq<Var>, v2: set<Var>)
    requires forall x :: x in free ==> FreeIn(f, trail, x)
    ensures Separated(f, Elements(free), v2, trail)
  {
    forall c | c in f && !SatClause(c, trail)
      ensures !Touches(c, Elements(free))
    {
      forall l | l in c
        ensures l.v !in free
      {
        assert Touches(c, {l.v});
      }
    }
  }

  /** Counting a split: the product of the free variables' weights and of the component counts. */
  lemma SplitCount(m: Measure, f: Formula, vars: seq<Var>, trail: Asg, comps: seq<seq<Var>>, free: seq<Var>, vs: set<Var>)
    requires IsSplit(f, vars, trail, comps, free)
    requires Open(f, m.n, vs, trail) && Satisfiable(f, vs, {}, trail)
    requires forall x :: x in vs <==> Unassigned(x, vars, trail)
    ensures ResCount(m, f, vs, {}, trail) == VarsWeight(m, free) * CompsCount(m, f, trail, comps, 0)
    ensures forall j :: 0 <= j < |comps| ==>
      Open(f, m.n, Elements(comps[j]), trail) && Satisfiable(f, Elements(comps[j]), {}, trail)
  {
    hide *;
    FreePart(f, m.n, vars, trail, comps, free, vs);
    FreeSeparated(f, trail, free, UnionFrom(comps, 0));
    SplitLaw(m, f, Elements(free), UnionFrom(comps, 0), trail);
    FreeLaw(m, f, free, trail);
    ComponentsMultiply(m, f, vars, trail, comps, free, 0);
    Replace(ResCount(m, f, vs, {}, trail), ResCount(m, f, Elements(free), {}, trail),
            ResCount(m, f, UnionFrom(comps, 0), {}, trail), VarsWeight(m, free), CompsCount(m, f, trail, comps, 0));
  }

  lemma Replace(x: real, a: real, b: real, c: real, d: real)
    requires x == a * b && a == c && b == d
    ensures x == c * d
  {
  }
}
