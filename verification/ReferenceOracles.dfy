/**
  What is asked of solver, heuristic and encoder can be met: answers computed from their
  meaning, with an encoder that writes one byte per variable.
*/
module ReferenceOracles {
  import opened FiniteSets
  import opened Cnf
  import opened Counting
  import opened Residual
  import opened Operation
  import opened DataInfos
  import opened Caching
  import opened Search
  import opened CounterSetup
  import opened ProjMc
  import opened ProjRun

  // ---------- Units and decisions ----------

  function AssumedIn(a: seq<Lit>, vars: seq<Var>): seq<Lit> {
    if a == [] then [] else (if a[0].v in vars then [a[0]] else []) + AssumedIn(a[1..], vars)
  }

  lemma {:induction false} AssumedInHolds(a: seq<Lit>, vars: seq<Var>)
    ensures forall l :: l in AssumedIn(a, vars) <==> l in a && l.v in vars
    ensures DistinctVars(a) ==> DistinctVars(AssumedIn(a, vars))
  {
    if a != [] {
      AssumedInHolds(a[1..], vars);
      assert a == [a[0]] + a[1..];
      assert DistinctVars(a) ==> forall l :: l in a[1..] ==> l.v != a[0].v;
    }
  }

  function FirstDecision(p: Problem, vars: seq<Var>): seq<Lit> {
    if vars == [] then []
    else if p.IsDecisionVariable(vars[0]) then [Lit(vars[0], false)]
    else FirstDecision(p, vars[1..])
  }

  lemma {:induction false} FirstDecisionHolds(p: Problem, vars: seq<Var>)
    ensures Selection(p, vars, FirstDecision(p, vars))
  {
    if vars != [] {
      FirstDecisionHolds(p, vars[1..]);
      assert vars == [vars[0]] + vars[1..];
    }
  }

  // ---------- The encoder ----------

  /** The largest data size a header can record. */
  const SIZE: nat := 0x1F_FFFF

  /** What becomes of a variable. */
  datatype Mark = Unset | Inside | True | False

  function MarkOf(trail: Asg, vars: seq<Var>, v: Var): Mark {
    if v in vars then Inside else if v !in trail then Unset else if trail[v] then True else False
  }

  function ByteOf(m: Mark): bv8 {
    match m
    case Unset => 0
    case Inside => 1
    case True => 2
    case False => 3
  }

  lemma BytesApart(m: Mark, k: Mark)
    ensures ByteOf(m) == ByteOf(k) ==> m == k
  {
  }

  function Marks(trail: Asg, vars: seq<Var>): Bytes {
    seq(SIZE, v requires 0 <= v < SIZE => ByteOf(MarkOf(trail, vars, v)))
  }

  function Header(): DataInfo { Pack(FIELD, 1, 0, 0) }

  function Key(trail: Asg, vars: seq<Var>): CachedBucket<real> {
    CachedBucket(Marks(trail, vars), Header(), 0.0)
  }

  lemma HeaderIs()
    ensures Header().SzData() as nat == SIZE && Header().NbVar() != 0
  {
  }

  lemma KeySized(trail: Asg, vars: seq<Var>)
    ensures Key(trail, vars).Sized() && Key(trail, vars).Live()
  {
    hide Header, MarkOf, ByteOf;
    HeaderIs();
  }

  lemma SameMark(t1: Asg, v1: seq<Var>, t2: Asg, v2: seq<Var>, v: Var)
    requires Marks(t1, v1) == Marks(t2, v2) && v < SIZE
    ensures MarkOf(t1, v1, v) == MarkOf(t2, v2, v)
  {
    hide MarkOf, ByteOf;
    assert Marks(t1, v1)[v] == Marks(t2, v2)[v];
    BytesApart(MarkOf(t1, v1, v), MarkOf(t2, v2, v));
  }

  ghost predicate SameMarks(n: nat, t1: Asg, v1: seq<Var>, t2: Asg, v2: seq<Var>) {
    forall v: Var :: v < n ==> MarkOf(t1, v1, v) == MarkOf(t2, v2, v)
  }

  lemma KeyTells(p: Problem, t1: Asg, v1: seq<Var>, t2: Asg, v2: seq<Var>)
    requires p.Consistent() && p.nbVar < SIZE
    requires Cacheable(p, t1, v1) && Cacheable(p, t2, v2) && SameKey(Key(t1, v1), Key(t2, v2))
    ensures Elements(v1) == Elements(v2)
    ensures OpenClauses(p.clauses, Elements(v1), t1) == OpenClauses(p.clauses, Elements(v2), t2)
  {
    var n := p.nbVar + 1;
    assert SameMarks(n, t1, v1, t2, v2) by {
      hide MarkOf, Header;
      forall v: Var | v < n
        ensures MarkOf(t1, v1, v) == MarkOf(t2, v2, v)
      {
        SameMark(t1, v1, t2, v2, v);
      }
    }
    SameVars(n, t1, v1, t2, v2);
    SameOpen(p, t1, v1, t2, v2);
  }

  lemma SameVars(n: nat, t1: Asg, v1: seq<Var>, t2: Asg, v2: seq<Var>)
    requires SameMarks(n, t1, v1, t2, v2)
    requires (forall v: Var :: v in Elements(v1) ==> v < n) && forall v: Var :: v in Elements(v2) ==> v < n
    ensures Elements(v1) == Elements(v2)
  {
    forall v: Var
      ensures v in v1 <==> v in v2
    {
      assert v in v1 ==> v in Elements(v1);
      assert v in v2 ==> v in Elements(v2);
      assert v < n ==> MarkOf(t1, v1, v) == MarkOf(t2, v2, v);
    }
  }

  lemma SameOpen(p: Problem, t1: Asg, v1: seq<Var>, t2: Asg, v2: seq<Var>)
    requires p.Consistent() && SameMarks(p.nbVar + 1, t1, v1, t2, v2) && Elements(v1) == Elements(v2)
    requires Elements(v1) !! t1.Keys && Elements(v2) !! t2.Keys
    ensures OpenClauses(p.clauses, Elements(v1), t1) == OpenClauses(p.clauses, Elements(v2), t2)
  {
    hide SatClause, Touches;
    forall c | c in p.clauses
      ensures (SatClause(c, t1) <==> SatClause(c, t2)) && Rest(c, t1) == Rest(c, t2)
    {
      SameTruth(p, t1, v1, t2, v2, c);
    }
  }

  lemma SameTruth(p: Problem, t1: Asg, v1: seq<Var>, t2: Asg, v2: seq<Var>, c: Clause)
    requires p.Consistent() && c in p.clauses && SameMarks(p.nbVar + 1, t1, v1, t2, v2)
    requires Elements(v1) == Elements(v2) && Elements(v1) !! t1.Keys && Elements(v2) !! t2.Keys
    ensures (SatClause(c, t1) <==> SatClause(c, t2)) && Rest(c, t1) == Rest(c, t2)
  {
    forall l | l in c
      ensures l.v in t1 <==> l.v in t2
      ensures l.v in t1 ==> t1[l.v] == t2[l.v]
    {
      assert MarkOf(t1, v1, l.v) == MarkOf(t2, v2, l.v);
      assert l.v in v1 <==> l.v in Elements(v1);
      assert l.v in v2 <==> l.v in Elements(v2);
    }
    assert forall i :: 0 <= i < |c| ==> c[i] in c;
  }

  // ---------- All answers ----------

  ghost function Answers(p: Problem): Oracles {
    Oracles(
      (t, a, trail, vars) => Satisfiable(p.clauses, Elements(vars), Lits(a), trail),
      (t, a, trail, vars) => AssumedIn(a, vars),
      (t, trail, vars) => FirstDecision(p, vars),
      Key,
      (t, vars) => true)
  }

  lemma AnswersOk(p: Problem, limit: nat)
    requires p.Consistent()
    ensures OraclesOk(p, Answers(p))
    ensures p.nbVar < SIZE || limit == 0 ==> BucketOk(p, Answers(p), limit)
  {
    assert SolveOk(p, Answers(p)) && WarmOk(p, Answers(p)) by { hide Satisfiable, Key; }
    assert UnitsOk(p, Answers(p)) by { UnitsAnswered(p); }
    assert SelectOk(p, Answers(p)) by { SelectAnswered(p); }
    if p.nbVar < SIZE || limit == 0 {
      BucketAnswered(p, limit);
    }
  }

  lemma UnitsAnswered(p: Problem)
    ensures UnitsOk(p, Answers(p))
  {
    hide Satisfiable, Key;
    forall a: seq<Lit>, trail: Asg, vars: seq<Var> | Ready(p, a, trail, vars)
      ensures UnitsOf(p, a, trail, vars, AssumedIn(a, vars))
    {
      AssumedInHolds(a, vars);
      assert forall l: Lit :: l.v in vars ==> l.v in Elements(vars);
    }
  }

  lemma SelectAnswered(p: Problem)
    ensures SelectOk(p, Answers(p))
  {
    hide Satisfiable, Key;
    forall t: nat, trail: Asg, vars: seq<Var>
      ensures Selection(p, vars, Answers(p).select(t, trail, vars))
    {
      FirstDecisionHolds(p, vars);
    }
  }

  lemma BucketAnswered(p: Problem, limit: nat)
    requires p.Consistent() && (p.nbVar < SIZE || limit == 0)
    ensures BucketOk(p, Answers(p), limit)
  {
    if limit == 0 {
      return;
    }
    hide Key, Cacheable, Problem.Consistent, OpenClauses;
    var o := Answers(p);
    forall trail: Asg, vars: seq<Var>
      ensures o.bucket(trail, vars).Sized() && o.bucket(trail, vars).Live()
    {
      KeySized(trail, vars);
    }
    forall t1: Asg, v1: seq<Var>, t2: Asg, v2: seq<Var> | Asked(p, limit, t1, v1) && Asked(p, limit, t2, v2) && SameKey(o.bucket(t1, v1), o.bucket(t2, v2))
      ensures Elements(v1) == Elements(v2) && OpenClauses(p.clauses, Elements(v1), t1) == OpenClauses(p.clauses, Elements(v2), t2)
    {
      KeyTells(p, t1, v1, t2, v2);
    }
  }

  // ---------- Models ----------

  ghost function SomeModel(p: Problem, a: seq<Lit>, trail: Asg, vars: seq<Var>): Asg {
    if Satisfiable(p.clauses, Elements(vars), Lits(a), trail) then
      var e: Asg :| Witness(Elements(vars), Res(p.clauses, Elements(vars), Lits(a)), trail, e);
      trail + e
    else trail
  }

  lemma SomeModelOk(p: Problem)
    ensures ModelsOk(p, (t, a, trail, vars) => SomeModel(p, a, trail, vars))
  {
    forall a: seq<Lit>, trail: Asg, vars: seq<Var> | Ready(p, a, trail, vars) && Satisfiable(p.clauses, Elements(vars), Lits(a), trail)
      ensures ModelOf(p, Elements(vars), Lits(a), trail, SomeModel(p, a, trail, vars))
    {
      hide Closed, SatClause;
    }
  }

  /** The settings of these answers, with or without a cache. */
  ghost function Reference(optCached: bool): ProjSettings {
    ProjSettings(
      Settings(Answers, CACHE_LIST, (data, info) => 0, Cleaning(tick => false, (tick, b) => false, tick => 0), optCached),
      p => (t, a, trail, vars) => SomeModel(p, a, trail, vars), false)
  }

  /**
    Without a cache some settings are right for the problems of any size, with one for all problems of fewer
    variables than a header can count bytes.
  */
  lemma SettingsExist(optCached: bool, n: nat)
    ensures n < SIZE || !optCached ==> SettingsOk(Reference(optCached).counter, n)
    ensures n < SIZE ==> ProjSettingsOk(Reference(optCached), n)
  {
    hide Answers, OraclesOk, BucketOk, ModelsOk, SomeModel, Problem.Consistent;
    var s := Reference(optCached);
    forall p: Problem | p.Consistent() && p.nbVar <= n
      ensures OraclesOk(p, s.counter.oracles(p)) && ModelsOk(p, s.models(p))
      ensures n < SIZE || !optCached ==> BucketOk(p, s.counter.oracles(p), Limit(p, s.counter))
      ensures n < SIZE ==> BucketOk(p, s.counter.oracles(p), p.nbVar)
    {
      AnswersOk(p, Limit(p, s.counter));
      AnswersOk(p, p.nbVar);
      SomeModelOk(p);
    }
  }
}
