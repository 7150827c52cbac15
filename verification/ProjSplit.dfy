/**
  Separating the projected from the other variables of a CNF formula: every mixed clause
  Cp or Cn becomes Cp or s and Cn or not s, with one selector s per projected part.
*/
module ProjSplit {
  import opened Cnf

  /** The literals of `c` over the projected variables, and the others. */
  function ProjPart(c: Clause, proj: set<Var>): Clause {
    if c == [] then [] else (if c[0].v in proj then [c[0]] else []) + ProjPart(c[1..], proj)
  }

  function RestPart(c: Clause, proj: set<Var>): Clause {
    if c == [] then [] else (if c[0].v in proj then [] else [c[0]]) + RestPart(c[1..], proj)
  }

  lemma {:induction false} PartsHold(c: Clause, proj: set<Var>)
    ensures forall l :: l in ProjPart(c, proj) <==> l in c && l.v in proj
    ensures forall l :: l in RestPart(c, proj) <==> l in c && l.v !in proj
  {
    if c != [] {
      PartsHold(c[1..], proj);
      assert c == [c[0]] + c[1..];
    }
  }

  lemma SatIn(c: Clause, a: Asg)
    ensures SatClause(c, a) <==> exists l :: l in c && TrueIn(l, a)
  {
    if l :| l in c && TrueIn(l, a) {
      var i :| 0 <= i < |c| && c[i] == l;
      assert TrueIn(c[i], a);
    }
    if SatClause(c, a) {
      var i :| 0 <= i < |c| && TrueIn(c[i], a);
      assert c[i] in c;
    }
  }

  lemma PartsSatisfy(c: Clause, proj: set<Var>, a: Asg)
    ensures SatClause(c, a) <==> SatClause(ProjPart(c, proj), a) || SatClause(RestPart(c, proj), a)
  {
    PartsHold(c, proj);
    SatIn(c, a);
    SatIn(ProjPart(c, proj), a);
    SatIn(RestPart(c, proj), a);
  }

  lemma SnocSatisfies(c: Clause, l: Lit, a: Asg)
    ensures SatClause(c + [l], a) <==> SatClause(c, a) || TrueIn(l, a)
  {
    SatIn(c, a);
    SatIn(c + [l], a);
    assert l in c + [l];
  }

  predicate OnlyProj(c: Clause, proj: set<Var>) {
    c != [] && forall l :: l in c ==> l.v in proj
  }

  predicate NoProj(c: Clause, proj: set<Var>) {
    c != [] && forall l :: l in c ==> l.v !in proj
  }

  /** Neither purely projected nor free of projected variables; the empty clause counts as mixed. */
  predicate Mixed(c: Clause, proj: set<Var>) {
    !OnlyProj(c, proj) && !NoProj(c, proj)
  }

  function SelectorLit(v: Var): Lit { Lit(v, false) }

  /**
    The formula after the split.  `part` maps a selector to its projected part, `rest` to the
    indices of the remainders that hang on it, and `key` maps a projected part to its selector.
  */
  datatype Split = Split(
    proj: Formula, nproj: Formula,
    part: map<Var, Clause>, rest: map<Var, seq<nat>>, notProj: seq<(Clause, Lit)>, key: map<Clause, Var>)
  {
    function Clauses(): Formula { proj + nproj }
  }

  /** A projected part with its selector, and a remainder that hangs on a selector. */
  function Upper(p: Clause, v: Var): Clause { p + [SelectorLit(v)] }

  function Lower(r: Clause, v: Var): Clause { r + [SelectorLit(v).Neg()] }

  /** Selectors are fresh, and there is exactly one for every projected part. */
  ghost predicate Selectors(s: Split, nbVar: nat, nextVar: nat) {
    && s.rest.Keys == s.part.Keys
    && (forall v :: v in s.part <==> nbVar < v < nextVar)
    && (forall v :: v in s.part ==> s.part[v] in s.key && s.key[s.part[v]] == v)
    && (forall p :: p in s.key ==> s.key[p] in s.part && s.part[s.key[p]] == p)
  }

  /** The projected clauses are the given ones and the upper halves. */
  ghost predicate UppersExact(s: Split, proj0: Formula) {
    && (forall c :: c in proj0 ==> c in s.proj)
    && (forall v :: v in s.part ==> Upper(s.part[v], v) in s.proj)
    && (forall c :: c in s.proj && c !in proj0 ==> exists v :: v in s.part && c == Upper(s.part[v], v))
  }

  /** Mixed clause `i` is represented by the projected part of `owner[i]` and by its own remainder. */
  ghost predicate Represented(s: Split, proj: set<Var>, mix: Formula, owner: seq<Var>) {
    && |owner| == |mix| == |s.notProj|
    && (forall i :: 0 <= i < |mix| ==> owner[i] in s.part && s.part[owner[i]] == ProjPart(mix[i], proj))
    && (forall i :: 0 <= i < |mix| ==> s.notProj[i] == (RestPart(mix[i], proj), SelectorLit(owner[i])))
  }

  ghost predicate RestsExact(s: Split, owner: seq<Var>) {
    forall v, k: nat {:trigger RestAt(s, owner, v, k)} :: v in s.rest ==> RestAt(s, owner, v, k)
  }

  predicate RestAt(s: Split, owner: seq<Var>, v: Var, k: nat)
    requires v in s.rest
  {
    k in s.rest[v] <==> k < |owner| && owner[k] == v
  }

  /** The other clauses are the given ones and the lower halves. */
  ghost predicate LowersExact(s: Split, nproj0: Formula, owner: seq<Var>) {
    && |owner| == |s.notProj|
    && (forall c :: c in nproj0 ==> c in s.nproj)
    && (forall i :: 0 <= i < |owner| ==> Lower(s.notProj[i].0, owner[i]) in s.nproj)
    && (forall c :: c in s.nproj && c !in nproj0 ==> exists i :: 0 <= i < |owner| && c == Lower(s.notProj[i].0, owner[i]))
  }

  /** `owner` names the selector of every mixed clause. */
  ghost predicate IsSplitOf(s: Split, proj: set<Var>, nbVar: nat, nextVar: nat, proj0: Formula, nproj0: Formula, mix: Formula, owner: seq<Var>) {
    && Selectors(s, nbVar, nextVar)
    && UppersExact(s, proj0)
    && Represented(s, proj, mix, owner)
    && RestsExact(s, owner)
    && LowersExact(s, nproj0, owner)
  }

  function AddKey(s: Split, p: Clause, v: Var): Split {
    s.(key := s.key[p := v], part := s.part[v := p], rest := s.rest[v := []], proj := s.proj + [Upper(p, v)])
  }

  function AddRest(s: Split, r: Clause, v: Var): Split
    requires v in s.rest
  {
    s.(rest := s.rest[v := s.rest[v] + [|s.notProj|]], notProj := s.notProj + [(r, SelectorLit(v))], nproj := s.nproj + [Lower(r, v)])
  }

  lemma AddKeyKeeps(s: Split, proj: set<Var>, nbVar: nat, nextVar: nat, proj0: Formula, nproj0: Formula, mix: Formula, owner: seq<Var>, p: Clause)
    requires IsSplitOf(s, proj, nbVar, nextVar, proj0, nproj0, mix, owner) && p !in s.key && nbVar < nextVar
    ensures IsSplitOf(AddKey(s, p, nextVar), proj, nbVar, nextVar + 1, proj0, nproj0, mix, owner)
  {
    hide *;
    SplitParts(s, proj, nbVar, nextVar, proj0, nproj0, mix, owner);
    AddKeySelectors(s, nbVar, nextVar, p);
    AddKeyUppers(s, proj0, p, nextVar);
    AddKeyRest(s, proj, mix, owner, nproj0, p, nextVar);
    SplitWhole(AddKey(s, p, nextVar), proj, nbVar, nextVar + 1, proj0, nproj0, mix, owner);
  }

  lemma SplitParts(s: Split, proj: set<Var>, nbVar: nat, nextVar: nat, proj0: Formula, nproj0: Formula, mix: Formula, owner: seq<Var>)
    requires IsSplitOf(s, proj, nbVar, nextVar, proj0, nproj0, mix, owner)
    ensures Selectors(s, nbVar, nextVar) && UppersExact(s, proj0) && Represented(s, proj, mix, owner) && RestsExact(s, owner) && LowersExact(s, nproj0, owner)
    ensures nextVar !in s.part && s.rest.Keys == s.part.Keys
  {
    hide UppersExact, Represented, RestsExact, LowersExact;
  }

  lemma SplitWhole(s: Split, proj: set<Var>, nbVar: nat, nextVar: nat, proj0: Formula, nproj0: Formula, mix: Formula, owner: seq<Var>)
    requires Selectors(s, nbVar, nextVar) && UppersExact(s, proj0) && Represented(s, proj, mix, owner) && RestsExact(s, owner) && LowersExact(s, nproj0, owner)
    ensures IsSplitOf(s, proj, nbVar, nextVar, proj0, nproj0, mix, owner)
  {
    hide Selectors, UppersExact, Represented, RestsExact, LowersExact;
  }

  lemma AddKeyRest(s: Split, proj: set<Var>, mix: Formula, owner: seq<Var>, nproj0: Formula, p: Clause, v: Var)
    requires Represented(s, proj, mix, owner) && RestsExact(s, owner) && LowersExact(s, nproj0, owner) && v !in s.part && s.rest.Keys == s.part.Keys
    ensures Represented(AddKey(s, p, v), proj, mix, owner) && RestsExact(AddKey(s, p, v), owner) && LowersExact(AddKey(s, p, v), nproj0, owner)
  {
    hide ProjPart, RestPart, Upper, Lower;
    var t := AddKey(s, p, v);
    forall w, k: nat | w in t.rest
      ensures RestAt(t, owner, w, k)
    {
      assert k < |owner| ==> owner[k] in s.part;
      if w != v {
        assert w in s.rest && t.rest[w] == s.rest[w] && RestAt(s, owner, w, k);
      }
    }
  }

  lemma AddKeySelectors(s: Split, nbVar: nat, nextVar: nat, p: Clause)
    requires Selectors(s, nbVar, nextVar) && p !in s.key && nbVar < nextVar
    ensures Selectors(AddKey(s, p, nextVar), nbVar, nextVar + 1)
  {
  }

  lemma AddKeyUppers(s: Split, proj0: Formula, p: Clause, v: Var)
    requires UppersExact(s, proj0) && v !in s.part
    ensures UppersExact(AddKey(s, p, v), proj0)
  {
    var t := AddKey(s, p, v);
    hide Upper;
    forall c | c in t.proj && c !in proj0
      ensures exists w :: w in t.part && c == Upper(t.part[w], w)
    {
      if c in s.proj {
        var w :| w in s.part && c == Upper(s.part[w], w);
        assert w in t.part && t.part[w] == s.part[w];
      } else {
        assert v in t.part && c == Upper(t.part[v], v);
      }
    }
  }

  lemma AddRestKeeps(s: Split, proj: set<Var>, nbVar: nat, nextVar: nat, proj0: Formula, nproj0: Formula, mix: Formula, owner: seq<Var>, c: Clause, v: Var)
    requires IsSplitOf(s, proj, nbVar, nextVar, proj0, nproj0, mix, owner) && v in s.part && s.part[v] == ProjPart(c, proj)
    ensures IsSplitOf(AddRest(s, RestPart(c, proj), v), proj, nbVar, nextVar, proj0, nproj0, mix + [c], owner + [v])
  {
    hide *;
    SplitParts(s, proj, nbVar, nextVar, proj0, nproj0, mix, owner);
    AddRestRest(s, proj, nbVar, nextVar, proj0, mix, owner, c, v);
    AddRestRests(s, RestPart(c, proj), owner, v);
    AddRestLowers(s, nproj0, owner, RestPart(c, proj), v);
    SplitWhole(AddRest(s, RestPart(c, proj), v), proj, nbVar, nextVar, proj0, nproj0, mix + [c], owner + [v]);
  }

  lemma AddRestRest(s: Split, proj: set<Var>, nbVar: nat, nextVar: nat, proj0: Formula, mix: Formula, owner: seq<Var>, c: Clause, v: Var)
    requires Selectors(s, nbVar, nextVar) && UppersExact(s, proj0) && Represented(s, proj, mix, owner)
    requires v in s.part && s.part[v] == ProjPart(c, proj)
    ensures v in s.rest && |owner| == |s.notProj|
    ensures Selectors(AddRest(s, RestPart(c, proj), v), nbVar, nextVar) && UppersExact(AddRest(s, RestPart(c, proj), v), proj0)
    ensures Represented(AddRest(s, RestPart(c, proj), v), proj, mix + [c], owner + [v])
  {
    hide ProjPart, RestPart, Upper, Lower;
    var t := AddRest(s, RestPart(c, proj), v);
    assert t.part == s.part && t.key == s.key && t.proj == s.proj && t.rest.Keys == s.rest.Keys;
    assert Selectors(t, nbVar, nextVar) && UppersExact(t, proj0);
    hide Selectors, UppersExact;
    forall i | 0 <= i < |mix + [c]|
      ensures t.notProj[i] == (RestPart((mix + [c])[i], proj), SelectorLit((owner + [v])[i]))
    {
      if i < |mix| {
        assert t.notProj[i] == s.notProj[i];
      }
    }
  }

  lemma AddRestRests(s: Split, r: Clause, owner: seq<Var>, v: Var)
    requires RestsExact(s, owner) && v in s.rest && |owner| == |s.notProj|
    ensures RestsExact(AddRest(s, r, v), owner + [v])
  {
    var t, o := AddRest(s, r, v), owner + [v];
    forall w, k: nat | w in t.rest
      ensures RestAt(t, o, w, k)
    {
      assert w in s.rest && RestAt(s, owner, w, k);
      if w == v {
        assert t.rest[w] == s.rest[w] + [|owner|];
      }
    }
  }

  lemma AddRestLowers(s: Split, nproj0: Formula, owner: seq<Var>, r: Clause, v: Var)
    requires LowersExact(s, nproj0, owner) && v in s.rest
    ensures LowersExact(AddRest(s, r, v), nproj0, owner + [v])
  {
    var t, o := AddRest(s, r, v), owner + [v];
    hide Lower;
    forall c | c in t.nproj && c !in nproj0
      ensures exists i :: 0 <= i < |o| && c == Lower(t.notProj[i].0, o[i])
    {
      if c in s.nproj {
        var i :| 0 <= i < |owner| && c == Lower(s.notProj[i].0, owner[i]);
        assert t.notProj[i] == s.notProj[i] && o[i] == owner[i];
      } else {
        assert c == Lower(t.notProj[|owner|].0, o[|owner|]);
      }
    }
  }

  class Splitter {
    const proj: set<Var>
    const nbVar: nat

    var projClause: Formula
    var nprojClause: Formula
    var selectorToProjClause: map<Var, Clause>
    var selectorToNProjClause: map<Var, seq<nat>>
    var notProjClauses: seq<(Clause, Lit)>
    var mapProjClSelector: map<Clause, Var>

    constructor (proj: set<Var>, nbVar: nat)
      ensures this.proj == proj && this.nbVar == nbVar
      ensures selectorToProjClause == map[] && selectorToNProjClause == map[] && notProjClauses == [] && mapProjClSelector == map[]
    {
      this.proj, this.nbVar := proj, nbVar;
      projClause, nprojClause := [], [];
      selectorToProjClause, selectorToNProjClause := map[], map[];
      notProjClauses, mapProjClSelector := [], map[];
    }

    function Current(): Split
      reads this
    {
      Split(projClause, nprojClause, selectorToProjClause, selectorToNProjClause, notProjClauses, mapProjClSelector)
    }

    /** Distributes the clauses over the purely projected, the others and the mixed ones, in order. */
    method PartitionFormula(clauses: Formula) returns (mix: Formula)
      modifies this`projClause, this`nprojClause
      ensures projClause == Filter(clauses, c => OnlyProj(c, proj))
      ensures nprojClause == Filter(clauses, c => NoProj(c, proj))
      ensures mix == Filter(clauses, c => Mixed(c, proj))
    {
      projClause, nprojClause, mix := [], [], [];
      for i := 0 to |clauses|
        invariant projClause == Filter(clauses[..i], c => OnlyProj(c, proj))
        invariant nprojClause == Filter(clauses[..i], c => NoProj(c, proj))
        invariant mix == Filter(clauses[..i], c => Mixed(c, proj))
      {
        var cl := clauses[i];
        assert clauses[..i + 1][..i] == clauses[..i];
        var nbp, nbn := 0, 0;
        var k := 0;
        while k < |cl| && !(nbp > 0 && nbn > 0)
          invariant 0 <= k <= |cl|
          invariant nbp > 0 <==> exists j :: 0 <= j < k && cl[j].v in proj
          invariant nbn > 0 <==> exists j :: 0 <= j < k && cl[j].v !in proj
        {
          if cl[k].v in proj {
            nbp := nbp + 1;
          } else {
            nbn := nbn + 1;
          }
          k := k + 1;
        }
        Kinds(cl, proj, k, nbp > 0, nbn > 0);
        if nbp > 0 && nbn == 0 {
          projClause := projClause + [cl];
        } else if nbp == 0 && nbn > 0 {
          nprojClause := nprojClause + [cl];
        } else {
          mix := mix + [cl];
        }
      }
      assert clauses[..|clauses|] == clauses;
    }

    /** Splits the mixed clauses, sharing the selector of equal projected parts. */
    method ManageMixedClauses(mix: Formula, nextVar0: nat) returns (nextVar: nat, ghost owner: seq<Var>)
      requires nextVar0 == nbVar + 1
      requires selectorToProjClause == map[] && selectorToNProjClause == map[] && notProjClauses == [] && mapProjClSelector == map[]
      modifies this
      ensures IsSplitOf(Current(), proj, nbVar, nextVar, old(projClause), old(nprojClause), mix, owner)
      ensures PartsFrom(Current(), proj, mix) && nbVar < nextVar <= nbVar + 1 + |mix|
    {
      hide *;
      nextVar, owner := nextVar0, [];
      CurrentIs();
      NothingSplit(Current(), proj, nbVar);
      NoPartsFrom(Current(), proj, mix);
      assert mix[..0] == [];
      for i := 0 to |mix|
        invariant nbVar < nextVar <= nbVar + 1 + i && |owner| == i
        invariant IsSplitOf(Current(), proj, nbVar, nextVar, old(projClause), old(nprojClause), mix[..i], owner)
        invariant PartsFrom(Current(), proj, mix)
      {
        ghost var s0 := Current();
        CurrentIs();
        var clp, clnp := SplitClause(mix[i]);
        var s;
        if clp in mapProjClSelector {
          s := mapProjClSelector[clp];
        } else {
          AddKeyKeeps(s0, proj, nbVar, nextVar, old(projClause), old(nprojClause), mix[..i], owner, clp);
          s := nextVar;
          nextVar := nextVar + 1;
          mapProjClSelector := mapProjClSelector[clp := s];
          selectorToProjClause := selectorToProjClause[s := clp];
          selectorToNProjClause := selectorToNProjClause[s := []];
          projClause := projClause + [clp + [SelectorLit(s)]];
          AddKeyIs(s0, clp, s);
          AddKeyFrom(s0, proj, mix, i, s);
        }
        CurrentIs();
        ghost var s1 := Current();
        KeyOwned(s1, nbVar, nextVar, clp, proj, old(projClause), old(nprojClause), mix[..i], owner);
        AddRestKeeps(s1, proj, nbVar, nextVar, old(projClause), old(nprojClause), mix[..i], owner, mix[i], s);
        selectorToNProjClause := selectorToNProjClause[s := selectorToNProjClause[s] + [|notProjClauses|]];
        notProjClauses := notProjClauses + [(clnp, SelectorLit(s))];
        nprojClause := nprojClause + [clnp + [SelectorLit(s).Neg()]];
        AddRestIs(s1, clnp, s);
        AddRestFrom(s1, proj, mix, clnp, s);
        CurrentIs();
        assert mix[..i + 1] == mix[..i] + [mix[i]];
        owner := owner + [s];
      }
      assert mix[..|mix|] == mix;
    }

    lemma CurrentIs()
      ensures Current() == Split(projClause, nprojClause, selectorToProjClause, selectorToNProjClause, notProjClauses, mapProjClSelector)
    {
    }

    method SplitClause(cl: Clause) returns (clp: Clause, clnp: Clause)
      ensures clp == ProjPart(cl, proj) && clnp == RestPart(cl, proj)
    {
      clp, clnp := [], [];
      for k := 0 to |cl|
        invariant clp + ProjPart(cl[k..], proj) == ProjPart(cl, proj)
        invariant clnp + RestPart(cl[k..], proj) == RestPart(cl, proj)
      {
        assert cl[k..][1..] == cl[k + 1..];
        if cl[k].v !in proj {
          clnp := clnp + [cl[k]];
        } else {
          clp := clp + [cl[k]];
        }
      }
    }
  }

  function Filter<T>(s: seq<T>, p: T -> bool): seq<T> {
    if s == [] then [] else Filter(s[..|s| - 1], p) + if p(s[|s| - 1]) then [s[|s| - 1]] else []
  }

  lemma Kinds(c: Clause, proj: set<Var>, k: nat, nbp: bool, nbn: bool)
    requires k <= |c| && (k == |c| || (nbp && nbn))
    requires nbp <==> exists j :: 0 <= j < k && c[j].v in proj
    requires nbn <==> exists j :: 0 <= j < k && c[j].v !in proj
    ensures OnlyProj(c, proj) <==> nbp && !nbn
    ensures NoProj(c, proj) <==> !nbp && nbn
  {
    assert c != [] ==> c[0] in c;
    assert forall j :: 0 <= j < |c| ==> c[j] in c;
  }

  lemma NothingSplit(s: Split, proj: set<Var>, nbVar: nat)
    requires s.part == map[] && s.rest == map[] && s.notProj == [] && s.key == map[]
    ensures IsSplitOf(s, proj, nbVar, nbVar + 1, s.proj, s.nproj, [], [])
  {
  }

  /** Every projected part is the one of a mixed clause. */
  ghost predicate PartsFrom(s: Split, proj: set<Var>, mix: Formula) {
    forall v :: v in s.part ==> PartFrom(s.part[v], proj, mix)
  }

  ghost predicate PartFrom(p: Clause, proj: set<Var>, mix: Formula) {
    exists i :: 0 <= i < |mix| && p == ProjPart(mix[i], proj)
  }

  lemma NoPartsFrom(s: Split, proj: set<Var>, mix: Formula)
    requires s.part == map[]
    ensures PartsFrom(s, proj, mix)
  {
  }

  lemma AddKeyFrom(s: Split, proj: set<Var>, mix: Formula, i: nat, v: Var)
    requires PartsFrom(s, proj, mix) && i < |mix|
    ensures PartsFrom(AddKey(s, ProjPart(mix[i], proj), v), proj, mix)
  {
    hide ProjPart;
    assert PartFrom(ProjPart(mix[i], proj), proj, mix);
    hide PartFrom;
  }

  lemma AddRestFrom(s: Split, proj: set<Var>, mix: Formula, r: Clause, v: Var)
    requires PartsFrom(s, proj, mix) && v in s.rest
    ensures PartsFrom(AddRest(s, r, v), proj, mix)
  {
    hide PartFrom;
  }

  lemma AddKeyIs(s: Split, p: Clause, v: Var)
    ensures AddKey(s, p, v) == Split(s.proj + [p + [SelectorLit(v)]], s.nproj, s.part[v := p], s.rest[v := []], s.notProj, s.key[p := v])
  {
  }

  lemma AddRestIs(s: Split, r: Clause, v: Var)
    requires v in s.rest
    ensures AddRest(s, r, v) == Split(s.proj, s.nproj + [r + [SelectorLit(v).Neg()]], s.part, s.rest[v := s.rest[v] + [|s.notProj|]],
                                      s.notProj + [(r, SelectorLit(v))], s.key)
  {
  }

  lemma KeyOwned(s: Split, nbVar: nat, nextVar: nat, p: Clause, proj: set<Var>, proj0: Formula, nproj0: Formula, mix: Formula, owner: seq<Var>)
    requires IsSplitOf(s, proj, nbVar, nextVar, proj0, nproj0, mix, owner) && p in s.key
    ensures s.key[p] in s.part && s.part[s.key[p]] == p && s.key[p] in s.rest
  {
    hide UppersExact, Represented, RestsExact, LowersExact;
  }

  // ---------- The split keeps the projected models ----------

  /** Variables of the original formula stay below the selectors. */
  ghost predicate VarsUpTo(f: Formula, nbVar: nat) {
    forall c, l :: c in f && l in c ==> l.v <= nbVar
  }

  /** The mixed clause is satisfied exactly when some value of its selector satisfies both halves. */
  ghost predicate RestHolds(s: Split, owner: seq<Var>, v: Var, a: Asg) {
    forall i :: 0 <= i < |owner| && i < |s.notProj| && owner[i] == v ==> SatClause(s.notProj[i].0, a)
  }

  /** The selectors are true exactly where every remainder already holds. */
  ghost function SelectorValues(s: Split, owner: seq<Var>, a: Asg): Asg {
    map v | v in s.part :: RestHolds(s, owner, v, a)
  }

  lemma SatBelow(c: Clause, a: Asg, e: Asg, nbVar: nat)
    requires (forall l :: l in c ==> l.v <= nbVar) && forall x: Var :: x in e ==> x > nbVar
    ensures SatClause(c, a + e) <==> SatClause(c, a)
  {
    forall i | 0 <= i < |c|
      ensures TrueIn(c[i], a + e) <==> TrueIn(c[i], a)
    {
      assert c[i] in c;
    }
  }

  lemma PartBelow(mix: Formula, proj: set<Var>, nbVar: nat, i: nat)
    requires VarsUpTo(mix, nbVar) && i < |mix|
    ensures forall l :: l in ProjPart(mix[i], proj) ==> l.v <= nbVar
    ensures forall l :: l in RestPart(mix[i], proj) ==> l.v <= nbVar
    ensures forall l :: l in mix[i] ==> l.v <= nbVar
  {
    PartsHold(mix[i], proj);
  }

  /** Any selector values that satisfy the split formula witness the mixed clauses. */
  lemma SplitImplies(s: Split, proj: set<Var>, nbVar: nat, nextVar: nat, proj0: Formula, nproj0: Formula, mix: Formula, owner: seq<Var>, a: Asg, e: Asg)
    requires IsSplitOf(s, proj, nbVar, nextVar, proj0, nproj0, mix, owner) && VarsUpTo(proj0 + nproj0 + mix, nbVar)
    requires e.Keys == s.part.Keys && Sat(s.Clauses(), a + e)
    ensures Sat(proj0 + nproj0 + mix, a)
  {
    assert forall x: Var :: x in e ==> x > nbVar;
    hide IsSplitOf, ProjPart, RestPart, SatClause;
    forall c | c in proj0 + nproj0
      ensures SatClause(c, a)
    {
      GivenKept(s, proj, nbVar, nextVar, proj0, nproj0, mix, owner, c);
      SatBelow(c, a, e, nbVar);
    }
    forall c | c in mix
      ensures SatClause(c, a)
    {
      var i: nat :| i < |mix| && mix[i] == c;
      MixedSatisfied(s, proj, nbVar, nextVar, proj0, nproj0, mix, owner, a, e, i);
    }
  }

  lemma GivenKept(s: Split, proj: set<Var>, nbVar: nat, nextVar: nat, proj0: Formula, nproj0: Formula, mix: Formula, owner: seq<Var>, c: Clause)
    requires IsSplitOf(s, proj, nbVar, nextVar, proj0, nproj0, mix, owner) && c in proj0 + nproj0
    ensures c in s.Clauses()
  {
    hide Selectors, Represented, RestsExact;
  }

  lemma MixedSatisfied(s: Split, proj: set<Var>, nbVar: nat, nextVar: nat, proj0: Formula, nproj0: Formula, mix: Formula, owner: seq<Var>, a: Asg, e: Asg, i: nat)
    requires IsSplitOf(s, proj, nbVar, nextVar, proj0, nproj0, mix, owner) && VarsUpTo(proj0 + nproj0 + mix, nbVar) && i < |mix|
    requires e.Keys == s.part.Keys && Sat(s.Clauses(), a + e)
    ensures SatClause(mix[i], a)
  {
    HalvesPresent(s, proj, nbVar, nextVar, proj0, nproj0, mix, owner, i);
    var v, p, r := owner[i], ProjPart(mix[i], proj), RestPart(mix[i], proj);
    assert SatClause(Upper(p, v), a + e) && SatClause(Lower(r, v), a + e);
    assert v > nbVar && v in e && forall x: Var :: x in e ==> x > nbVar by { hide UppersExact, Represented, RestsExact, LowersExact; }
    assert VarsUpTo(mix, nbVar);
    hide IsSplitOf, ProjPart, RestPart, SatClause, Sat;
    PartBelow(mix, proj, nbVar, i);
    SnocSatisfies(p, SelectorLit(v), a + e);
    SnocSatisfies(r, SelectorLit(v).Neg(), a + e);
    SatBelow(p, a, e, nbVar);
    SatBelow(r, a, e, nbVar);
    PartsSatisfy(mix[i], proj, a);
  }

  lemma HalvesPresent(s: Split, proj: set<Var>, nbVar: nat, nextVar: nat, proj0: Formula, nproj0: Formula, mix: Formula, owner: seq<Var>, i: nat)
    requires IsSplitOf(s, proj, nbVar, nextVar, proj0, nproj0, mix, owner) && i < |mix|
    ensures |owner| == |mix| && owner[i] in s.part && owner[i] > nbVar
    ensures Upper(ProjPart(mix[i], proj), owner[i]) in s.Clauses()
    ensures Lower(RestPart(mix[i], proj), owner[i]) in s.Clauses()
  {
    hide RestsExact, ProjPart, RestPart, Upper, Lower;
    assert s.part[owner[i]] == ProjPart(mix[i], proj);
    assert s.notProj[i].0 == RestPart(mix[i], proj);
  }

  /** A model of the mixed clauses extends to the selectors. */
  lemma SplitExtends(s: Split, proj: set<Var>, nbVar: nat, nextVar: nat, proj0: Formula, nproj0: Formula, mix: Formula, owner: seq<Var>, a: Asg)
    requires IsSplitOf(s, proj, nbVar, nextVar, proj0, nproj0, mix, owner) && VarsUpTo(proj0 + nproj0 + mix, nbVar)
    requires Sat(proj0 + nproj0 + mix, a)
    ensures SelectorValues(s, owner, a).Keys == s.part.Keys
    ensures Sat(s.Clauses(), a + SelectorValues(s, owner, a))
  {
    var e := SelectorValues(s, owner, a);
    assert e.Keys == s.part.Keys;
    assert forall x: Var :: x in e ==> x > nbVar;
    forall c | c in s.Clauses()
      ensures SatClause(c, a + e)
    {
      if c in proj0 + nproj0 {
        SatBelow(c, a, e, nbVar);
      } else if c in s.proj {
        var v :| v in s.part && c == Upper(s.part[v], v);
        UpperExtends(s, proj, nbVar, nextVar, proj0, nproj0, mix, owner, a, v);
      } else {
        var i: nat :| i < |owner| && c == Lower(s.notProj[i].0, owner[i]);
        LowerExtends(s, proj, nbVar, nextVar, proj0, nproj0, mix, owner, a, i);
      }
    }
  }

  lemma UpperExtends(s: Split, proj: set<Var>, nbVar: nat, nextVar: nat, proj0: Formula, nproj0: Formula, mix: Formula, owner: seq<Var>, a: Asg, v: Var)
    requires IsSplitOf(s, proj, nbVar, nextVar, proj0, nproj0, mix, owner) && VarsUpTo(proj0 + nproj0 + mix, nbVar)
    requires Sat(proj0 + nproj0 + mix, a) && v in s.part
    ensures SatClause(Upper(s.part[v], v), a + SelectorValues(s, owner, a))
  {
    var e := SelectorValues(s, owner, a);
    SnocSatisfies(s.part[v], SelectorLit(v), a + e);
    if !RestHolds(s, owner, v, a) {
      var i :| 0 <= i < |owner| && i < |s.notProj| && owner[i] == v && !SatClause(s.notProj[i].0, a);
      assert mix[i] in proj0 + nproj0 + mix;
      assert VarsUpTo(mix, nbVar);
      PartsSatisfy(mix[i], proj, a);
      PartBelow(mix, proj, nbVar, i);
      SatBelow(s.part[v], a, e, nbVar);
    }
  }

  lemma LowerExtends(s: Split, proj: set<Var>, nbVar: nat, nextVar: nat, proj0: Formula, nproj0: Formula, mix: Formula, owner: seq<Var>, a: Asg, i: nat)
    requires IsSplitOf(s, proj, nbVar, nextVar, proj0, nproj0, mix, owner) && VarsUpTo(proj0 + nproj0 + mix, nbVar) && i < |owner|
    ensures SatClause(Lower(s.notProj[i].0, owner[i]), a + SelectorValues(s, owner, a))
  {
    var e, v := SelectorValues(s, owner, a), owner[i];
    assert v in e;
    SnocSatisfies(s.notProj[i].0, SelectorLit(v).Neg(), a + e);
    if e[v] {
      assert VarsUpTo(mix, nbVar);
      PartBelow(mix, proj, nbVar, i);
      SatBelow(s.notProj[i].0, a, e, nbVar);
    }
  }

  lemma {:induction false} FilterShorter<T>(s: seq<T>, p: T -> bool)
    ensures |Filter(s, p)| <= |s|
  {
    if s != [] {
      FilterShorter(s[..|s| - 1], p);
    }
  }

  lemma {:induction false} FilterHolds<T>(s: seq<T>, p: T -> bool)
    ensures forall x :: x in Filter(s, p) <==> x in s && p(x)
  {
    if s != [] {
      FilterHolds(s[..|s| - 1], p);
      assert s == s[..|s| - 1] + [s[|s| - 1]];
    }
  }

  /** The three parts of a partition are satisfied together exactly when the formula is. */
  lemma PartitionKeeps(clauses: Formula, proj: set<Var>, proj0: Formula, nproj0: Formula, mix: Formula)
    requires proj0 == Filter(clauses, c => OnlyProj(c, proj)) && nproj0 == Filter(clauses, c => NoProj(c, proj)) && mix == Filter(clauses, c => Mixed(c, proj))
    ensures forall c :: c in proj0 + nproj0 + mix <==> c in clauses
    ensures forall c :: c in proj0 ==> OnlyProj(c, proj)
    ensures forall c :: c in nproj0 ==> NoProj(c, proj)
    ensures forall a: Asg :: Sat(proj0 + nproj0 + mix, a) <==> Sat(clauses, a)
  {
    FilterHolds(clauses, c => OnlyProj(c, proj));
    FilterHolds(clauses, c => NoProj(c, proj));
    FilterHolds(clauses, c => Mixed(c, proj));
    hide OnlyProj, NoProj, SatClause, Filter;
  }

  /** An assignment satisfies the formula exactly when some values of the selectors satisfy the split one. */
  lemma SplitEquivalence(s: Split, proj: set<Var>, nbVar: nat, nextVar: nat, proj0: Formula, nproj0: Formula, mix: Formula, owner: seq<Var>, a: Asg)
    requires IsSplitOf(s, proj, nbVar, nextVar, proj0, nproj0, mix, owner) && VarsUpTo(proj0 + nproj0 + mix, nbVar)
    ensures Sat(proj0 + nproj0 + mix, a) <==> exists e: Asg :: e.Keys == s.part.Keys && Sat(s.Clauses(), a + e)
  {
    hide IsSplitOf, VarsUpTo, Sat;
    if Sat(proj0 + nproj0 + mix, a) {
      SplitExtends(s, proj, nbVar, nextVar, proj0, nproj0, mix, owner, a);
    }
    if e: Asg :| e.Keys == s.part.Keys && Sat(s.Clauses(), a + e) {
      SplitImplies(s, proj, nbVar, nextVar, proj0, nproj0, mix, owner, a, e);
    }
  }
}
