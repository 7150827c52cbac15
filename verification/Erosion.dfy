/**
  Erosion: every round replaces each clause by its versions with one literal left out, so
  that k rounds require all assignments within Hamming distance k to be models.
*/
module Erosion {
  import opened FiniteSets
  import opened Cnf
  import opened Counting
  import opened ModelSum
  import opened MaxCounting
  import opened Operation
  import opened Search
  import opened CounterSetup
  import opened ClauseReader

  // ---------- Hamming balls ----------

  /** The variables on which two assignments differ. */
  function Differ(a: Asg, b: Asg): set<Var> {
    set x | x in a && x in b && a[x] != b[x]
  }

  predicate Within(vs: set<Var>, a: Asg, b: Asg, k: nat) {
    b.Keys == vs && |Differ(a, b)| <= k
  }

  /** Every assignment within distance `k` of `a` is a model. */
  ghost predicate BallSat(f: Formula, vs: set<Var>, a: Asg, k: nat) {
    forall b: Asg :: Within(vs, a, b, k) ==> Sat(f, b)
  }

  function Flip(a: Asg, x: Var): Asg
    requires x in a
  {
    a[x := !a[x]]
  }

  lemma FlipDiffers(a: Asg, x: Var, c: Asg)
    requires x in a && a.Keys == c.Keys
    ensures Differ(a, Flip(a, x)) == {x}
    ensures x in Differ(a, c) ==> Differ(Flip(a, x), c) == Differ(a, c) - {x}
  {
  }

  lemma {:induction false} UnionAtMost(s: set<Var>, t: set<Var>)
    ensures |s + t| <= |s| + |t|
  {
    if s == {} {
      assert s + t == t;
    } else {
      var x :| x in s;
      UnionAtMost(s - {x}, t);
      if x in t {
        assert s + t == (s - {x}) + t;
      } else {
        assert s + t == ((s - {x}) + t) + {x};
      }
    }
  }

  lemma WithinTriangle(vs: set<Var>, a: Asg, b: Asg, c: Asg, k: nat)
    requires a.Keys == vs && Within(vs, a, b, 1) && Within(vs, b, c, k)
    ensures Within(vs, a, c, k + 1)
  {
    assert Differ(a, c) <= Differ(a, b) + Differ(b, c);
    UnionAtMost(Differ(a, b), Differ(b, c));
    SubsetSize(Differ(a, c), Differ(a, b) + Differ(b, c));
  }

  /** A larger ball is covered by the balls around the neighbours. */
  lemma WithinStep(vs: set<Var>, a: Asg, c: Asg, k: nat) returns (b: Asg)
    requires a.Keys == vs && Within(vs, a, c, k + 1)
    ensures Within(vs, a, b, 1) && Within(vs, b, c, k)
  {
    if Differ(a, c) == {} {
      b := a;
      assert Differ(a, a) == {};
    } else {
      var x :| x in Differ(a, c);
      b := Flip(a, x);
      FlipDiffers(a, x, c);
    }
  }

  // ---------- One round ----------

  ghost predicate AllProper(f: Formula, nbVar: nat) {
    forall c :: c in f ==> Proper(c, nbVar)
  }

  function Without(c: Clause, i: nat): Clause
    requires i < |c|
  {
    c[..i] + c[i + 1..]
  }

  /** The first `k` versions of a clause with one literal left out. */
  function Shortened(c: Clause, k: nat): Formula
    requires k <= |c|
  {
    if k == 0 then [] else Shortened(c, k - 1) + [Without(c, k - 1)]
  }

  function Generated(f: Formula): Formula {
    if f == [] then [] else Generated(f[..|f| - 1]) + Shortened(f[|f| - 1], |f[|f| - 1]|)
  }

  lemma {:induction false} ShortenedHolds(c: Clause, k: nat)
    requires k <= |c|
    ensures forall d :: d in Shortened(c, k) <==> exists i :: 0 <= i < k && d == Without(c, i)
  {
    if k != 0 {
      ShortenedHolds(c, k - 1);
    }
  }

  lemma {:induction false} GeneratedHolds(f: Formula, d: Clause)
    ensures d in Generated(f) <==> exists c, i :: c in f && 0 <= i < |c| && d == Without(c, i)
  {
    if f != [] {
      var init, c := f[..|f| - 1], f[|f| - 1];
      GeneratedHolds(init, d);
      ShortenedHolds(c, |c|);
      assert f == init + [c];
    }
  }

  lemma WithoutHolds(c: Clause, i: nat)
    requires i < |c|
    ensures forall l :: l in Without(c, i) <==> exists j :: 0 <= j < |c| && j != i && c[j] == l
  {
    var w := Without(c, i);
    assert forall j :: 0 <= j < |w| ==> w[j] == c[if j < i then j else j + 1];
    forall j | 0 <= j < |c| && j != i
      ensures c[j] in w
    {
      assert w[if j < i then j else j - 1] == c[j];
    }
  }

  lemma WithoutProper(c: Clause, i: nat, nbVar: nat)
    requires Proper(c, nbVar) && i < |c| && |c| != 1
    ensures Proper(Without(c, i), nbVar)
  {
    var w := Without(c, i);
    assert forall j :: 0 <= j < |w| ==> w[j] == c[if j < i then j else j + 1];
    WithoutHolds(c, i);
  }

  /** A clause holds all around `a` exactly when `a` satisfies each of its shortened versions. */
  lemma ShortenedBall(c: Clause, nbVar: nat, vs: set<Var>, a: Asg)
    requires Proper(c, nbVar) && a.Keys == vs && forall v :: 1 <= v <= nbVar ==> v in vs
    ensures (forall i :: 0 <= i < |c| ==> SatClause(Without(c, i), a)) <==> (forall b: Asg :: Within(vs, a, b, 1) ==> SatClause(c, b))
  {
    if forall i :: 0 <= i < |c| ==> SatClause(Without(c, i), a) {
      forall b: Asg | Within(vs, a, b, 1)
        ensures SatClause(c, b)
      {
        NeighborSatisfies(c, nbVar, vs, a, b);
      }
    }
    if forall b: Asg :: Within(vs, a, b, 1) ==> SatClause(c, b) {
      forall i | 0 <= i < |c|
        ensures SatClause(Without(c, i), a)
      {
        OtherLiteral(c, nbVar, vs, a, i);
      }
    }
  }

  lemma NeighborSatisfies(c: Clause, nbVar: nat, vs: set<Var>, a: Asg, b: Asg)
    requires Proper(c, nbVar) && a.Keys == vs && (forall v :: 1 <= v <= nbVar ==> v in vs) && Within(vs, a, b, 1)
    requires forall i :: 0 <= i < |c| ==> SatClause(Without(c, i), a)
    ensures SatClause(c, b)
  {
    assert c[0] in c;
    var k: nat := if i :| 0 <= i < |c| && c[i].v in Differ(a, b) then i else 0;
    WithoutHolds(c, k);
    var w := Without(c, k);
    var t :| 0 <= t < |w| && TrueIn(w[t], a);
    assert w[t] in w;
    var j :| 0 <= j < |c| && j != k && c[j] == w[t];
    if c[j].v in Differ(a, b) {
      OnlyOne(Differ(a, b), c[j].v, c[k].v);
    }
    assert c[j] in c && TrueIn(c[j], b);
  }

  lemma OnlyOne(s: set<Var>, x: Var, y: Var)
    requires |s| <= 1 && x in s && y in s
    ensures x == y
  {
    if x != y {
      SubsetSize({x, y}, s);
      assert false;
    }
  }

  lemma OtherLiteral(c: Clause, nbVar: nat, vs: set<Var>, a: Asg, i: nat)
    requires Proper(c, nbVar) && a.Keys == vs && (forall v :: 1 <= v <= nbVar ==> v in vs) && i < |c|
    requires forall b: Asg :: Within(vs, a, b, 1) ==> SatClause(c, b)
    ensures SatClause(Without(c, i), a)
  {
    assert c[i] in c;
    var b := if TrueIn(c[i], a) then Flip(a, c[i].v) else a;
    FlipDiffers(a, c[i].v, a);
    assert Differ(a, a) == {};
    assert Within(vs, a, b, 1);
    var j :| 0 <= j < |c| && TrueIn(c[j], b);
    assert c[j] in c && j != i && TrueIn(c[j], a);
    var w := Without(c, i);
    assert w[if j < i then j else j - 1] == c[j];
  }

  /** One round of erosion, without a unit clause, asks for all neighbours to be models. */
  lemma RoundIsBall(f: Formula, nbVar: nat, vs: set<Var>, a: Asg)
    requires AllProper(f, nbVar) && a.Keys == vs && forall v :: 1 <= v <= nbVar ==> v in vs
    ensures Sat(Generated(f), a) <==> BallSat(f, vs, a, 1)
  {
    hide SatClause, Within, Proper;
    if Sat(Generated(f), a) {
      forall b: Asg | Within(vs, a, b, 1)
        ensures Sat(f, b)
      {
        forall c | c in f
          ensures SatClause(c, b)
        {
          forall i | 0 <= i < |c|
            ensures SatClause(Without(c, i), a)
          {
            GeneratedHolds(f, Without(c, i));
          }
          ShortenedBall(c, nbVar, vs, a);
        }
      }
    }
    if BallSat(f, vs, a, 1) {
      forall d | d in Generated(f)
        ensures SatClause(d, a)
      {
        GeneratedHolds(f, d);
        var c, i :| c in f && 0 <= i < |c| && d == Without(c, i);
        assert forall b: Asg :: Within(vs, a, b, 1) ==> SatClause(c, b);
        ShortenedBall(c, nbVar, vs, a);
      }
    }
  }

  /** A unit clause fails somewhere in every ball. */
  lemma UnitHasNoBall(f: Formula, nbVar: nat, vs: set<Var>, a: Asg, c: Clause)
    requires AllProper(f, nbVar) && a.Keys == vs && (forall v :: 1 <= v <= nbVar ==> v in vs) && c in f && |c| == 1
    ensures !BallSat(f, vs, a, 1)
  {
    assert Proper(c, nbVar) && c[0] in c;
    var b := if TrueIn(c[0], a) then Flip(a, c[0].v) else a;
    FlipDiffers(a, c[0].v, a);
    assert Differ(a, a) == {};
    assert Within(vs, a, b, 1) && !SatClause(c, b);
  }

  // ---------- Removing subsumed clauses ----------

  predicate SubClause(d: Clause, c: Clause) {
    forall l :: l in d ==> l in c
  }

  lemma SubsumedHolds(d: Clause, c: Clause, a: Asg)
    requires SubClause(d, c) && SatClause(d, a)
    ensures SatClause(c, a)
  {
    var i :| 0 <= i < |d| && TrueIn(d[i], a);
    assert d[i] in d;
    var j :| 0 <= j < |c| && c[j] == d[i];
  }

  /** The first `i` clauses are kept or cleared; the cleared ones are exactly those that an earlier kept one subsumes. */
  ghost predicate Reducing(orig: Formula, cur: Formula, i: nat) {
    && |cur| == |orig| && i <= |orig|
    && (forall t :: i <= t < |orig| ==> cur[t] == orig[t])
    && (forall t :: 0 <= t < i ==> cur[t] == if SubsumedBy(cur, t, orig[t]) then [] else orig[t])
  }

  ghost predicate SubsumedBy(cur: Formula, t: nat, c: Clause) {
    exists j :: 0 <= j < t && j < |cur| && cur[j] != [] && SubClause(cur[j], c)
  }

  function NonEmpty(f: Formula): Formula {
    if f == [] then [] else NonEmpty(f[..|f| - 1]) + if |f[|f| - 1]| > 0 then [f[|f| - 1]] else []
  }

  lemma {:induction false} NonEmptyHolds(f: Formula, c: Clause)
    ensures c in NonEmpty(f) <==> c in f && c != []
  {
    if f != [] {
      NonEmptyHolds(f[..|f| - 1], c);
      assert f == f[..|f| - 1] + [f[|f| - 1]];
    }
  }

  /** No clause lies within a later one. */
  ghost predicate NoneSubsumed(f: Formula) {
    forall i, j :: 0 <= i < j < |f| ==> !SubClause(f[i], f[j])
  }

  lemma {:induction false} NonEmptyApart(cur: Formula, k: nat)
    requires k <= |cur| && forall t :: 0 <= t < k && cur[t] != [] ==> !SubsumedBy(cur, t, cur[t])
    ensures NoneSubsumed(NonEmpty(cur[..k]))
  {
    hide SubClause;
    if k != 0 {
      NonEmptyApart(cur, k - 1);
      assert cur[..k][..k - 1] == cur[..k - 1];
      var front, c := NonEmpty(cur[..k - 1]), cur[k - 1];
      forall i | 0 <= i < |front| && c != []
        ensures !SubClause(front[i], c)
      {
        NonEmptyHolds(cur[..k - 1], front[i]);
        var j :| 0 <= j < k - 1 && cur[j] == front[i];
      }
    }
  }

  lemma KeptApart(orig: Formula, cur: Formula)
    requires Reducing(orig, cur, |orig|)
    ensures NoneSubsumed(NonEmpty(cur))
  {
    hide NoneSubsumed, SubClause;
    forall t | 0 <= t < |cur| && cur[t] != []
      ensures !SubsumedBy(cur, t, cur[t])
    {
      assert cur[t] == if SubsumedBy(cur, t, orig[t]) then [] else orig[t];
    }
    NonEmptyApart(cur, |cur|);
    assert cur[..|cur|] == cur;
  }

  /** Removing subsumed clauses changes no model. */
  lemma ReductionKeepsModels(orig: Formula, cur: Formula, a: Asg)
    requires Reducing(orig, cur, |orig|) && forall c :: c in orig ==> c != []
    ensures Sat(NonEmpty(cur), a) <==> Sat(orig, a)
    ensures forall c :: c in NonEmpty(cur) ==> c in orig
  {
    hide SatClause;
    forall c | c in NonEmpty(cur)
      ensures c in orig
    {
      NonEmptyHolds(cur, c);
      var t :| 0 <= t < |cur| && cur[t] == c;
    }
    if Sat(NonEmpty(cur), a) {
      forall c | c in orig
        ensures SatClause(c, a)
      {
        var t :| 0 <= t < |orig| && orig[t] == c;
        var j: nat := if cur[t] == orig[t] then t else var j :| 0 <= j < t && j < |cur| && cur[j] != [] && SubClause(cur[j], c); j;
        NonEmptyHolds(cur, cur[j]);
        assert cur[j] in cur && SubClause(cur[j], c);
        SubsumedHolds(cur[j], c, a);
      }
    }
  }

  // ---------- The erosion step ----------

  /** All shortened clauses, in order; stops at the first unit clause. */
  method Generate(tmpClauses: Formula) returns (ok: bool, clauses: Formula)
    ensures ok <==> forall c :: c in tmpClauses ==> |c| != 1
    ensures ok ==> clauses == Generated(tmpClauses)
  {
    clauses := [];
    for k := 0 to |tmpClauses|
      invariant clauses == Generated(tmpClauses[..k]) && forall t :: 0 <= t < k ==> |tmpClauses[t]| != 1
    {
      var c := tmpClauses[k];
      assert tmpClauses[..k + 1][..k] == tmpClauses[..k];
      if |c| == 1 { return false, clauses; }
      ghost var before := clauses;
      for i := 0 to |c|
        invariant clauses == before + Shortened(c, i)
      {
        var cl: Clause := [];
        for j := 0 to |c|
          invariant cl == if j <= i then c[..j] else c[..i] + c[i + 1..j]
        {
          if i != j {
            cl := cl + [c[j]];
          }
        }
        assert c[i + 1..|c|] == c[i + 1..] && cl == Without(c, i);
        clauses := clauses + [cl];
      }
    }
    assert tmpClauses[..|tmpClauses|] == tmpClauses;
    return true, clauses;
  }

  /** Exactly the literals of `lits` are marked. */
  ghost predicate Marks(marked: seq<bool>, lits: set<Lit>) {
    forall l :: Intern(l) < |marked| ==> (marked[Intern(l)] <==> l in lits)
  }

  ghost function LitsOf(c: Clause): set<Lit> {
    set l | l in c
  }

  lemma MarkOne(marked: seq<bool>, lits: set<Lit>, l: Lit)
    requires Marks(marked, lits) && Intern(l) < |marked|
    ensures Marks(marked[Intern(l) := true], lits + {l})
    ensures Marks(marked[Intern(l) := false], lits - {l})
  {
    forall k: Lit
      ensures Intern(k) == Intern(l) <==> k == l
    {
    }
  }

  method Mark(marked: array<bool>, c: Clause)
    requires (forall l :: l in c ==> Intern(l) < marked.Length) && Marks(marked[..], {})
    modifies marked
    ensures Marks(marked[..], LitsOf(c))
  {
    for i := 0 to |c|
      invariant Marks(marked[..], LitsOf(c[..i]))
    {
      assert c[i] in c && c[..i + 1] == c[..i] + [c[i]];
      assert LitsOf(c[..i + 1]) == LitsOf(c[..i]) + {c[i]};
      ghost var before := marked[..];
      MarkOne(before, LitsOf(c[..i]), c[i]);
      marked[Intern(c[i])] := true;
      assert marked[..] == before[Intern(c[i]) := true];
    }
    assert c[..|c|] == c;
  }

  method Unmark(marked: array<bool>, c: Clause)
    requires (forall l :: l in c ==> Intern(l) < marked.Length) && Marks(marked[..], LitsOf(c))
    modifies marked
    ensures Marks(marked[..], {})
  {
    for i := 0 to |c|
      invariant Marks(marked[..], LitsOf(c) - LitsOf(c[..i]))
    {
      assert c[i] in c && c[..i + 1] == c[..i] + [c[i]];
      assert LitsOf(c) - LitsOf(c[..i + 1]) == LitsOf(c) - LitsOf(c[..i]) - {c[i]};
      ghost var before := marked[..];
      MarkOne(before, LitsOf(c) - LitsOf(c[..i]), c[i]);
      marked[Intern(c[i])] := false;
      assert marked[..] == before[Intern(c[i]) := false];
    }
    assert c[..|c|] == c;
    assert LitsOf(c) - LitsOf(c) == {};
  }

  /** Whether an earlier clause that was kept lies within the marked one. */
  method IsSubsumed(clauses: Formula, i: nat, marked: array<bool>) returns (isSubsume: bool)
    requires i < |clauses| && Marks(marked[..], LitsOf(clauses[i]))
    requires forall j, l :: 0 <= j < i && l in clauses[j] ==> Intern(l) < marked.Length
    ensures isSubsume <==> SubsumedBy(clauses, i, clauses[i])
  {
    isSubsume := false;
    for j := 0 to i
      invariant !isSubsume
      invariant forall t :: 0 <= t < j ==> clauses[t] == [] || !SubClause(clauses[t], clauses[i])
    {
      var d := clauses[j];
      if |d| == 0 { continue; }
      isSubsume := true;
      for k := 0 to |d|
        invariant isSubsume && forall t :: 0 <= t < k ==> d[t] in clauses[i]
      {
        assert d[k] in d && marked[..][Intern(d[k])] == marked[Intern(d[k])];
        isSubsume := marked[Intern(d[k])];
        if !isSubsume { break; }
      }
      if isSubsume {
        assert SubClause(d, clauses[i]);
        break;
      }
    }
  }

  /** Clears the clauses that an earlier one subsumes. */
  method Reduce(orig: Formula, nbVar: nat) returns (clauses: Formula)
    requires forall c, l :: c in orig && l in c ==> l.v <= nbVar
    ensures Reducing(orig, clauses, |orig|)
  {
    clauses := orig;
    var marked := new bool[2 * (nbVar + 1)](_ => false);
    assert Marks(marked[..], {});
    for i := 0 to |orig|
      invariant Reducing(orig, clauses, i) && Marks(marked[..], {})
    {
      var c := clauses[i];
      LiteralsFit(orig, clauses, i, nbVar);
      Mark(marked, c);
      var isSubsume := IsSubsumed(clauses, i, marked);
      Unmark(marked, c);
      ReduceNext(orig, clauses, i, isSubsume);
      if isSubsume {
        clauses := clauses[i := []];
      }
    }
  }

  lemma LiteralsFit(orig: Formula, cur: Formula, i: nat, nbVar: nat)
    requires Reducing(orig, cur, i) && i < |orig| && forall c, l :: c in orig && l in c ==> l.v <= nbVar
    ensures forall j, l :: 0 <= j <= i && l in cur[j] ==> Intern(l) < 2 * (nbVar + 1)
  {
    forall j, l | 0 <= j <= i && l in cur[j]
      ensures Intern(l) < 2 * (nbVar + 1)
    {
      assert cur[j] == orig[j] && orig[j] in orig;
    }
  }

  lemma ReduceNext(orig: Formula, cur: Formula, i: nat, isSubsume: bool)
    requires Reducing(orig, cur, i) && i < |orig| && (isSubsume <==> SubsumedBy(cur, i, cur[i]))
    ensures isSubsume ==> Reducing(orig, cur[i := []], i + 1)
    ensures !isSubsume ==> Reducing(orig, cur, i + 1)
  {
    hide SubClause;
    var next := cur[i := []];
    forall t, c | 0 <= t <= i && SubsumedBy(cur, t, c)
      ensures SubsumedBy(next, t, c)
    {
      var j :| 0 <= j < t && j < |cur| && cur[j] != [] && SubClause(cur[j], c);
      assert next[j] == cur[j];
    }
  }

  method Compact(cur: Formula) returns (clauses: Formula)
    ensures clauses == NonEmpty(cur)
  {
    clauses := cur;
    var j := 0;
    for i := 0 to |cur|
      invariant 0 <= j <= i <= |cur| == |clauses|
      invariant clauses[..j] == NonEmpty(cur[..i])
      invariant forall t :: i <= t < |cur| ==> clauses[t] == cur[t]
    {
      assert cur[..i + 1][..i] == cur[..i];
      if |clauses[i]| > 0 {
        clauses := clauses[j := clauses[i]];
        j := j + 1;
      }
    }
    assert cur[..|cur|] == cur;
    clauses := clauses[..j];
  }

  /**
    One erosion step.  Without a unit clause the models of the result are the assignments all
    of whose neighbours are models; with one there are no such assignments.
  */
  method Erode(clauses0: Formula, nbVar: nat) returns (ok: bool, clauses: Formula)
    requires AllProper(clauses0, nbVar)
    ensures ok <==> forall c :: c in clauses0 ==> |c| != 1
    ensures ok ==> AllProper(clauses, nbVar)
    ensures ok ==> forall a: Asg :: Sat(clauses, a) <==> Sat(Generated(clauses0), a)
    ensures ok ==> NoneSubsumed(clauses) && forall c :: c in clauses ==> c in Generated(clauses0)
  {
    ok, clauses := Generate(clauses0);
    if !ok { return; }
    ghost var generated := clauses;
    GeneratedProper(clauses0, nbVar);
    hide SatClause, Generated, Reducing;
    clauses := Reduce(clauses, nbVar);
    ghost var cleared := clauses;
    clauses := Compact(clauses);
    forall a: Asg
      ensures Sat(clauses, a) <==> Sat(generated, a)
    {
      ReductionKeepsModels(generated, cleared, a);
    }
    ReductionKeepsModels(generated, cleared, map[]);
    KeptApart(generated, cleared);
  }

  lemma GeneratedProper(f: Formula, nbVar: nat)
    requires AllProper(f, nbVar) && forall c :: c in f ==> |c| != 1
    ensures AllProper(Generated(f), nbVar)
    ensures forall c, l :: c in Generated(f) && l in c ==> l.v <= nbVar
  {
    forall d | d in Generated(f)
      ensures Proper(d, nbVar)
    {
      GeneratedHolds(f, d);
      var c, i :| c in f && 0 <= i < |c| && d == Without(c, i);
      WithoutProper(c, i, nbVar);
    }
  }

  // ---------- Iterated erosion ----------

  /** `f` describes the assignments whose whole ball of radius `k` satisfies `soft`. */
  ghost predicate Eroded(soft: Formula, f: Formula, nbVar: nat, vs: set<Var>, k: nat) {
    AllProper(f, nbVar) && forall a: Asg :: a.Keys == vs ==> (Sat(f, a) <==> BallSat(soft, vs, a, k))
  }

  /** No assignment has a ball of radius `k` that satisfies `soft`. */
  ghost predicate Exhausted(soft: Formula, vs: set<Var>, k: nat) {
    forall a: Asg :: a.Keys == vs ==> !BallSat(soft, vs, a, k)
  }

  lemma NotEroded(soft: Formula, nbVar: nat, vs: set<Var>)
    requires AllProper(soft, nbVar)
    ensures Eroded(soft, soft, nbVar, vs, 0)
  {
    forall a: Asg | a.Keys == vs
      ensures Sat(soft, a) <==> BallSat(soft, vs, a, 0)
    {
      assert Differ(a, a) == {};
      forall b: Asg | Within(vs, a, b, 0)
        ensures b == a
      {
        assert Differ(a, b) == {};
        forall x: Var | x in a
          ensures a[x] == b[x]
        {
          assert x !in Differ(a, b);
        }
      }
    }
  }

  /** A ball of radius k + 1 is satisfied when the balls of radius k around all neighbours are. */
  lemma BallStep(soft: Formula, vs: set<Var>, a: Asg, k: nat)
    requires a.Keys == vs
    ensures BallSat(soft, vs, a, k + 1) <==> forall b: Asg :: Within(vs, a, b, 1) ==> BallSat(soft, vs, b, k)
  {
    if BallSat(soft, vs, a, k + 1) {
      forall b: Asg, c: Asg | Within(vs, a, b, 1) && Within(vs, b, c, k)
        ensures Sat(soft, c)
      {
        WithinTriangle(vs, a, b, c, k);
      }
    }
    if forall b: Asg :: Within(vs, a, b, 1) ==> BallSat(soft, vs, b, k) {
      forall c: Asg | Within(vs, a, c, k + 1)
        ensures Sat(soft, c)
      {
        var b := WithinStep(vs, a, c, k);
      }
    }
  }

  lemma ErodedStep(soft: Formula, f: Formula, g: Formula, nbVar: nat, vs: set<Var>, k: nat)
    requires Eroded(soft, f, nbVar, vs, k) && AllProper(g, nbVar) && forall v :: 1 <= v <= nbVar ==> v in vs
    requires forall a: Asg :: Sat(g, a) <==> Sat(Generated(f), a)
    ensures Eroded(soft, g, nbVar, vs, k + 1)
  {
    hide Sat, Proper, Within, Generated;
    forall a: Asg | a.Keys == vs
      ensures Sat(g, a) <==> BallSat(soft, vs, a, k + 1)
    {
      RoundIsBall(f, nbVar, vs, a);
      BallStep(soft, vs, a, k);
      BallThrough(soft, f, nbVar, vs, a, k);
    }
  }

  lemma BallThrough(soft: Formula, f: Formula, nbVar: nat, vs: set<Var>, a: Asg, k: nat)
    requires Eroded(soft, f, nbVar, vs, k)
    ensures BallSat(f, vs, a, 1) <==> forall b: Asg :: Within(vs, a, b, 1) ==> BallSat(soft, vs, b, k)
  {
    hide Sat, Proper, Differ;
    forall b: Asg | Within(vs, a, b, 1)
      ensures Sat(f, b) <==> BallSat(soft, vs, b, k)
    {
      assert b.Keys == vs;
    }
  }

  lemma UnitExhausts(soft: Formula, f: Formula, nbVar: nat, vs: set<Var>, k: nat, c: Clause)
    requires Eroded(soft, f, nbVar, vs, k) && (forall v :: 1 <= v <= nbVar ==> v in vs) && c in f && |c| == 1
    ensures Exhausted(soft, vs, k + 1)
  {
    hide Sat, Proper, Within;
    forall a: Asg | a.Keys == vs
      ensures !BallSat(soft, vs, a, k + 1)
    {
      UnitHasNoBall(f, nbVar, vs, a, c);
      BallStep(soft, vs, a, k);
      BallThrough(soft, f, nbVar, vs, a, k);
    }
  }

  /** The models of `hard` whose whole ball of radius `k` satisfies `soft`. */
  ghost function ErodedForm(soft: Formula, hard: Formula, vs: set<Var>, k: nat): Form {
    b => BallSat(soft, vs, b, k) && Sat(hard, b)
  }

  /** The weighted count of the projected models that survive `k` rounds. */
  ghost function ErodedCount(p: Problem, soft: Formula, hard: Formula, k: nat): real {
    Count(p.M(), p.AllVars(), ErodedForm(soft, hard, p.AllVars(), k), map[])
  }

  /** Over `vs`, `phi` implies `psi`. */
  ghost predicate Implies(vs: set<Var>, phi: Form, psi: Form, a: Asg) {
    forall e: Asg :: e.Keys == vs && phi(a + e) ==> psi(a + e)
  }

  lemma {:induction false} CountMonotone(k: nat, m: Measure, vs: set<Var>, phi: Form, psi: Form, a: Asg)
    requires NonNegative(m) && Implies(vs, phi, psi, a)
    ensures CountTo(k, m, vs, phi, a) <= CountTo(k, m, vs, psi, a)
  {
    hide Implies, Extends;
    if k == 0 {
      ImpliesExtends(vs, phi, psi, a);
    } else if k - 1 in vs && k - 1 in m.proj {
      var x := k - 1;
      MonotoneAt(m, vs, phi, psi, a, x, true);
      MonotoneAt(m, vs, phi, psi, a, x, false);
      CountMonotone(k - 1, m, vs - {x}, phi, psi, a[x := true]);
      CountMonotone(k - 1, m, vs - {x}, phi, psi, a[x := false]);
    } else {
      CountMonotone(k - 1, m, vs, phi, psi, a);
    }
  }

  lemma ImpliesExtends(vs: set<Var>, phi: Form, psi: Form, a: Asg)
    requires Implies(vs, phi, psi, a)
    ensures Extends(vs, phi, a) ==> Extends(vs, psi, a)
  {
    if Extends(vs, phi, a) {
      var e :| Witness(vs, phi, a, e);
      assert Witness(vs, psi, a, e);
    }
  }

  lemma MonotoneAt(m: Measure, vs: set<Var>, phi: Form, psi: Form, a: Asg, x: Var, t: bool)
    requires x in vs && Implies(vs, phi, psi, a)
    ensures Implies(vs - {x}, phi, psi, a[x := t])
  {
    forall e: Asg | e.Keys == vs - {x} && phi(a[x := t] + e)
      ensures psi(a[x := t] + e)
    {
      Move(a, e, x, t);
      assert e[x := t].Keys == vs;
    }
  }

  /** Later rounds never count more. */
  lemma ErodedCountShrinks(p: Problem, soft: Formula, hard: Formula, k: nat)
    requires NonNegative(p.M())
    ensures ErodedCount(p, soft, hard, k + 1) <= ErodedCount(p, soft, hard, k)
  {
    var vs := p.AllVars();
    var phi, psi := ErodedForm(soft, hard, vs, k + 1), ErodedForm(soft, hard, vs, k);
    hide Problem.M, Problem.AllVars, Sat, Differ;
    forall e: Asg | e.Keys == vs && phi(map[] + e)
      ensures psi(map[] + e)
    {
      forall b: Asg | Within(vs, map[] + e, b, k)
        ensures Sat(soft, b)
      {
        assert Within(vs, map[] + e, b, k + 1);
      }
    }
    CountMonotone(p.M().n, p.M(), vs, phi, psi, map[]);
  }

  // ---------- The whole method ----------

  ghost predicate ErosionProblem(p: Problem, soft: Formula, hard: Formula) {
    && AllProper(soft, p.nbVar) && !p.isUnsat
    && (forall c :: c in hard ==> c != [] && forall l :: l in c ==> 1 <= l.v <= p.nbVar)
    && p.(clauses := soft + hard).Consistent()
  }

  /**
    Counts round by round.  Line k is the count of the models of the hard clauses whose ball of
    radius k satisfies the soft ones; the lines end with the first zero, or when the depth is reached.
  */
  method Run(p: Problem, soft: Formula, hard: Formula, depth: int, settings: Settings) returns (lines: seq<real>)
    requires ErosionProblem(p, soft, hard) && ModeOk(p) && SettingsOk(settings, p.nbVar)
    ensures 1 <= |lines| <= (if depth < 0 then p.nbVar else depth) + 1
    ensures forall k :: 0 <= k < |lines| ==> lines[k] == ErodedCount(p, soft, hard, k)
    ensures forall k :: 0 <= k < |lines| - 1 ==> lines[k] != 0.0
    ensures |lines| <= (if depth < 0 then p.nbVar else depth) ==> lines[|lines| - 1] == 0.0
  {
    hide *;
    ghost var vs := p.AllVars();
    VarsCovered(p);
    var isUnsat, nbErosion := false, if depth < 0 then p.nbVar else depth;
    var softClauses := soft;
    var setOfVar := ListVars(p);
    StartEroding(p, soft, hard);
    lines := [];
    var cptErosion := 0;
    while cptErosion <= nbErosion
      invariant 0 <= cptErosion == |lines| <= nbErosion + 1
      invariant if isUnsat then Exhausted(soft, vs, cptErosion) else Eroded(soft, softClauses, p.nbVar, vs, cptErosion)
      invariant forall k :: 0 <= k < |lines| ==> lines[k] == ErodedCount(p, soft, hard, k) && lines[k] != 0.0
      decreases nbErosion + 1 - cptErosion
    {
      if isUnsat {
        ExhaustedCount(p, soft, hard, cptErosion);
        lines := lines + [0.0];
        break;
      }
      var tmpClauses := softClauses + hard;
      var q := p.(clauses := tmpClauses);
      RoundCount(p, soft, hard, softClauses, cptErosion, q);
      var count := CountModels(q, settings, setOfVar);
      lines := lines + [count];
      if count == 0.0 { break; }
      ErodedProper(soft, softClauses, p.nbVar, vs, cptErosion);
      var ok, eroded := Erode(softClauses, p.nbVar);
      AfterErosion(soft, softClauses, eroded, p.nbVar, vs, cptErosion, ok);
      isUnsat := !ok;
      softClauses := eroded;
      cptErosion := cptErosion + 1;
    }
  }

  /** The clauses as they are written: nothing but unknown variables and empty clauses is refused. */
  ghost predicate Given(p: Problem, soft: Formula, hard: Formula) {
    && (forall c :: c in soft + hard ==> Readable(c, p.nbVar))
    && !p.isUnsat && p.(clauses := []).Consistent()
  }

  /** Reads the clauses, then counts round by round: the lines are those of the clauses as written. */
  method RunGiven(p: Problem, soft: Formula, hard: Formula, depth: int, settings: Settings) returns (lines: seq<real>)
    requires Given(p, soft, hard) && ModeOk(p) && SettingsOk(settings, p.nbVar)
    ensures 1 <= |lines| <= (if depth < 0 then p.nbVar else depth) + 1
    ensures forall k :: 0 <= k < |lines| ==> lines[k] == ErodedCount(p, soft, hard, k)
    ensures forall k :: 0 <= k < |lines| - 1 ==> lines[k] != 0.0
    ensures |lines| <= (if depth < 0 then p.nbVar else depth) ==> lines[|lines| - 1] == 0.0
  {
    GivenReadable(p, soft, hard);
    hide *;
    var softClauses := ReadClauses(soft, p.nbVar);
    var hardClauses := ReadClauses(hard, p.nbVar);
    ReadProblem(p, soft, hard, softClauses, hardClauses);
    lines := Run(p, softClauses, hardClauses, depth, settings);
    forall k | 0 <= k < |lines|
      ensures ErodedCount(p, softClauses, hardClauses, k) == ErodedCount(p, soft, hard, k)
    {
      SameErodedCount(p, soft, hard, softClauses, hardClauses, k);
    }
  }

  lemma GivenReadable(p: Problem, soft: Formula, hard: Formula)
    requires Given(p, soft, hard)
    ensures (forall c :: c in soft ==> Readable(c, p.nbVar)) && forall c :: c in hard ==> Readable(c, p.nbVar)
  {
    hide Readable;
    assert forall c :: c in soft || c in hard ==> c in soft + hard;
  }

  lemma ReadProblem(p: Problem, soft: Formula, hard: Formula, soft1: Formula, hard1: Formula)
    requires Given(p, soft, hard)
    requires (forall c :: c in soft1 ==> Proper(c, p.nbVar)) && forall c :: c in hard1 ==> Proper(c, p.nbVar)
    ensures ErosionProblem(p, soft1, hard1)
  {
    hide DistinctVars;
    assert forall c :: c in soft1 + hard1 ==> Proper(c, p.nbVar);
  }

  lemma SameErodedCount(p: Problem, soft: Formula, hard: Formula, soft1: Formula, hard1: Formula, k: nat)
    requires forall a: Asg :: (forall v :: 1 <= v <= p.nbVar ==> v in a) ==> (Sat(soft1, a) <==> Sat(soft, a))
    requires forall a: Asg :: (forall v :: 1 <= v <= p.nbVar ==> v in a) ==> (Sat(hard1, a) <==> Sat(hard, a))
    ensures ErodedCount(p, soft1, hard1, k) == ErodedCount(p, soft, hard, k)
  {
    var vs := p.AllVars();
    var phi, psi := ErodedForm(soft1, hard1, vs, k), ErodedForm(soft, hard, vs, k);
    hide Sat, Problem.M, Differ;
    forall e: Asg | e.Keys == vs
      ensures phi(map[] + e) == psi(map[] + e)
    {
      assert (map[] + e).Keys == vs;
      assert forall b: Asg :: Within(vs, map[] + e, b, k) ==> (Sat(soft1, b) <==> Sat(soft, b));
    }
    Congruence(p.M(), vs, phi, map[], psi, map[]);
  }

  lemma ErodedProper(soft: Formula, f: Formula, nbVar: nat, vs: set<Var>, k: nat)
    requires Eroded(soft, f, nbVar, vs, k)
    ensures AllProper(f, nbVar)
  {
    hide AllProper, Sat, BallSat;
  }

  lemma VarsCovered(p: Problem)
    ensures forall v :: 1 <= v <= p.nbVar ==> v in p.AllVars()
  {
  }

  lemma StartEroding(p: Problem, soft: Formula, hard: Formula)
    requires ErosionProblem(p, soft, hard)
    ensures Eroded(soft, soft, p.nbVar, p.AllVars(), 0)
  {
    NotEroded(soft, p.nbVar, p.AllVars());
  }

  lemma ExhaustedCount(p: Problem, soft: Formula, hard: Formula, k: nat)
    requires Exhausted(soft, p.AllVars(), k)
    ensures ErodedCount(p, soft, hard, k) == 0.0
  {
    var vs, phi := p.AllVars(), ErodedForm(soft, hard, p.AllVars(), k);
    hide BallSat, Count;
    forall e: Asg | e.Keys == vs
      ensures !phi(map[] + e)
    {
      assert (map[] + e).Keys == vs;
    }
    assert !Extends(vs, phi, map[]);
    CountZero(p.M(), vs, phi, map[]);
  }

  lemma RoundProblem(p: Problem, soft: Formula, hard: Formula, f: Formula, q: Problem)
    requires ErosionProblem(p, soft, hard) && AllProper(f, p.nbVar) && q == p.(clauses := f + hard)
    ensures q.Consistent() && q.M() == p.M() && q.AllVars() == p.AllVars() && q.nbVar == p.nbVar
  {
    hide DistinctVars;
    assert p.(clauses := soft + hard).Consistent();
    forall c | c in q.clauses
      ensures c != [] && forall l :: l in c ==> 1 <= l.v <= q.nbVar
    {
      if c in f {
        assert Proper(c, p.nbVar);
      }
    }
  }

  lemma RoundCount(p: Problem, soft: Formula, hard: Formula, f: Formula, k: nat, q: Problem)
    requires ErosionProblem(p, soft, hard) && Eroded(soft, f, p.nbVar, p.AllVars(), k) && q == p.(clauses := f + hard)
    ensures q.Consistent() && q.AllVars() == p.AllVars() && (ModeOk(p) ==> ModeOk(q))
    ensures WeightedModelCount(q) == ErodedCount(p, soft, hard, k)
  {
    var vs, phi, psi := p.AllVars(), AllClauses(q.clauses), ErodedForm(soft, hard, p.AllVars(), k);
    RoundProblem(p, soft, hard, f, q);
    hide Problem.M, Problem.AllVars, Problem.Consistent, BallSat, AllProper, SatClause, ErosionProblem;
    forall e: Asg | e.Keys == vs
      ensures phi(map[] + e) == psi(map[] + e)
    {
      assert (map[] + e).Keys == vs;
      assert Sat(f + hard, map[] + e) <==> Sat(f, map[] + e) && Sat(hard, map[] + e);
    }
    hide *;
    Congruence(p.M(), vs, phi, map[], psi, map[]);
    AllVarsBelow(q);
    CountIsModelSum(q.M(), vs, phi, map[]);
    ModelCountIs(q);
  }

  lemma AfterErosion(soft: Formula, f: Formula, g: Formula, nbVar: nat, vs: set<Var>, k: nat, ok: bool)
    requires Eroded(soft, f, nbVar, vs, k) && (forall v :: 1 <= v <= nbVar ==> v in vs)
    requires ok <==> forall c :: c in f ==> |c| != 1
    requires ok ==> AllProper(g, nbVar) && forall a: Asg :: Sat(g, a) <==> Sat(Generated(f), a)
    ensures if ok then Eroded(soft, g, nbVar, vs, k + 1) else Exhausted(soft, vs, k + 1)
  {
    hide Eroded, Exhausted, Sat, AllProper, Generated;
    if ok {
      ErodedStep(soft, f, g, nbVar, vs, k);
    } else {
      var c :| c in f && |c| == 1;
      UnitExhausts(soft, f, nbVar, vs, k, c);
    }
  }
}
