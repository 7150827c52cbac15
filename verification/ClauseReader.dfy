/** Reading a clause: its literals are sorted, repeated ones are dropped, and tautologies are recognised. */
module ClauseReader {
  import opened Cnf
  import opened IdSort

  function Intern(l: Lit): nat { 2 * l.v + if l.sign then 1 else 0 }

  /** One literal per variable, at least one, and only known variables. */
  ghost predicate Proper(c: Clause, nbVar: nat) {
    c != [] && DistinctVars(c) && forall l :: l in c ==> 1 <= l.v <= nbVar
  }

  /** A clause as it is read: not empty, over known variables. */
  ghost predicate Readable(c: Clause, nbVar: nat) {
    c != [] && forall l :: l in c ==> 1 <= l.v <= nbVar
  }

  ghost predicate Tautology(c: Clause) {
    exists l :: l in c && l.Neg() in c
  }

  /** The literals by number; the two of a variable become neighbours. */
  function Ordered(c: Clause, nbVar: nat): Clause {
    Buckets(c, Intern, 2 * nbVar + 2)
  }

  lemma OrderedHolds(c: Clause, nbVar: nat)
    requires Readable(c, nbVar)
    ensures Ascending(Ordered(c, nbVar), Intern) && |Ordered(c, nbVar)| == |c|
    ensures forall l :: l in Ordered(c, nbVar) <==> l in c
  {
    hide Buckets;
    assert InRange(c, Intern, 2 * nbVar + 2) by { assert forall i: nat :: i < |c| ==> c[i] in c; }
    SortAscending(c, Intern, 2 * nbVar + 2);
    SortLength(c, Intern, 2 * nbVar + 2);
    BucketsIds(c, Intern, 2 * nbVar + 2);
    assert forall l :: l in c ==> Intern(l) < 2 * nbVar + 2;
  }

  /** The first `j` literals are those of the first `i` sorted ones, once each; the others are still in place. */
  ghost predicate Compacted(s: Clause, lits: Clause, i: nat, j: nat) {
    && |lits| == |s| && 1 <= j <= i <= |s| && lits[j - 1] == s[i - 1]
    && (forall t: nat :: i <= t < |s| ==> lits[t] == s[t])
    && (forall l :: l in lits[..j] <==> l in s[..i])
    && (forall a: nat, b: nat :: a < b < j ==> lits[a].v < lits[b].v)
  }

  lemma StartCompacted(s: Clause)
    requires s != []
    ensures Compacted(s, s, 1, 1)
  {
  }

  lemma RepeatSkipped(s: Clause, lits: Clause, i: nat, j: nat)
    requires Compacted(s, lits, i, j) && i < |s| && lits[i] == lits[j - 1]
    ensures Compacted(s, lits, i + 1, j)
  {
    assert s[..i + 1] == s[..i] + [s[i]];
    assert lits[j - 1] in lits[..j];
  }

  lemma Between(l: Lit, k: Lit, x: Lit)
    requires Intern(l) <= Intern(k) <= Intern(x) && x != k && x != k.Neg()
    ensures l.v < x.v
  {
  }

  /** Sorted literals of one variable stand next to each other. */
  lemma NewVariable(s: Clause, i: nat, l: Lit)
    requires Ascending(s, Intern) && 1 <= i < |s| && s[i] != s[i - 1] && s[i] != s[i - 1].Neg() && l in s[..i]
    ensures l.v < s[i].v
  {
    var t: nat :| t < i && s[t] == l;
    Between(l, s[i - 1], s[i]);
  }

  lemma LiteralKept(s: Clause, lits: Clause, i: nat, j: nat)
    requires Compacted(s, lits, i, j) && Ascending(s, Intern) && i < |s|
    requires lits[i] != lits[j - 1] && lits[i] != lits[j - 1].Neg()
    ensures Compacted(s, lits[j := lits[i]], i + 1, j + 1)
  {
    var next := lits[j := lits[i]];
    assert s[..i + 1] == s[..i] + [s[i]] && next[..j + 1] == lits[..j] + [lits[i]];
    forall t: nat | t < j
      ensures lits[t].v < lits[i].v
    {
      assert lits[..j][t] in lits[..j];
      NewVariable(s, i, lits[t]);
    }
  }

  /** A clause with two opposite literals has them next to each other once sorted. */
  lemma NoTautology(s: Clause, lits: Clause, j: nat)
    requires Compacted(s, lits, |s|, j)
    ensures !Tautology(s)
  {
    assert s[..|s|] == s;
    assert DistinctVars(lits[..j]);
    forall l | l in s
      ensures l.Neg() !in s
    {
      OneSign(lits[..j], l);
    }
  }

  /** Keeps each literal once; `isSat` tells whether the clause is a tautology. */
  method ReadClause(given: Clause, nbVar: nat) returns (c: Clause, isSat: bool)
    requires Readable(given, nbVar)
    ensures isSat <==> Tautology(given)
    ensures !isSat ==> Proper(c, nbVar) && forall l :: l in c <==> l in given
    ensures !isSat ==> forall i: nat, j: nat :: i < j < |c| ==> c[i].v < c[j].v
  {
    hide Ordered, Compacted, Tautology, Ascending;
    OrderedHolds(given, nbVar);
    var lits := Ordered(given, nbVar);
    ghost var s := lits;
    var j, i := 1, 1;
    isSat := false;
    StartCompacted(s);
    while !isSat && i < |lits|
      invariant 1 <= j <= i <= |lits| == |s|
      invariant !isSat ==> Compacted(s, lits, i, j)
      invariant isSat ==> Tautology(given)
    {
      CompactedParts(s, lits, i, j);
      if lits[i] == lits[j - 1] {
        RepeatSkipped(s, lits, i, j);
      } else {
        isSat := lits[i] == lits[j - 1].Neg();
        if isSat {
          OppositeFound(given, lits[j - 1]);
        } else {
          LiteralKept(s, lits, i, j);
        }
        lits := lits[j := lits[i]];
        j := j + 1;
      }
      i := i + 1;
    }
    c := [];
    if !isSat {
      NoTautology(s, lits, j);
      SameTautology(given, s);
      CompactedParts(s, lits, i, j);
      c := lits[..j];
      assert s[..i] == s;
      assert c[0] in c;
    }
  }

  lemma CompactedParts(s: Clause, lits: Clause, i: nat, j: nat)
    requires Compacted(s, lits, i, j)
    ensures |lits| == |s| && 1 <= j <= i <= |s| && DistinctVars(lits[..j])
    ensures forall a: nat, b: nat :: a < b < j ==> lits[a].v < lits[b].v
    ensures forall l :: l in lits[..j] <==> l in s[..i]
    ensures lits[j - 1] == s[i - 1] && lits[j - 1] in s && (i < |s| ==> lits[i] == s[i] && lits[i] in s)
  {
  }

  lemma OppositeFound(c: Clause, l: Lit)
    requires l in c && l.Neg() in c
    ensures Tautology(c)
  {
  }

  lemma SameTautology(c: Clause, d: Clause)
    requires forall l :: l in c <==> l in d
    ensures Tautology(c) <==> Tautology(d)
  {
  }

  // ---------- Reading a formula ----------

  lemma SameLiterals(c: Clause, d: Clause, a: Asg)
    requires forall l :: l in c <==> l in d
    ensures SatClause(c, a) <==> SatClause(d, a)
  {
    if SatClause(c, a) {
      var i :| 0 <= i < |c| && TrueIn(c[i], a);
      assert c[i] in d;
    }
    if SatClause(d, a) {
      var i :| 0 <= i < |d| && TrueIn(d[i], a);
      assert d[i] in c;
    }
  }

  lemma TautologyHolds(c: Clause, a: Asg)
    requires Tautology(c) && forall l :: l in c ==> l.v in a
    ensures SatClause(c, a)
  {
    var l :| l in c && l.Neg() in c;
    var k := if TrueIn(l, a) then l else l.Neg();
    var i :| 0 <= i < |c| && c[i] == k;
  }

  /** Drops tautologies and repeated literals; what is left has the same models. */
  method ReadClauses(given: Formula, nbVar: nat) returns (f: Formula)
    requires forall c :: c in given ==> Readable(c, nbVar)
    ensures forall c :: c in f ==> Proper(c, nbVar)
    ensures forall a: Asg :: (forall v :: 1 <= v <= nbVar ==> v in a) ==> (Sat(f, a) <==> Sat(given, a))
  {
    hide Proper, Readable, Tautology, SatClause;
    f := [];
    for i := 0 to |given|
      invariant forall c :: c in f ==> Proper(c, nbVar)
      invariant forall a: Asg :: (forall v :: 1 <= v <= nbVar ==> v in a) ==> (Sat(f, a) <==> Sat(given[..i], a))
    {
      var c, isSat := ReadClause(given[i], nbVar);
      assert given[..i + 1] == given[..i] + [given[i]];
      ghost var before := f;
      if !isSat { f := f + [c]; }
      forall a: Asg | forall v :: 1 <= v <= nbVar ==> v in a
        ensures Sat(f, a) <==> Sat(given[..i + 1], a)
      {
        ReadNext(before, given[..i], given[i], nbVar, c, isSat, a);
      }
    }
    assert given[..|given|] == given;
  }

  lemma ReadNext(f: Formula, done: Formula, d: Clause, nbVar: nat, c: Clause, isSat: bool, a: Asg)
    requires (Sat(f, a) <==> Sat(done, a)) && Readable(d, nbVar) && forall v :: 1 <= v <= nbVar ==> v in a
    requires (isSat ==> Tautology(d)) && (!isSat ==> forall l :: l in c <==> l in d)
    ensures Sat(if isSat then f else f + [c], a) <==> Sat(done + [d], a)
  {
    hide SatClause, Tautology;
    if isSat {
      TautologyHolds(d, a);
    } else {
      SameLiterals(c, d, a);
    }
  }
}
