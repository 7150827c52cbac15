/** The minimising delta debugger of scripts/qbfdd.py, without QDIMACS compliance and quantifier shifting. */
module DeltaDebugger {
  import opened DeltaLists
  import opened DeltaHistory
  import opened DeltaLevels

  /** `count[v]` is the number of literals of `f` on `v`, for every variable the file declares. */
  ghost predicate CountsFor(count: seq<int>, f: seq<Clause>) {
    forall v: nat :: OccursIn(f, v) == if v < |count| then count[v] else 0
  }

  function FirstIndex<T(==)>(s: seq<T>, x: T): (i: nat)
    requires x in s
    ensures i < |s| && s[i] == x && x !in s[..i]
  {
    if s[0] == x then 0 else
      var j := FirstIndex(s[1..], x);
      assert s[..j + 1] == [s[0]] + s[1..][..j];
      j + 1
  }

  function Pick<T>(s: seq<T>, indices: seq<nat>): seq<T>
    requires forall i: nat :: i < |indices| ==> indices[i] < |s|
  {
    seq(|indices|, (i: nat) requires i < |indices| => s[indices[i]])
  }

  ghost predicate Entry<T(!new)>(test: seq<Clause> -> Outcome, view: View<T>, orig: seq<T>, length: nat, key: seq<nat>, outcome: Outcome) {
    (forall i: nat :: i < |key| ==> key[i] < |orig|) &&
    outcome == test(view.config(Pick(orig, key))) &&
    (outcome == Failed ==> |key| >= length)
  }

  /** Remembered outcomes are those of the test, and failing ones belong to lists no shorter than the current one. */
  ghost predicate Remembered<T(!new)>(test: seq<Clause> -> Outcome, view: View<T>, orig: seq<T>, length: nat, results: map<seq<nat>, Outcome>) {
    forall key: seq<nat> :: key in results ==> Entry(test, view, orig, length, key, results[key])
  }

  lemma RememberedLonger<T(!new)>(test: seq<Clause> -> Outcome, view: View<T>, orig: seq<T>, length: nat, shorter: nat, results: map<seq<nat>, Outcome>)
    requires Remembered(test, view, orig, length, results) && shorter <= length
    ensures Remembered(test, view, orig, shorter, results)
  {
    forall key: seq<nat> | key in results ensures Entry(test, view, orig, shorter, key, results[key]) {
      assert Entry(test, view, orig, length, key, results[key]);
    }
  }

  lemma RememberedAdd<T(!new)>(test: seq<Clause> -> Outcome, view: View<T>, orig: seq<T>, length: nat, results: map<seq<nat>, Outcome>, key: seq<nat>, outcome: Outcome)
    requires Remembered(test, view, orig, length, results) && Entry(test, view, orig, length, key, outcome)
    ensures Remembered(test, view, orig, length, results[key := outcome])
  {
    var added := results[key := outcome];
    forall k: seq<nat> | k in added ensures Entry(test, view, orig, length, k, added[k]) {
      if k != key {
        assert Entry(test, view, orig, length, k, results[k]);
      }
    }
  }

  lemma SplitSize<T(!new)>(s: seq<T>, n: nat, parts: seq<seq<T>>)
    requires IsSplit(s, n, parts)
    ensures |parts| == n
  {
  }

  /** A remembered outcome other than passing means that the list does not fail: failing lists are longer. */
  lemma Recalled<T(!new)>(test: seq<Clause> -> Outcome, view: View<T>, orig: seq<T>, superset: seq<T>, kept: seq<T>,
      results: map<seq<nat>, Outcome>, indices: seq<nat>)
    requires Remembered(test, view, orig, |superset|, results) && indices in results && |kept| < |superset|
    requires (forall i: nat :: i < |indices| ==> indices[i] < |orig|) && Pick(orig, indices) == kept
    ensures test(view.config(kept)) != Failed
  {
    assert Entry(test, view, orig, |superset|, indices, results[indices]);
  }

  lemma NewEntry<T(!new)>(test: seq<Clause> -> Outcome, view: View<T>, orig: seq<T>, superset: seq<T>, kept: seq<T>,
      results: map<seq<nat>, Outcome>, indices: seq<nat>)
    requires Remembered(test, view, orig, |superset|, results) && |kept| < |superset|
    requires (forall i: nat :: i < |indices| ==> indices[i] < |orig|) && Pick(orig, indices) == kept
    ensures var outcome := test(view.config(kept));
      Remembered(test, view, orig, if outcome == Failed then |kept| else |superset|, results[indices := outcome])
  {
    var outcome := test(view.config(kept));
    var length := if outcome == Failed then |kept| else |superset|;
    RememberedLonger(test, view, orig, |superset|, length, results);
    assert Entry(test, view, orig, length, indices, outcome);
    RememberedAdd(test, view, orig, length, results, indices, outcome);
  }

  lemma SublistMembers<T(!new)>(s: seq<T>, t: seq<T>)
    requires Sublist(s, t)
    ensures forall x: T :: x in s ==> x in t
  {
    var e: seq<nat> :| Embedding(s, t, e);
    forall x: T | x in s ensures x in t {
      var i: nat :| i < |s| && s[i] == x;
      assert t[e[i]] == x;
    }
  }

  method GetIndices<T(==)>(subset: seq<T>, superset: seq<T>) returns (indices: seq<nat>)
    requires forall x: T :: x in subset ==> x in superset
    ensures |indices| == |subset|
    ensures forall i: nat :: i < |subset| ==> indices[i] < |superset| && indices[i] == FirstIndex(superset, subset[i])
    ensures Pick(superset, indices) == subset
  {
    indices := [];
    for i := 0 to |subset|
      invariant |indices| == i
      invariant forall j: nat :: j < i ==> indices[j] == FirstIndex(superset, subset[j])
    {
      indices := indices + [FirstIndex(superset, subset[i])];
    }
  }

  method Split<T>(s: seq<T>, n: nat) returns (subsets: seq<seq<T>>)
    requires 0 < n <= |s|
    ensures IsSplit(s, n, subsets)
  {
    subsets := [];
    var end := 0;
    for i := 0 to n
      invariant |subsets| == i && end == Cut(|s|, n, i)
      invariant forall j: nat {:trigger subsets[j]} :: j < i ==> IsPart(s, n, j, subsets[j])
    {
      CutStep(|s|, n, i);
      var start := end;
      if i < |s| % n {
        end := start + |s| / n + 1;
      } else {
        end := start + |s| / n;
      }
      subsets := subsets + [s[start..end]];
    }
  }

  /** Takes the literals of `items` off the reference counts. */
  method Discount<T(!new)>(count0: seq<int>, literals: T -> seq<Literal>, items: seq<T>) returns (count: seq<int>)
    requires forall v: nat :: OccursOf(literals, items, v) <= if v < |count0| then count0[v] else 0
    ensures |count| == |count0|
    ensures forall v: nat :: v < |count| ==> count[v] == count0[v] - OccursOf(literals, items, v)
  {
    count := count0;
    for i := 0 to |items|
      invariant |count| == |count0|
      invariant forall v: nat :: v < |count| ==> count[v] == count0[v] - OccursOf(literals, items[..i], v)
    {
      var lits, before := literals(items[i]), count;
      forall v: nat
        ensures OccursOf(literals, items[..i + 1], v) == OccursOf(literals, items[..i], v) + Occurs(lits, v)
        ensures OccursOf(literals, items[..i], v) + Occurs(lits, v) <= if v < |count0| then count0[v] else 0
      {
        NextOccurs(literals, items, i, v);
      }
      for j := 0 to |lits|
        invariant |count| == |count0|
        invariant forall v: nat :: v < |count| ==> count[v] == before[v] - Occurs(lits[..j], v)
      {
        var x := Variable(lits[j]);
        forall v: nat
          ensures Occurs(lits[..j + 1], v) == Occurs(lits[..j], v) + (if x == v then 1 else 0)
          ensures Occurs(lits[..j + 1], v) <= Occurs(lits, v)
        {
          NextLiteral(lits, j, v);
        }
        assert OccursOf(literals, items[..i], x) + Occurs(lits, x) >= 1;
        count := count[x := count[x] - 1];
        assert count[x] >= 0;
      }
      assert lits[..|lits|] == lits;
    }
    assert items[..|items|] == items;
  }

  lemma NextLiteral(lits: seq<Literal>, j: nat, v: nat)
    requires j < |lits|
    ensures Occurs(lits[..j + 1], v) == Occurs(lits[..j], v) + (if Variable(lits[j]) == v then 1 else 0)
    ensures Occurs(lits[..j + 1], v) <= Occurs(lits, v)
  {
    assert lits[..j + 1] == lits[..j] + [lits[j]];
    OccursAppend(lits[..j], [lits[j]], v);
    assert lits == lits[..j + 1] + lits[j + 1..];
    OccursAppend(lits[..j + 1], lits[j + 1..], v);
  }

  lemma NextOccurs<T>(literals: T -> seq<Literal>, items: seq<T>, i: nat, v: nat)
    requires i < |items|
    ensures OccursOf(literals, items[..i + 1], v) == OccursOf(literals, items[..i], v) + Occurs(literals(items[i]), v)
    ensures OccursOf(literals, items[..i + 1], v) <= OccursOf(literals, items, v)
  {
    assert items[..i + 1] == items[..i] + [items[i]];
    OccursOfAppend(literals, items[..i], [items[i]], v);
    assert Flat(literals, [items[i]]) == literals(items[i]) by {
      assert Flat(literals, [items[i]][1..]) == [];
      assert literals(items[i]) + [] == literals(items[i]);
    }
    assert items == items[..i + 1] + items[i + 1..];
    OccursOfAppend(literals, items[..i + 1], items[i + 1..], v);
  }

  /** Total number of clauses and literals. */
  function Size(f: seq<Clause>): nat { if f == [] then 0 else 1 + |f[0]| + Size(f[1..]) }

  lemma {:induction false} SizeAppend(f: seq<Clause>, g: seq<Clause>)
    ensures Size(f + g) == Size(f) + Size(g)
  {
    if f == [] {
      assert f + g == g;
    } else {
      assert (f + g)[1..] == f[1..] + g;
      SizeAppend(f[1..], g);
    }
  }

  lemma SizeUpdate(f: seq<Clause>, i: nat, c: Clause)
    requires i < |f|
    ensures Size(f[i := c]) == Size(f) - |f[i]| + |c|
  {
    assert f == f[..i] + ([f[i]] + f[i + 1..]);
    assert f[i := c] == f[..i] + ([c] + f[i + 1..]);
    SizeAppend(f[..i], [f[i]] + f[i + 1..]);
    SizeAppend(f[..i], [c] + f[i + 1..]);
  }

  lemma {:induction false} SublistSize(s: seq<Clause>, t: seq<Clause>, e: seq<nat>)
    requires Embedding(s, t, e)
    ensures Size(s) <= Size(t)
  {
    if s != [] {
      var last := |s| - 1;
      var p := e[last];
      assert Embedding(s[..last], t[..p], e[..last]);
      SublistSize(s[..last], t[..p], e[..last]);
      assert s == s[..last] + [s[last]];
      SizeAppend(s[..last], [s[last]]);
      assert t == t[..p] + ([t[p]] + t[p + 1..]);
      SizeAppend(t[..p], [t[p]] + t[p + 1..]);
    }
  }

  lemma SublistSmaller(s: seq<Clause>, t: seq<Clause>)
    requires Sublist(s, t)
    ensures Size(s) <= Size(t)
    ensures |s| < |t| ==> Size(s) < Size(t)
  {
    var e: seq<nat> :| Embedding(s, t, e);
    SublistSize(s, t, e);
    if |s| < |t| {
      StrictSize(s, t, e);
    }
  }

  lemma {:induction false} StrictSize(s: seq<Clause>, t: seq<Clause>, e: seq<nat>)
    requires Embedding(s, t, e) && |s| < |t|
    ensures Size(s) < Size(t)
  {
    var last := |t| - 1;
    assert t == t[..last] + [t[last]];
    SizeAppend(t[..last], [t[last]]);
    if |s| > 0 && e[|s| - 1] == last {
      var k := |s| - 1;
      assert Embedding(s[..k], t[..last], e[..k]);
      StrictSize(s[..k], t[..last], e[..k]);
      assert s == s[..k] + [s[k]];
      SizeAppend(s[..k], [s[k]]);
    } else {
      forall i: nat | i < |s| ensures e[i] < last {
        if i < |s| - 1 {
          assert e[i] < e[|s| - 1];
        }
      }
      assert Embedding(s, t[..last], e);
      SublistSize(s, t[..last], e);
    }
  }

  lemma MinimisedHolds<T(!new)>(test: Formula -> Outcome, vars: bool, view: View<T>, orig: seq<T>, result: seq<T>)
    requires Sublist(result, orig) && (result == orig || (test(view.config(result)) == Failed && 0 < |result| < |orig|))
    requires vars && |result| >= 2 ==> OneMinimal(test, view, result)
    ensures Minimised(test, vars, view, orig, result)
  {
  }

  lemma StepMade(test: Formula -> Outcome, vars: bool, f: Formula, i: nat, c: Clause)
    requires i < |f| && Minimised(test, vars, Single(f, i), f[i], c)
    ensures PassStep(test, vars, f, i, f[i := c])
  {
    assert f[i := c][i] == c;
  }

  lemma NotStarted(test: Formula -> Outcome, vars: bool, gran: Granularity, start: Formula)
    ensures Going(test, vars, gran, start, [], start)
  {
  }

  lemma PassNonempty(test: Formula -> Outcome, vars: bool, fs: seq<Formula>)
    requires Pass(test, vars, fs)
    ensures fs != []
  {
  }

  lemma WholeConfig(f: Formula)
    ensures Whole().config(f) == f
  {
  }

  lemma NothingRemembered<T(!new)>(test: Formula -> Outcome, view: View<T>, orig: seq<T>)
    ensures Remembered(test, view, orig, |orig|, map[])
  {
  }

  class Debugger {
    var clauses: seq<Clause>
    var refCount: seq<int>
    const test: seq<Clause> -> Outcome
    const simple: bool
    const inverse: bool

    /** The parser: one pass over the literals counts the variables. */
    constructor (numVars: nat, clauses: seq<Clause>, test: seq<Clause> -> Outcome, simple: bool, inverse: bool)
      requires forall c: Clause, l: Literal :: c in clauses && l in c ==> Variable(l) <= numVars
      ensures this.clauses == clauses && this.test == test && this.simple == simple && this.inverse == inverse
      ensures |refCount| == numVars + 1 && CountsFor(refCount, clauses)
    {
      this.clauses, this.test, this.simple, this.inverse := clauses, test, simple, inverse;
      var count := seq(numVars + 1, _ => 0);
      var literals := (c: Clause) => c;
      for i := 0 to |clauses|
        invariant |count| == numVars + 1
        invariant CountsFor(count, clauses[..i])
      {
        var c, before := clauses[i], count;
        for j := 0 to |c|
          invariant |count| == numVars + 1
          invariant forall v: nat :: OccursIn(clauses[..i], v) + Occurs(c[..j], v) == if v < |count| then count[v] else 0
        {
          assert c[j] in c && c in clauses;
          var x := Variable(c[j]);
          forall v: nat ensures Occurs(c[..j + 1], v) == Occurs(c[..j], v) + (if x == v then 1 else 0) {
            NextLiteral(c, j, v);
          }
          count := count[x := count[x] + 1];
        }
        assert c[..|c|] == c;
        forall v: nat ensures OccursIn(clauses[..i + 1], v) == OccursIn(clauses[..i], v) + Occurs(c, v) {
          NextOccurs(literals, clauses, i, v);
        }
      }
      assert clauses[..|clauses|] == clauses;
      refCount := count;
    }

    /** The configuration with a part removed, and its reference counts. */
    method Reduce<T(!new)>(view: View<T>, ghost superset: seq<T>, ghost n: nat, subsets: seq<seq<T>>, i: nat, complement: bool)
      returns (count: seq<int>, kept: seq<T>)
      requires Uniform(view) && IsSplit(superset, n, subsets) && n <= |superset| && i < n
      requires CountsFor(refCount, view.config(superset))
      ensures kept == Candidate(subsets, i, complement)
      ensures |count| == |refCount| && CountsFor(count, view.config(kept))
    {
      kept := Candidate(subsets, i, complement);
      var gone := Dropped(subsets, i, complement);
      forall v: nat
        ensures OccursIn(view.config(superset), v) == OccursIn(view.config(kept), v) + OccursOf(view.literals, gone, v)
      {
        CandidateOccurs(view.literals, superset, n, subsets, i, complement, v);
      }
      count := Discount(refCount, view.literals, gone);
    }

    /** One pass over the parts: the first tried list that still fails, if any. */
    method TestAll<T(==, !new)>(view: View<T>, orig: seq<T>, superset: seq<T>, ghost n: nat, subsets: seq<seq<T>>, complement: bool,
                                results0: map<seq<nat>, Outcome>)
      returns (found: bool, next: seq<T>, results: map<seq<nat>, Outcome>, ghost part: nat)
      requires Uniform(view) && IsSplit(superset, n, subsets) && 2 <= n <= |superset|
      requires CountsFor(refCount, view.config(superset)) && Sublist(superset, orig)
      requires Remembered(test, view, orig, |superset|, results0)
      modifies this`refCount
      ensures |refCount| == old(|refCount|) && CountsFor(refCount, view.config(next))
      ensures Remembered(test, view, orig, |next|, results)
      ensures if found then part < n && next == Tried(superset, n, part, complement) else next == superset && refCount == old(refCount)
      ensures found ==> |refCount| != 1 && Sublist(next, superset) && 0 < |next| < |superset| && (complement ==> |next| >= n - 1)
      ensures found ==> test(view.config(next)) == Failed && First(test, view, superset, n, complement, part)
      ensures !found && |refCount| != 1 ==> Refused(test, view, superset, n, complement, n)
    {
      hide CountsFor, Uniform, IsSplit, Sublist, Entry, Remembered, Candidate, Pick, Tried;
      found, next, results, part := false, superset, results0, 0;
      SplitSize(superset, n, subsets);
      for i := 0 to |subsets|
        invariant !found && next == superset && refCount == old(refCount)
        invariant Remembered(test, view, orig, |superset|, results)
        invariant |refCount| != 1 ==> Refused(test, view, superset, n, complement, i)
      {
        var count, kept := Reduce(view, superset, n, subsets, i, complement);
        TriedIsCandidate(superset, n, subsets, i, complement);
        CandidateShorter(superset, n, subsets, i, complement);
        SublistTransitive(kept, superset, orig);
        SublistMembers(kept, orig);
        var indices := GetIndices(kept, orig);
        if indices in results && results[indices] != Passed {
          Recalled(test, view, orig, superset, kept, results, indices);
          continue;
        }
        if |count| - 1 == 0 {
          continue;
        }
        var outcome := test(view.config(kept));
        NewEntry(test, view, orig, superset, kept, results, indices);
        results := results[indices := outcome];
        if outcome == Failed {
          found, next, part := true, kept, i;
          refCount := count;
          break;
        }
      }
    }

    /** One level: the parts first, unless the mode is simple, then their complements. */
    method TestLevel<T(==, !new)>(view: View<T>, orig: seq<T>, superset: seq<T>, n: nat, results0: map<seq<nat>, Outcome>)
      returns (found: bool, complement: bool, next: seq<T>, results: map<seq<nat>, Outcome>, ghost level: Level<T>)
      requires Uniform(view) && 2 <= n <= |superset|
      requires CountsFor(refCount, view.config(superset)) && Sublist(superset, orig)
      requires Remembered(test, view, orig, |superset|, results0)
      modifies this`refCount
      ensures |refCount| == old(|refCount|) && CountsFor(refCount, view.config(next))
      ensures Remembered(test, view, orig, |next|, results)
      ensures level.list == superset && level.n == n && LevelOk(test, view, |refCount| != 1, simple, level) && Shaped(level)
      ensures next == NextList(level) && found == !level.found.Nothing? && (found ==> complement == level.found.Left?) && (!found ==> next == superset)
      ensures found ==> test(view.config(next)) == Failed && Sublist(next, superset) && 0 < |next| < |superset|
    {
      hide CountsFor, Uniform, Sublist, Remembered, LevelOk, IsSplit, First, Refused, Tried;
      var subsets := Split(superset, n);
      complement, found, next, results := simple, false, superset, results0;
      ghost var hit := Nothing;
      while true
        invariant refCount == old(refCount) && Remembered(test, view, orig, |superset|, results)
        invariant !found && next == superset && (simple ==> complement)
        invariant |refCount| != 1 && complement && !simple ==> Refused(test, view, superset, n, false, n)
        decreases !complement
      {
        ghost var part: nat;
        found, next, results, part := TestAll(view, orig, superset, n, subsets, complement, results);
        if found {
          hit := if complement then Left(part) else Alone(part);
          break;
        }
        if !complement {
          complement := true;
        } else {
          break;
        }
      }
      level := Level(superset, n, hit);
      LevelMade(test, view, |refCount| != 1, simple, level);
    }

    /** Minimises a list in the levels `ls`. */
    method Ddmin<T(==, !new)>(view: View<T>, orig: seq<T>) returns (successful: bool, superset: seq<T>, ghost ls: seq<Level<T>>)
      requires Uniform(view) && CountsFor(refCount, view.config(orig))
      modifies this`refCount
      ensures |refCount| == old(|refCount|) && CountsFor(refCount, view.config(superset))
      ensures Sublist(superset, orig)
      ensures successful ==> test(view.config(superset)) == Failed && 0 < |superset| < |orig|
      ensures !successful ==> superset == orig
      ensures Levels(test, view, |refCount| != 1, simple, inverse, orig, ls) && Reached(orig, ls, superset) && Ended(inverse, ls, superset)
      ensures |refCount| > 1 && |superset| >= 2 ==> OneMinimal(test, view, superset) && (simple || NoneAlone(test, view, superset))
    {
      hide CountsFor, Uniform, Sublist, Remembered, Levels, LevelOk, OneMinimal, NoneAlone, Ahead, NextList, Reached;
      superset, successful, ls := orig, false, [];
      var results: map<seq<nat>, Outcome> := map[];
      var n: nat := if inverse then |superset| else 2;
      ghost var vars := |refCount| != 1;
      NothingRemembered(test, view, orig);
      SublistSelf(orig);
      NoLevels(test, view, vars, simple, inverse, orig, n);
      while |superset| >= 2
        invariant |refCount| == old(|refCount|) && CountsFor(refCount, view.config(superset))
        invariant Sublist(superset, orig)
        invariant Remembered(test, view, orig, |superset|, results)
        invariant if successful then test(view.config(superset)) == Failed && 0 < |superset| < |orig| else superset == orig
        invariant Levels(test, view, vars, simple, inverse, orig, ls) && Ahead(inverse, orig, ls, superset, n)
        decreases |superset|, if inverse then n else |superset| - n
      {
        SizeAhead(test, view, vars, simple, inverse, orig, ls, superset, n);
        var found, complement, next;
        ghost var level;
        found, complement, next, results, level := TestLevel(view, orig, superset, n, results);
        AddLevel(test, view, vars, simple, inverse, orig, ls, level);
        ls := ls + [level];
        if found {
          SublistTransitive(next, superset, orig);
          superset, successful := next, true;
          if inverse {
            n := |superset|;
          } else if !complement {
            n := 2;
          } else {
            n := Max(n - 1, 2);
          }
        } else if inverse {
          if n == 2 {
            break;
          }
          Coarser(|superset|, n);
          var m := |superset| / n;
          m := m + 1;
          n := Max(|superset| / m, 2);
        } else {
          if n == |superset| {
            break;
          }
          n := Min(2 * n, |superset|);
        }
        AheadOfLevel(inverse, orig, ls, superset, n);
      }
      ListReached(inverse, orig, ls, superset, n);
      if |refCount| > 1 && |superset| >= 2 {
        LevelsMinimal(test, view, simple, inverse, orig, ls, superset);
      }
    }

    /** One pass of literal removal over all clauses, through the formulas `fs`; `done` when none could be shortened. */
    method MinimizeClauses() returns (done: bool, ghost fs: seq<Formula>)
      requires CountsFor(refCount, clauses)
      modifies this`clauses, this`refCount
      ensures |refCount| == old(|refCount|) && CountsFor(refCount, clauses)
      ensures Pass(test, |refCount| > 1, fs) && fs[0] == old(clauses) && fs[|fs| - 1] == clauses
      ensures done <==> clauses == old(clauses)
      ensures !done ==> test(clauses) == Failed && Size(clauses) < old(Size(clauses))
    {
      done := true;
      ghost var mid, vars := clauses, |refCount| > 1;
      fs := [clauses];
      for i := 0 to |clauses|
        invariant |clauses| == |mid| && |refCount| == old(|refCount|) && CountsFor(refCount, clauses)
        invariant |fs| == i + 1 && fs[0] == mid && fs[i] == clauses
        invariant forall k: nat :: k < i ==> PassStep(test, vars, fs[k], k, fs[k + 1])
        invariant if done then clauses == mid else test(clauses) == Failed && Size(clauses) < Size(mid)
      {
        hide Uniform, CountsFor, Sublist, OneMinimal, NoneAlone, Size, Single, PassStep, Levels, Reached, Ended;
        var clause, view, before := clauses[i], Single(clauses, i), clauses;
        SingleUniform(clauses, i);
        ghost var ls;
        var successful, shorter;
        successful, shorter, ls := Ddmin(view, clause);
        SingleConfig(before, i, shorter);
        SizeUpdate(before, i, shorter);
        StepMade(test, vars, before, i, shorter);
        clauses := clauses[i := shorter];
        fs := fs + [clauses];
        if successful {
          done := false;
        } else {
          assert clauses == before;
        }
      }
    }

    /**
     * Rounds of reducing the clause list and then every clause, recorded in `rs`. They end when a pass over the clauses
     * changes nothing, or when a clause list could not be reduced after the first round. In the second case clauses
     * treated early in the last pass are not tried again, and a later change may have made their literals superfluous.
     */
    method Rounds(gran: Granularity) returns (settled: bool, ghost rs: seq<Round>)
      requires CountsFor(refCount, clauses)
      modifies this`clauses, this`refCount
      ensures |refCount| == old(|refCount|) && CountsFor(refCount, clauses)
      ensures clauses == old(clauses) || test(clauses) == Failed
      ensures History(test, |refCount| > 1, gran, old(clauses), rs) && clauses == Result(rs) && settled == Settles(rs[|rs| - 1])
      ensures gran != LiteralsOnly && |refCount| > 1 && |clauses| >= 2 ==> OneMinimal(test, Whole(), clauses)
      ensures gran == LiteralsOnly ==> settled
      ensures gran != ClausesOnly && |refCount| > 1 ==> (ClausesMinimal(test, clauses, |clauses|) <==> !PassFlips(test, LastPass(rs)))
      ensures gran != ClausesOnly && |refCount| > 1 && (settled || Monotone(test)) ==> ClausesMinimal(test, clauses, |clauses|)
    {
      hide Minimised, Pass, OneMinimal, NoneAlone, Levels, Reached, Ended, ClausesMinimal, PassFlips, Monotone, CountsFor, Uniform, Sublist, Whole, Size, Going, History, Result;
      var rounds := 0;
      var done := false;
      rs := [];
      ghost var vars := |refCount| > 1;
      WholeUniform();
      NotStarted(test, vars, gran, clauses);
      while !done
        invariant |refCount| == old(|refCount|) && CountsFor(refCount, clauses)
        invariant clauses == old(clauses) || test(clauses) == Failed
        invariant |rs| == rounds && Going(test, vars, gran, old(clauses), rs, clauses)
        invariant done <==> rs != [] && Settled(rs)
        decreases Size(clauses), !done
      {
        ghost var start, before := clauses, rs;
        if gran != LiteralsOnly {
          WholeConfig(clauses);
          ghost var ls;
          var successful, reduced;
          successful, reduced, ls := Ddmin(Whole(), clauses);
          MinimisedHolds(test, vars, Whole(), clauses, reduced);
          WholeConfig(reduced);
          SublistSmaller(reduced, clauses);
          clauses := reduced;
          if !successful && (rounds > 0 || gran == ClausesOnly) {
            rs := before + [Round(start, reduced, [])];
            GoOn(test, vars, gran, old(clauses), before, rs[rounds]);
            RunEnds(test, vars, gran, old(clauses), rs);
            return false, rs;
          }
        }
        ghost var reduced := clauses;
        ghost var fs: seq<Formula> := [];
        if gran != ClausesOnly {
          done, fs := MinimizeClauses();
          PassNonempty(test, vars, fs);
        }
        rs := before + [Round(start, reduced, fs)];
        GoOn(test, vars, gran, old(clauses), before, rs[rounds]);
        rounds := rounds + 1;
      }
      Done(test, vars, gran, old(clauses), rs, clauses);
      RunEnds(test, vars, gran, old(clauses), rs);
      settled := true;
    }
  }

  lemma Scale(n: nat, r: nat, m: nat)
    ensures n <= r ==> n * m <= r * m
  {
    if n <= r {
      assert r * m == n * m + (r - n) * m;
    }
  }

  /** The inverse modes coarsen strictly. */
  lemma Coarser(len: nat, n: nat)
    requires 2 < n <= len
    ensures len / (len / n + 1) < n && len / (len / n + 1) <= len
  {
    var q := len / n;
    assert len == n * q + len % n;
    var m := q + 1;
    assert len < n * m;
    var r := len / m;
    assert len == r * m + len % m;
    Scale(n, r, m);
  }
}
