/** Fusion of equivalence classes that share variables. */
module EquivExtractor {
  import opened FiniteSets

  type Class = seq<nat>

  predicate Disjoint(c: Class, d: Class) { forall v: nat :: !(v in c && v in d) }

  /** A set that splits none of the classes. */
  predicate Respects(s: iset<nat>, c: Class) { (forall v: nat :: v in c ==> v in s) || (forall v: nat :: v in c ==> v !in s) }

  ghost predicate ClosedSet(s: iset<nat>, initial: seq<Class>) { forall i: nat :: i < |initial| ==> Respects(s, initial[i]) }

  /** Everything in `c` is connected through the initial classes: no closed set tells two of its variables apart. */
  ghost predicate Connected(initial: seq<Class>, c: Class) {
    forall s: iset<nat> :: ClosedSet(s, initial) ==> Respects(s, c)
  }

  predicate Inside(c: Class, d: Class) { forall v: nat :: v in c ==> v in d }

  ghost predicate Covered(c: Class, classes: seq<Class>) { exists k: nat :: k < |classes| && Inside(c, classes[k]) }

  /** The classes after some fusions: still connected, duplicate free, and covering the initial ones. */
  ghost predicate Fused(initial: seq<Class>, classes: seq<Class>) {
    (forall k: nat :: k < |classes| ==> NoDup(classes[k]) && Connected(initial, classes[k])) &&
    (forall i: nat :: i < |initial| ==> Covered(initial[i], classes)) &&
    (forall k: nat, v: nat :: k < |classes| && v in classes[k] ==> Known(initial, v))
  }

  ghost predicate Known(initial: seq<Class>, v: nat) { exists i: nat :: i < |initial| && v in initial[i] }

  /** The classes `k < n` share no variable with any other class. */
  ghost predicate Apart(classes: seq<Class>, n: nat) {
    forall k: nat, m: nat :: k < n && k < m < |classes| ==> Disjoint(classes[k], classes[m])
  }

  ghost predicate Marks(marked: seq<bool>, c: Class) { forall v: nat :: v < |marked| ==> (marked[v] <==> v in c) }

  ghost predicate Within(classes: seq<Class>, n: nat) { forall k: nat, v: nat :: k < |classes| && v in classes[k] ==> v < n }

  /** Two connected classes that share a variable make one connected class. */
  lemma JoinConnected(initial: seq<Class>, a: Class, b: Class, c: Class, v: nat)
    requires Connected(initial, a) && Connected(initial, b) && v in a && v in b
    requires forall x: nat :: x in c <==> x in a || x in b
    ensures Connected(initial, c)
  {
    forall s: iset<nat> | ClosedSet(s, initial) ensures Respects(s, c) {
      assert Respects(s, a) && Respects(s, b);
    }
  }

  lemma JoinFused(initial: seq<Class>, classes: seq<Class>, i: nat, j: nat, c: Class, v: nat)
    requires Fused(initial, classes) && i < j < |classes| && v in classes[i] && v in classes[j]
    requires NoDup(c) && forall x: nat :: x in c <==> x in classes[i] || x in classes[j]
    ensures Fused(initial, classes[i := c][j := []])
  {
    hide Connected, NoDup;
    var after := classes[i := c][j := []];
    EmptyClass(initial);
    JoinConnected(initial, classes[i], classes[j], c, v);
    forall p: nat | p < |initial| ensures Covered(initial[p], after) {
      assert Covered(initial[p], classes);
      var k: nat :| k < |classes| && Inside(initial[p], classes[k]);
      var m := if k == j then i else k;
      assert Inside(initial[p], after[m]);
    }
    forall k: nat, x: nat | k < |after| && x in after[k] ensures Known(initial, x) {
      if k == i {
        assert x in classes[i] || x in classes[j];
      } else {
        assert x in classes[k];
      }
    }
  }

  lemma EmptyClass(initial: seq<Class>)
    ensures NoDup<nat>([]) && Connected(initial, [])
  {
  }

  lemma JoinApart(classes: seq<Class>, i: nat, j: nat, c: Class)
    requires Apart(classes, i) && i < j < |classes|
    requires forall x: nat :: x in c <==> x in classes[i] || x in classes[j]
    ensures Apart(classes[i := c][j := []], i)
  {
    var after := classes[i := c][j := []];
    forall k: nat, m: nat | k < i && k < m < |after| ensures Disjoint(after[k], after[m]) {
      assert Disjoint(classes[k], classes[i]) && Disjoint(classes[k], classes[j]) && Disjoint(classes[k], classes[m]);
    }
  }

  lemma StartFused(initial: seq<Class>)
    requires forall i: nat :: i < |initial| ==> NoDup(initial[i])
    ensures Fused(initial, initial)
  {
    hide NoDup;
    forall i: nat | i < |initial| ensures Connected(initial, initial[i]) && Covered(initial[i], initial) {
      assert Inside(initial[i], initial[i]);
    }
  }

  function NonEmpty(classes: seq<Class>): nat { if classes == [] then 0 else (if classes[0] == [] then 0 else 1) + NonEmpty(classes[1..]) }

  lemma {:induction false} NonEmptyUpdate(classes: seq<Class>, i: nat, c: Class)
    requires i < |classes|
    ensures NonEmpty(classes[i := c]) + (if classes[i] == [] then 0 else 1) == NonEmpty(classes) + (if c == [] then 0 else 1)
  {
    if i > 0 {
      assert classes[i := c][1..] == classes[1..][i - 1 := c];
      NonEmptyUpdate(classes[1..], i - 1, c);
    } else {
      assert classes[i := c][1..] == classes[1..];
    }
  }

  /** Whether a class contains a marked variable. */
  method Shares(marked: array<bool>, c: Class) returns (share: bool, ghost shared: nat)
    requires forall v: nat :: v in c ==> v < marked.Length
    ensures share ==> shared in c && marked[shared]
    ensures !share ==> forall v: nat :: v in c ==> !marked[v]
  {
    share, shared := false, 0;
    for i := 0 to |c|
      invariant !share && forall v: nat :: v in c[..i] ==> v < marked.Length && !marked[v]
    {
      assert c[..i + 1] == c[..i] + [c[i]];
      assert c[i] in c;
      share := marked[c[i]];
      if share {
        shared := c[i];
        break;
      }
    }
    assert c[..|c|] == c;
  }

  /** Adds the unmarked variables of `d` to the marked class `c`. */
  method Absorb(marked: array<bool>, c: Class, d: Class) returns (r: Class)
    requires NoDup(c) && Marks(marked[..], c)
    requires (forall v: nat :: v in d ==> v < marked.Length) && (forall v: nat :: v in c ==> v < marked.Length)
    modifies marked
    ensures Marks(marked[..], r) && NoDup(r)
    ensures forall v: nat :: v in r <==> v in c || v in d
  {
    r := c;
    for i := 0 to |d|
      invariant Marks(marked[..], r) && NoDup(r)
      invariant forall v: nat :: v in r <==> v in c || v in d[..i]
    {
      assert d[..i + 1] == d[..i] + [d[i]];
      assert d[i] in d;
      if !marked[d[i]] {
        assert d[i] !in r by { assert marked[..][d[i]] == marked[d[i]]; }
        ghost var before := marked[..];
        marked[d[i]] := true;
        assert marked[..] == before[d[i] := true];
        r := r + [d[i]];
      }
    }
    assert d[..|d|] == d;
  }

  method SetMarks(marked: array<bool>, c: Class, value: bool)
    requires forall v: nat :: v in c ==> v < marked.Length
    requires Marks(marked[..], if value then [] else c)
    modifies marked
    ensures Marks(marked[..], if value then c else [])
  {
    ghost var before := marked[..];
    for i := 0 to |c|
      invariant forall v: nat :: v < marked.Length ==> marked[v] == if v in c[..i] then value else before[v]
    {
      assert c[..i + 1] == c[..i] + [c[i]];
      assert c[i] in c;
      marked[c[i]] := value;
    }
    assert c[..|c|] == c;
  }

  /** Fuses into class `i` every later class connected to it. */
  method FuseInto(marked: array<bool>, classes: array<Class>, i: nat, ghost initial: seq<Class>)
    requires i < classes.Length && Fused(initial, classes[..]) && Apart(classes[..], i)
    requires Within(classes[..], marked.Length) && Marks(marked[..], classes[i])
    modifies marked, classes
    ensures Fused(initial, classes[..]) && Apart(classes[..], i + 1)
    ensures Within(classes[..], marked.Length) && Marks(marked[..], classes[i])
  {
    hide Fused, Apart, Within, Marks, NonEmpty, NoDup;
    var j := i + 1;
    while j < classes.Length
      invariant i < j <= classes.Length
      invariant Fused(initial, classes[..]) && Apart(classes[..], i) && Within(classes[..], marked.Length)
      invariant Marks(marked[..], classes[i])
      invariant forall k: nat :: i < k < j ==> Disjoint(classes[i], classes[k])
      decreases NonEmpty(classes[..]), classes.Length - j
    {
      ghost var before := classes[..];
      ClassFacts(initial, before, i, marked.Length);
      ClassFacts(initial, before, j, marked.Length);
      var share, shared := Shares(marked, classes[j]);
      MarksOf(marked[..], classes[i]);
      if !share {
        assert Disjoint(classes[i], classes[j]);
        j := j + 1;
      } else {
        var r := Absorb(marked, classes[i], classes[j]);
        assert shared in before[i] && shared in before[j];
        classes[i] := r;
        classes[j] := [];
        ghost var after := before[i := r][j := []];
        assert classes[..] == after;
        JoinFused(initial, before, i, j, r, shared);
        JoinApart(before, i, j, r);
        JoinWithin(before, i, j, r, marked.Length);
        JoinCount(before, i, j, r, shared);
        j := i + 1;
      }
    }
    FuseApart(classes[..], i);
  }

  lemma ClassFacts(initial: seq<Class>, classes: seq<Class>, k: nat, n: nat)
    requires Fused(initial, classes) && Within(classes, n) && k < |classes|
    ensures NoDup(classes[k]) && forall v: nat :: v in classes[k] ==> v < n
  {
  }

  lemma MarksOf(marked: seq<bool>, c: Class)
    requires Marks(marked, c)
    ensures forall v: nat :: v < |marked| ==> (marked[v] <==> v in c)
  {
  }

  lemma JoinWithin(classes: seq<Class>, i: nat, j: nat, c: Class, n: nat)
    requires Within(classes, n) && i < j < |classes| && forall x: nat :: x in c <==> x in classes[i] || x in classes[j]
    ensures Within(classes[i := c][j := []], n)
  {
  }

  lemma JoinCount(classes: seq<Class>, i: nat, j: nat, c: Class, v: nat)
    requires i < j < |classes| && v in classes[i] && v in classes[j]
    requires forall x: nat :: x in c <==> x in classes[i] || x in classes[j]
    ensures NonEmpty(classes[i := c][j := []]) < NonEmpty(classes)
  {
    NonEmptyUpdate(classes, i, c);
    NonEmptyUpdate(classes[i := c], j, []);
    assert v in c;
  }

  lemma FuseApart(classes: seq<Class>, i: nat)
    requires Apart(classes, i) && forall k: nat :: i < k < |classes| ==> Disjoint(classes[i], classes[k])
    ensures Apart(classes, i + 1)
  {
  }

  /** The classes that are not empty, in order. */
  function NonEmptyOnes(classes: seq<Class>): seq<Class> {
    if classes == [] then []
    else NonEmptyOnes(classes[..|classes| - 1]) + (if classes[|classes| - 1] == [] then [] else [classes[|classes| - 1]])
  }

  lemma NonEmptyNext(all: seq<Class>, i: nat)
    requires i < |all|
    ensures NonEmptyOnes(all[..i + 1]) == NonEmptyOnes(all[..i]) + (if all[i] == [] then [] else [all[i]])
  {
    assert all[..i + 1][..i] == all[..i];
  }

  /** Removes the empty classes, keeping the order of the others. */
  method DropEmpty(classes: array<Class>, ghost initial: seq<Class>) returns (result: seq<Class>)
    requires Fused(initial, classes[..]) && Apart(classes[..], classes.Length)
    requires forall i: nat :: i < |initial| ==> initial[i] != []
    modifies classes
    ensures Fused(initial, result) && Apart(result, |result|)
    ensures result == NonEmptyOnes(old(classes[..])) && forall k: nat :: k < |result| ==> result[k] != []
  {
    hide Fused, Apart, Selected, NonEmptyOnes;
    ghost var all := classes[..];
    ghost var from: seq<nat> := [];
    var j := 0;
    SelectNone(all);
    for i := 0 to classes.Length
      invariant j <= i && Selected(all, from, classes[..j], i) && classes[..j] == NonEmptyOnes(all[..i])
      invariant forall k: nat :: i <= k < classes.Length ==> classes[k] == all[k]
    {
      ghost var kept := classes[..j];
      SelectNext(all, from, kept, i);
      NonEmptyNext(all, i);
      if |classes[i]| > 0 {
        if i != j {
          classes[j] := classes[i];
        }
        assert classes[..j + 1] == kept + [all[i]];
        from := from + [i];
        j := j + 1;
      }
    }
    SelectedNonempty(all, from, classes[..j], classes.Length);
    assert all[..classes.Length] == all;
    result := classes[..j];
    SelectedFused(initial, all, from, result);
  }

  /** `from` lists the nonempty classes in order and `result` is what stands there. */
  ghost predicate Selected(all: seq<Class>, from: seq<nat>, result: seq<Class>, n: nat) {
    |from| == |result| &&
    (forall k: nat :: k < |result| ==> from[k] < n && from[k] < |all| && result[k] == all[from[k]] != []) &&
    (forall k: nat, m: nat :: k < m < |result| ==> from[k] < from[m]) &&
    (forall k: nat :: k < n && k < |all| && all[k] != [] ==> k in from)
  }

  lemma SelectNone(all: seq<Class>)
    ensures Selected(all, [], [], 0) && NonEmptyOnes(all[..0]) == []
  {
  }

  lemma SelectedNonempty(all: seq<Class>, from: seq<nat>, result: seq<Class>, n: nat)
    requires Selected(all, from, result, n)
    ensures forall k: nat :: k < |result| ==> result[k] != []
  {
  }

  lemma SelectNext(all: seq<Class>, from: seq<nat>, result: seq<Class>, n: nat)
    requires Selected(all, from, result, n) && n < |all|
    ensures if all[n] == [] then Selected(all, from, result, n + 1) else Selected(all, from + [n], result + [all[n]], n + 1)
  {
  }

  lemma SelectedFused(initial: seq<Class>, all: seq<Class>, from: seq<nat>, result: seq<Class>)
    requires Fused(initial, all) && Apart(all, |all|) && Selected(all, from, result, |all|)
    requires forall i: nat :: i < |initial| ==> initial[i] != []
    ensures Fused(initial, result) && Apart(result, |result|)
  {
    hide Connected, NoDup;
    forall p: nat | p < |initial| ensures Covered(initial[p], result) {
      assert Covered(initial[p], all);
      var k: nat :| k < |all| && Inside(initial[p], all[k]);
      assert initial[p][0] in initial[p] && all[k] != [];
      var m: nat :| m < |from| && from[m] == k;
      assert Inside(initial[p], result[m]);
    }
    forall k: nat, v: nat | k < |result| && v in result[k] ensures Known(initial, v) {
      assert v in all[from[k]];
    }
    forall k: nat, m: nat | k < |result| && k < m < |result| ensures Disjoint(result[k], result[m]) {
      assert Disjoint(all[from[k]], all[from[m]]);
    }
  }

  /**
   * The fusion part of the search: afterwards the classes are nonempty, without duplicates and pairwise disjoint,
   * every initial class lies inside one of them, and each is connected through the initial classes.
   */
  method FuseClasses(marked: array<bool>, equivVar: seq<Class>) returns (result: seq<Class>)
    requires Marks(marked[..], [])
    requires forall i: nat :: i < |equivVar| ==> equivVar[i] != [] && NoDup(equivVar[i])
    requires Within(equivVar, marked.Length)
    modifies marked
    ensures Marks(marked[..], [])
    ensures Fused(equivVar, result) && Apart(result, |result|)
    ensures forall k: nat :: k < |result| ==> result[k] != []
  {
    hide Fused, Apart, Marks, Within;
    var classes := new Class[|equivVar|](i requires 0 <= i < |equivVar| => equivVar[i]);
    assert classes[..] == equivVar;
    StartFused(equivVar);
    StartApart(equivVar);
    for i := 0 to classes.Length
      invariant Fused(equivVar, classes[..]) && Apart(classes[..], i) && Within(classes[..], marked.Length)
      invariant Marks(marked[..], [])
    {
      ClassFacts(equivVar, classes[..], i, marked.Length);
      SetMarks(marked, classes[i], true);
      FuseInto(marked, classes, i, equivVar);
      ClassFacts(equivVar, classes[..], i, marked.Length);
      SetMarks(marked, classes[i], false);
    }
    result := DropEmpty(classes, equivVar);
  }

  lemma StartApart(classes: seq<Class>)
    ensures Apart(classes, 0)
  {
  }

  // ---- the result is the set of connected components ----

  ghost predicate Sharing(initial: seq<Class>, i: nat, j: nat) {
    i < |initial| && j < |initial| && exists v: nat :: v in initial[i] && v in initial[j]
  }

  /** Neighbouring entries of the chain share a variable. */
  ghost predicate Chain(initial: seq<Class>, chain: seq<nat>) {
    chain != [] && (forall i: nat :: i < |chain| ==> chain[i] < |initial|) &&
    forall i: nat :: i + 1 < |chain| ==> Sharing(initial, chain[i], chain[i + 1])
  }

  /** Two variables linked by a chain of initial classes. */
  ghost predicate Linked(initial: seq<Class>, x: nat, y: nat) {
    exists chain: seq<nat> :: LinkedBy(initial, x, y, chain)
  }

  ghost predicate LinkedBy(initial: seq<Class>, x: nat, y: nat, chain: seq<nat>) {
    Chain(initial, chain) && x in initial[chain[0]] && y in initial[chain[|chain| - 1]]
  }

  ghost predicate Together(classes: seq<Class>, x: nat, y: nat) {
    exists k: nat :: k < |classes| && x in classes[k] && y in classes[k]
  }

  lemma OneClass(classes: seq<Class>, x: nat, k: nat, m: nat)
    requires Apart(classes, |classes|) && k < |classes| && m < |classes| && x in classes[k]
    ensures x in classes[m] ==> m == k
  {
    if m < k {
      assert Disjoint(classes[m], classes[k]);
    } else if k < m {
      assert Disjoint(classes[k], classes[m]);
    }
  }

  lemma {:induction false} ChainTogether(initial: seq<Class>, classes: seq<Class>, x: nat, y: nat, chain: seq<nat>, k: nat)
    requires Fused(initial, classes) && Apart(classes, |classes|) && LinkedBy(initial, x, y, chain)
    requires k < |classes| && x in classes[k]
    ensures y in classes[k]
    decreases |chain|
  {
    var c := chain[0];
    assert Covered(initial[c], classes);
    var m: nat :| m < |classes| && Inside(initial[c], classes[m]);
    OneClass(classes, x, k, m);
    if |chain| > 1 {
      assert Sharing(initial, chain[0], chain[1]);
      var v: nat :| v in initial[chain[0]] && v in initial[chain[1]];
      forall i: nat | i + 1 < |chain[1..]| ensures Sharing(initial, chain[1..][i], chain[1..][i + 1]) {
        assert Sharing(initial, chain[i + 1], chain[i + 2]);
      }
      assert LinkedBy(initial, v, y, chain[1..]);
      ChainTogether(initial, classes, v, y, chain[1..], k);
    }
  }

  /** The variables linked to `x` form a closed set. */
  lemma LinkedClosed(initial: seq<Class>, x: nat, s: iset<nat>)
    requires s == iset y: nat | Linked(initial, x, y)
    ensures ClosedSet(s, initial)
  {
    forall i: nat | i < |initial| ensures Respects(s, initial[i]) {
      if y: nat :| y in initial[i] && y in s {
        var chain: seq<nat> :| LinkedBy(initial, x, y, chain);
        var longer := chain + [i];
        forall p: nat | p + 1 < |longer| ensures Sharing(initial, longer[p], longer[p + 1]) {
          if p + 1 < |chain| {
            assert Sharing(initial, chain[p], chain[p + 1]);
          } else {
            assert y in initial[longer[p]] && y in initial[longer[p + 1]];
          }
        }
        forall z: nat | z in initial[i] ensures z in s {
          assert LinkedBy(initial, x, z, longer);
        }
      }
    }
  }

  /** Two variables end in the same class exactly when a chain of sharing initial classes links them. */
  lemma FusionIsConnectivity(initial: seq<Class>, classes: seq<Class>, x: nat, y: nat)
    requires Fused(initial, classes) && Apart(classes, |classes|)
    ensures Together(classes, x, y) <==> Linked(initial, x, y)
  {
    if Together(classes, x, y) {
      var k: nat :| k < |classes| && x in classes[k] && y in classes[k];
      var s := iset z: nat | Linked(initial, x, z);
      LinkedClosed(initial, x, s);
      assert Connected(initial, classes[k]);
      assert Respects(s, classes[k]);
      assert Known(initial, x);
      var i: nat :| i < |initial| && x in initial[i];
      assert LinkedBy(initial, x, x, [i]);
      assert x in s;
    }
    if Linked(initial, x, y) {
      var chain: seq<nat> :| LinkedBy(initial, x, y, chain);
      assert Covered(initial[chain[0]], classes);
      var k: nat :| k < |classes| && Inside(initial[chain[0]], classes[k]);
      ChainTogether(initial, classes, x, y, chain, k);
    }
  }
}
