/** Lists cut into consecutive parts, sublists, and literal occurrences: the vocabulary of the delta debugger. */
module DeltaLists {
  import opened FiniteSets

  type Literal = int
  type Clause = seq<Literal>

  datatype Outcome = Passed | Failed | Unresolved

  /** What is being shrunk: a list of clauses or the literals of one clause, and the formula a list stands for. */
  datatype View<!T> = View(config: seq<T> -> seq<Clause>, literals: T -> seq<Literal>)

  function Whole(): View<Clause> { View((s: seq<Clause>) => s, (c: Clause) => c) }

  function Single(clauses: seq<Clause>, index: nat): View<Literal>
    requires index < |clauses|
  {
    View((s: seq<Literal>) => clauses[..index] + [s] + clauses[index + 1..], (l: Literal) => [l])
  }

  function Variable(l: Literal): nat { if l < 0 then -l else l }

  /** Number of literals of `c` on variable `v`. */
  function Occurs(c: seq<Literal>, v: nat): nat {
    if c == [] then 0 else (if Variable(c[0]) == v then 1 else 0) + Occurs(c[1..], v)
  }

  function Flat<T>(literals: T -> seq<Literal>, s: seq<T>): seq<Literal> {
    if s == [] then [] else literals(s[0]) + Flat(literals, s[1..])
  }

  function OccursIn(f: seq<Clause>, v: nat): nat { Occurs(Flat((c: Clause) => c, f), v) }

  function Concat<T>(parts: seq<seq<T>>): seq<T> {
    if parts == [] then [] else parts[0] + Concat(parts[1..])
  }

  /** Where part `i` starts when `len` items are cut into `n` parts whose sizes differ by at most one. */
  function Cut(len: nat, n: nat, i: nat): nat
    requires n > 0
  {
    i * (len / n) + (if i < len % n then i else len % n)
  }

  ghost predicate IsPart<T>(s: seq<T>, n: nat, i: nat, part: seq<T>)
    requires n > 0
  {
    Cut(|s|, n, i) < Cut(|s|, n, i + 1) <= |s| && part == s[Cut(|s|, n, i)..Cut(|s|, n, i + 1)]
  }

  ghost predicate IsSplit<T>(s: seq<T>, n: nat, parts: seq<seq<T>>) {
    n > 0 && |parts| == n && forall i: nat {:trigger parts[i]} :: i < n ==> IsPart(s, n, i, parts[i])
  }

  function Others<T>(parts: seq<seq<T>>, i: nat): seq<seq<T>>
    requires i < |parts|
  {
    parts[..i] + parts[i + 1..]
  }

  /** The list tried at step `i`: the part itself or everything but the part. */
  function Candidate<T>(parts: seq<seq<T>>, i: nat, complement: bool): seq<T>
    requires i < |parts|
  {
    if complement then Concat(Others(parts, i)) else parts[i]
  }

  function Dropped<T>(parts: seq<seq<T>>, i: nat, complement: bool): seq<T>
    requires i < |parts|
  {
    if complement then parts[i] else Concat(Others(parts, i))
  }

  function Without<T>(s: seq<T>, i: nat): seq<T>
    requires i < |s|
  {
    s[..i] + s[i + 1..]
  }

  ghost predicate Embedding<T(!new)>(s: seq<T>, t: seq<T>, e: seq<nat>) {
    |e| == |s| &&
    (forall i: nat :: i < |s| ==> e[i] < |t| && t[e[i]] == s[i]) &&
    (forall i: nat, j: nat :: i < j < |s| ==> e[i] < e[j])
  }

  /** `s` is `t` with some items left out, the order kept. */
  ghost predicate Sublist<T(!new)>(s: seq<T>, t: seq<T>) { exists e: seq<nat> :: Embedding(s, t, e) }

  lemma SublistSelf<T(!new)>(s: seq<T>)
    ensures Sublist(s, s)
  {
    var e: seq<nat> := seq(|s|, (i: nat) => i);
    assert Embedding(s, s, e);
  }

  lemma SublistTransitive<T(!new)>(s: seq<T>, t: seq<T>, u: seq<T>)
    requires Sublist(s, t) && Sublist(t, u)
    ensures Sublist(s, u)
  {
    var e: seq<nat> :| Embedding(s, t, e);
    var f: seq<nat> :| Embedding(t, u, f);
    var g: seq<nat> := seq(|s|, (i: nat) requires i < |s| => f[e[i]]);
    assert Embedding(s, u, g);
  }

  lemma {:induction false} IncreasingBound(e: seq<nat>, n: nat, i: nat)
    requires i < |e| && (forall k: nat :: k < |e| ==> e[k] < n) && (forall k: nat, j: nat :: k < j < |e| ==> e[k] < e[j])
    ensures i <= e[i] && e[i] + (|e| - i) <= n
    decreases |e| - i
  {
    if i + 1 < |e| {
      IncreasingBound(e, n, i + 1);
    }
    IncreasingFrom(e, i);
  }

  lemma {:induction false} IncreasingFrom(e: seq<nat>, i: nat)
    requires i < |e| && forall k: nat, j: nat :: k < j < |e| ==> e[k] < e[j]
    ensures i <= e[i]
  {
    if i > 0 {
      IncreasingFrom(e, i - 1);
    }
  }

  /** A sublist is no longer, and equal if it is as long. */
  lemma SublistLength<T(!new)>(s: seq<T>, t: seq<T>)
    requires Sublist(s, t)
    ensures |s| <= |t| && (|s| == |t| ==> s == t)
  {
    var e: seq<nat> :| Embedding(s, t, e);
    if |s| > 0 {
      IncreasingBound(e, |t|, 0);
    }
    forall i: nat | i < |s| ensures |s| == |t| ==> s[i] == t[i] {
      IncreasingBound(e, |t|, i);
    }
  }

  lemma GapSublist<T(!new)>(s: seq<T>, a: nat, b: nat)
    requires a <= b <= |s|
    ensures Sublist(s[..a] + s[b..], s)
  {
    var e: seq<nat> := seq(a + |s| - b, (i: nat) => if i < a then i else i + b - a);
    assert Embedding(s[..a] + s[b..], s, e);
  }

  lemma SliceSublist<T(!new)>(s: seq<T>, a: nat, b: nat)
    requires a <= b <= |s|
    ensures Sublist(s[a..b], s)
  {
    var e: seq<nat> := seq(b - a, (i: nat) => i + a);
    assert Embedding(s[a..b], s, e);
  }

  lemma CutStep(len: nat, n: nat, i: nat)
    requires 0 < n <= len && i < n
    ensures Cut(len, n, 0) == 0 && Cut(len, n, n) == len
    ensures Cut(len, n, i + 1) == Cut(len, n, i) + len / n + (if i < len % n then 1 else 0)
    ensures Cut(len, n, i) < Cut(len, n, i + 1) <= len
    ensures len / n >= 1
  {
    var q := len / n;
    assert len == n * q + len % n;
    Positive(len, n, q);
    Scaled(n, i + 1, q);
    assert (i + 1) * q == i * q + q;
  }

  lemma Positive(len: nat, n: nat, q: nat)
    requires 0 < n <= len && len < n * q + n
    ensures q >= 1
  {
  }

  lemma Scaled(n: nat, i: nat, q: nat)
    requires i <= n
    ensures i * q <= n * q
  {
    assert n * q == i * q + (n - i) * q;
  }

  lemma SingletonCut(len: nat, i: nat)
    requires len > 0
    ensures Cut(len, len, i) == i
  {
    assert len / len == 1 && len % len == 0;
  }

  lemma ConcatAppend<T>(a: seq<seq<T>>, b: seq<seq<T>>)
    ensures Concat(a + b) == Concat(a) + Concat(b)
  {
    if a == [] {
      assert a + b == b;
    } else {
      assert (a + b)[1..] == a[1..] + b;
      ConcatAppend(a[1..], b);
    }
  }

  lemma {:induction false} PrefixConcat<T>(s: seq<T>, n: nat, parts: seq<seq<T>>, k: nat)
    requires IsSplit(s, n, parts) && n <= |s| && k <= n
    ensures Cut(|s|, n, k) <= |s| && Concat(parts[..k]) == s[..Cut(|s|, n, k)]
  {
    if k == 0 {
      assert Cut(|s|, n, 0) == 0;
    } else {
      PrefixConcat(s, n, parts, k - 1);
      CutStep(|s|, n, k - 1);
      assert IsPart(s, n, k - 1, parts[k - 1]);
      assert parts[..k] == parts[..k - 1] + [parts[k - 1]];
      ConcatAppend(parts[..k - 1], [parts[k - 1]]);
      assert Concat([parts[k - 1]]) == parts[k - 1];
      var a, b := Cut(|s|, n, k - 1), Cut(|s|, n, k);
      assert s[..b] == s[..a] + s[a..b];
    }
  }

  lemma {:induction false} SuffixConcat<T>(s: seq<T>, n: nat, parts: seq<seq<T>>, k: nat)
    requires IsSplit(s, n, parts) && n <= |s| && k <= n
    ensures Cut(|s|, n, k) <= |s| && Concat(parts[k..]) == s[Cut(|s|, n, k)..]
    decreases n - k
  {
    hide Cut;
    if k == n {
      CutStep(|s|, n, 0);
    } else {
      CutStep(|s|, n, k);
      SuffixConcat(s, n, parts, k + 1);
      assert IsPart(s, n, k, parts[k]);
      assert parts[k..] == [parts[k]] + parts[k + 1..];
      var a, b := Cut(|s|, n, k), Cut(|s|, n, k + 1);
      assert s[a..] == s[a..b] + s[b..];
    }
  }

  /** Removing part `i` leaves the list with one gap. */
  lemma {:induction false} OthersGap<T>(s: seq<T>, n: nat, parts: seq<seq<T>>, i: nat)
    requires IsSplit(s, n, parts) && n <= |s| && i < n
    ensures Cut(|s|, n, i) < Cut(|s|, n, i + 1) <= |s|
    ensures Concat(Others(parts, i)) == s[..Cut(|s|, n, i)] + s[Cut(|s|, n, i + 1)..]
  {
    CutStep(|s|, n, i);
    PrefixConcat(s, n, parts, i);
    SuffixConcat(s, n, parts, i + 1);
    ConcatAppend(parts[..i], parts[i + 1..]);
  }

  lemma {:induction false} ConcatLength<T>(parts: seq<seq<T>>)
    requires forall i: nat {:trigger parts[i]} :: i < |parts| ==> |parts[i]| >= 1
    ensures |Concat(parts)| >= |parts|
  {
    if parts != [] {
      forall i: nat {:trigger parts[1..][i]} | i < |parts[1..]| ensures |parts[1..][i]| >= 1 {
        assert parts[1..][i] == parts[i + 1];
      }
      ConcatLength(parts[1..]);
    }
  }

  lemma OtherLength<T>(s: seq<T>, n: nat, parts: seq<seq<T>>, i: nat)
    requires IsSplit(s, n, parts) && n <= |s| && i < n
    ensures |Concat(Others(parts, i))| >= n - 1
  {
    var others := Others(parts, i);
    forall j: nat {:trigger others[j]} | j < |others| ensures |others[j]| >= 1 {
      var k := if j < i then j else j + 1;
      assert others[j] == parts[k];
      assert IsPart(s, n, k, parts[k]);
    }
    ConcatLength(others);
  }

  /** Every tried list is a shorter nonempty sublist. */
  lemma CandidateShorter<T(!new)>(s: seq<T>, n: nat, parts: seq<seq<T>>, i: nat, complement: bool)
    requires IsSplit(s, n, parts) && 2 <= n <= |s| && i < n
    ensures Sublist(Candidate(parts, i, complement), s)
    ensures 0 < |Candidate(parts, i, complement)| < |s|
    ensures complement ==> |Candidate(parts, i, complement)| >= n - 1
  {
    OthersGap(s, n, parts, i);
    OtherLength(s, n, parts, i);
    var a, b := Cut(|s|, n, i), Cut(|s|, n, i + 1);
    assert IsPart(s, n, i, parts[i]);
    assert |parts[i]| + |Concat(Others(parts, i))| == |s|;
    GapSublist(s, a, b);
    SliceSublist(s, a, b);
  }

  lemma {:induction false} OccursAppend(a: seq<Literal>, b: seq<Literal>, v: nat)
    ensures Occurs(a + b, v) == Occurs(a, v) + Occurs(b, v)
  {
    if a == [] {
      assert a + b == b;
    } else {
      assert (a + b)[1..] == a[1..] + b;
      OccursAppend(a[1..], b, v);
    }
  }

  lemma {:induction false} FlatAppend<T>(literals: T -> seq<Literal>, a: seq<T>, b: seq<T>)
    ensures Flat(literals, a + b) == Flat(literals, a) + Flat(literals, b)
  {
    if a == [] {
      assert a + b == b;
    } else {
      assert (a + b)[1..] == a[1..] + b;
      FlatAppend(literals, a[1..], b);
    }
  }

  function OccursOf<T>(literals: T -> seq<Literal>, s: seq<T>, v: nat): nat { Occurs(Flat(literals, s), v) }

  lemma OccursOfAppend<T>(literals: T -> seq<Literal>, a: seq<T>, b: seq<T>, v: nat)
    ensures OccursOf(literals, a + b, v) == OccursOf(literals, a, v) + OccursOf(literals, b, v)
  {
    FlatAppend(literals, a, b);
    OccursAppend(Flat(literals, a), Flat(literals, b), v);
  }

  /** The literals of a list are those tried plus those dropped. */
  lemma CandidateOccurs<T>(literals: T -> seq<Literal>, s: seq<T>, n: nat, parts: seq<seq<T>>, i: nat, complement: bool, v: nat)
    requires IsSplit(s, n, parts) && n <= |s| && i < n
    ensures OccursOf(literals, s, v)
         == OccursOf(literals, Candidate(parts, i, complement), v) + OccursOf(literals, Dropped(parts, i, complement), v)
  {
    OthersGap(s, n, parts, i);
    var a, b := Cut(|s|, n, i), Cut(|s|, n, i + 1);
    assert IsPart(s, n, i, parts[i]);
    assert s == s[..a] + (s[a..b] + s[b..]);
    OccursOfAppend(literals, s[..a], s[a..b] + s[b..], v);
    OccursOfAppend(literals, s[a..b], s[b..], v);
    OccursOfAppend(literals, s[..a], s[b..], v);
  }

  /** Shrinking the list removes from the formula exactly the dropped literals. */
  ghost predicate Uniform<T(!new)>(view: View<T>) {
    forall s: seq<T>, v: nat :: OccursIn(view.config(s), v) == OccursIn(view.config([]), v) + OccursOf(view.literals, s, v)
  }

  lemma WholeUniform()
    ensures Uniform(Whole())
  {
    forall s: seq<Clause>, v: nat
      ensures OccursIn(Whole().config(s), v) == OccursIn(Whole().config([]), v) + OccursOf(Whole().literals, s, v)
    {
    }
  }

  lemma {:induction false} FlatSingle(clauses: seq<Clause>, index: nat, s: seq<Literal>)
    requires index < |clauses|
    ensures Flat(Single(clauses, index).literals, s) == s
  {
    if s != [] {
      FlatSingle(clauses, index, s[1..]);
      assert s == [s[0]] + s[1..];
    }
  }

  lemma SingleOccurs(clauses: seq<Clause>, index: nat, s: seq<Literal>, v: nat)
    requires index < |clauses|
    ensures OccursIn(Single(clauses, index).config(s), v)
         == OccursIn(clauses[..index], v) + Occurs(s, v) + OccursIn(clauses[index + 1..], v)
  {
    var id := (c: Clause) => c;
    OccursOfAppend(id, clauses[..index] + [s], clauses[index + 1..], v);
    OccursOfAppend(id, clauses[..index], [s], v);
    assert Flat(id, [s]) == s by { assert Flat(id, [s][1..]) == []; assert s + [] == s; }
  }

  lemma SingleUniform(clauses: seq<Clause>, index: nat)
    requires index < |clauses|
    ensures Uniform(Single(clauses, index))
    ensures Single(clauses, index).config(clauses[index]) == clauses
  {
    var view := Single(clauses, index);
    forall s: seq<Literal>, v: nat
      ensures OccursIn(view.config(s), v) == OccursIn(view.config([]), v) + OccursOf(view.literals, s, v)
    {
      SingleOccurs(clauses, index, s, v);
      SingleOccurs(clauses, index, [], v);
      FlatSingle(clauses, index, s);
    }
    assert view.config(clauses[index]) == clauses[..index] + [clauses[index]] + clauses[index + 1..] == clauses;
  }

  // ---- what is counted ----

  ghost function Positions(c: seq<Literal>, v: nat): set<nat> { set i: nat | i < |c| && (c[i] == v || -c[i] == v) }

  ghost function Places(f: seq<Clause>, v: nat): set<(nat, nat)> {
    set i: nat, j: nat | i < |f| && j < |f[i]| && (f[i][j] == v || -f[i][j] == v) :: (i, j)
  }

  /** The occurrences of a variable are the positions that hold it or its negation. */
  lemma {:induction false} OccursPositions(c: seq<Literal>, v: nat)
    ensures Occurs(c, v) == |Positions(c, v)|
  {
    if c == [] {
      assert Positions(c, v) == {};
    } else {
      hide *;
      var front, l := c[..|c| - 1], c[|c| - 1];
      OccursPositions(front, v);
      assert c == front + [l];
      OccursAppend(front, [l], v);
      OccursOne(l, v);
      PositionsSnoc(front, l, v);
    }
  }

  lemma PositionsSnoc(front: seq<Literal>, l: Literal, v: nat)
    ensures |Positions(front + [l], v)| == |Positions(front, v)| + if l == v || -l == v then 1 else 0
  {
    var last: set<nat> := if l == v || -l == v then {|front|} else {};
    var c := front + [l];
    forall i: nat
      ensures i in Positions(c, v) <==> i in Positions(front, v) || i in last
    {
      assert i < |front| ==> c[i] == front[i];
    }
    assert Positions(c, v) == Positions(front, v) + last;
  }

  lemma OccursOne(l: Literal, v: nat)
    ensures Occurs([l], v) == if l == v || -l == v then 1 else 0
  {
    assert [l][1..] == [];
  }

  /** The same over all clauses. */
  lemma {:induction false} OccursPlaces(f: seq<Clause>, v: nat)
    ensures OccursIn(f, v) == |Places(f, v)|
  {
    var id := (c: Clause) => c;
    if f == [] {
      assert Places(f, v) == {};
    } else {
      var n := |f| - 1;
      var front, c := f[..n], f[n];
      OccursPlaces(front, v);
      assert f == front + [c];
      OccursOfAppend(id, front, [c], v);
      assert Flat(id, [c]) == c by { assert [c][1..] == [] && c + [] == c; }
      OccursPositions(c, v);
      LastPlaces(front, c, v);
    }
  }

  lemma PlaceHolds(f: seq<Clause>, v: nat, z: (nat, nat))
    ensures z in Places(f, v) <==> z.0 < |f| && z.1 in Positions(f[z.0], v)
  {
  }

  lemma LastPlaces(front: seq<Clause>, c: Clause, v: nat)
    ensures |Places(front + [c], v)| == |Places(front, v)| + |Positions(c, v)|
  {
    hide Places, Positions;
    var n, f, places := |front|, front + [c], Places(front, v);
    var last := set j: nat | j in Positions(c, v) :: (n, j);
    var at := (j: nat) => (n, j);
    forall z: (nat, nat) | z in last ensures Reaches(Positions(c, v), at, z) {
      assert z.1 in Positions(c, v) && at(z.1) == z;
    }
    SameSize(Positions(c, v), last, at);
    forall z: (nat, nat)
      ensures z in Places(f, v) <==> z in places || z in last
      ensures z in places ==> z !in last
    {
      PlaceHolds(f, v, z);
      PlaceHolds(front, v, z);
      assert z.0 < n ==> f[z.0] == front[z.0];
      assert z == (z.0, z.1);
    }
    assert Places(f, v) == places + last && places !! last;
  }
}
