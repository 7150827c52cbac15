/** Greedy elimination orders on sorted adjacency lists. */
module GreedyOrder {
  import opened FiniteSets
  import opened SimpleGraph

  type Graph = seq<seq<nat>>

  predicate Ascending(s: seq<nat>) { forall i: nat, j: nat :: i < j < |s| ==> s[i] < s[j] }

  predicate Adj(g: Graph, u: nat, v: nat) { u < |g| && v in g[u] }

  /** Sorted, without loops, symmetric. */
  ghost predicate GraphOk(g: Graph) {
    (forall u: nat :: u < |g| ==> Ascending(g[u])) &&
    (forall u: nat, v: nat :: Adj(g, u, v) ==> v < |g| && u != v && Adj(g, v, u))
  }

  // ---- merging adjacency lists ----

  /** Everything from `from` on in `s` exceeds everything in `out`. */
  predicate AllBelow(out: seq<nat>, s: seq<nat>, from: nat) {
    forall i: nat, j: nat :: i < |out| && from <= j < |s| ==> out[i] < s[j]
  }

  /** `out` is the merge of `a` and `b` without two elements. */
  ghost predicate UnionWithout(out: seq<nat>, a: seq<nat>, b: seq<nat>, r1: nat, r2: nat) {
    Ascending(out) && forall v: nat :: v in out <==> (v in a || v in b) && v != r1 && v != r2
  }

  lemma PutNext(out: seq<nat>, a: seq<nat>, b: seq<nat>, i: nat, j: nat, v: nat)
    requires Ascending(out) && Ascending(a) && Ascending(b) && i <= |a| && j <= |b|
    requires AllBelow(out, a, i) && AllBelow(out, b, j)
    requires i < |a| ==> v <= a[i]
    requires j < |b| ==> v <= b[j]
    requires (i < |a| && v == a[i]) || (j < |b| && v == b[j])
    ensures Ascending(out + [v])
    ensures AllBelow(out + [v], a, if i < |a| && a[i] == v then i + 1 else i)
    ensures AllBelow(out + [v], b, if j < |b| && b[j] == v then j + 1 else j)
    ensures AllBelow(out, a, i + 1) && AllBelow(out, b, j + 1)
  {
  }

  method SetUnionAndRemoveElement(a: seq<nat>, b: seq<nat>, r1: nat, r2: nat) returns (out: seq<nat>)
    requires Ascending(a) && Ascending(b)
    ensures UnionWithout(out, a, b, r1, r2)
  {
    hide Ascending, AllBelow;
    var i, j := 0, 0;
    out := [];
    assert Ascending(out) && AllBelow(out, a, 0) && AllBelow(out, b, 0) by { NothingBelow(a); NothingBelow(b); }
    while i < |a| && j < |b|
      invariant i <= |a| && j <= |b|
      invariant Ascending(out) && AllBelow(out, a, i) && AllBelow(out, b, j)
      invariant forall v: nat :: v in out <==> (v in a[..i] || v in b[..j]) && v != r1 && v != r2
      decreases |a| - i + |b| - j
    {
      assert a[..i + 1] == a[..i] + [a[i]];
      assert b[..j + 1] == b[..j] + [b[j]];
      var v := if a[i] <= b[j] then a[i] else b[j];
      PutNext(out, a, b, i, j, v);
      if a[i] < b[j] {
        if a[i] != r1 && a[i] != r2 {
          out := out + [a[i]];
        }
        i := i + 1;
      } else if a[i] > b[j] {
        if b[j] != r1 && b[j] != r2 {
          out := out + [b[j]];
        }
        j := j + 1;
      } else {
        if a[i] != r1 && a[i] != r2 {
          out := out + [a[i]];
        }
        j := j + 1;
        i := i + 1;
      }
    }
    while i < |a|
      invariant i <= |a| && j <= |b| && (i < |a| ==> j == |b|)
      invariant Ascending(out) && AllBelow(out, a, i) && AllBelow(out, b, j)
      invariant forall v: nat :: v in out <==> (v in a[..i] || v in b[..j]) && v != r1 && v != r2
    {
      assert a[..i + 1] == a[..i] + [a[i]];
      PutNext(out, a, b, i, j, a[i]);
      if a[i] != r1 && a[i] != r2 {
        out := out + [a[i]];
      }
      i := i + 1;
    }
    while j < |b|
      invariant i == |a| && j <= |b|
      invariant Ascending(out) && AllBelow(out, a, i) && AllBelow(out, b, j)
      invariant forall v: nat :: v in out <==> (v in a[..i] || v in b[..j]) && v != r1 && v != r2
    {
      assert b[..j + 1] == b[..j] + [b[j]];
      PutNext(out, a, b, i, j, b[j]);
      if b[j] != r1 && b[j] != r2 {
        out := out + [b[j]];
      }
      j := j + 1;
    }
    assert a[..i] == a && b[..j] == b;
  }

  lemma NothingBelow(s: seq<nat>)
    ensures Ascending([]) && AllBelow([], s, 0)
  {
  }

  // ---- eliminating one node ----

  /** `h` is `g` with `x` removed and its neighbours made adjacent to each other. */
  ghost predicate Contracted(g: Graph, x: nat, h: Graph) {
    |h| == |g| && GraphOk(h) &&
    forall u: nat, v: nat :: Adj(h, u, v) <==> u != x && v != x && u != v && (Adj(g, u, v) || (Adj(g, u, x) && Adj(g, x, v)))
  }

  method ContractNode(g: array<seq<nat>>, node: nat) returns (neighbors: seq<nat>)
    requires GraphOk(g[..]) && node < g.Length
    modifies g
    ensures neighbors == old(g[node]) && Contracted(old(g[..]), node, g[..])
    ensures forall u: nat :: u < g.Length && u != node && u !in neighbors ==> g[u] == old(g[u])
  {
    hide GraphOk, UnionWithout;
    ghost var before := g[..];
    neighbors := g[node];
    OkAt(before, node);
    for i := 0 to |neighbors|
      invariant g[node] == neighbors == before[node] && |before| == g.Length
      invariant forall k: nat :: k < i ==> neighbors[k] < g.Length && UnionWithout(g[neighbors[k]], neighbors, before[neighbors[k]], node, neighbors[k])
      invariant forall u: nat :: u < g.Length && u !in neighbors[..i] ==> g[u] == before[u]
    {
      var x := neighbors[i];
      OkNeighbor(before, node, i);
      OkAt(before, x);
      assert x !in neighbors[..i] by { FreshAt(neighbors, i); }
      var tmp := SetUnionAndRemoveElement(g[node], g[x], node, x);
      assert forall k: nat :: k < i ==> neighbors[k] in neighbors[..i];
      g[x] := tmp;
      assert neighbors[..i + 1] == neighbors[..i] + [x];
    }
    assert neighbors[..|neighbors|] == neighbors;
    ghost var merged := g[..];
    g[node] := [];
    assert g[..] == merged[node := []];
    assert forall k: nat :: k < |neighbors| ==> neighbors[k] != node by { OkAt(before, node); }
    ContractedAll(before, node, g[..]);
  }

  lemma OkAt(g: Graph, u: nat)
    requires GraphOk(g) && u < |g|
    ensures Ascending(g[u]) && u !in g[u]
  {
    if u in g[u] {
      assert Adj(g, u, u);
    }
  }

  lemma OkNeighbor(g: Graph, u: nat, i: nat)
    requires GraphOk(g) && u < |g| && i < |g[u]|
    ensures g[u][i] < |g| && g[u][i] != u
  {
    assert Adj(g, u, g[u][i]);
  }

  lemma FreshAt(s: seq<nat>, i: nat)
    requires Ascending(s) && i < |s|
    ensures s[i] !in s[..i]
  {
  }

  lemma ContractedAll(g: Graph, x: nat, h: Graph)
    requires GraphOk(g) && x < |g| == |h| && h[x] == []
    requires forall k: nat :: k < |g[x]| ==> g[x][k] < |g| && UnionWithout(h[g[x][k]], g[x], g[g[x][k]], x, g[x][k])
    requires forall u: nat :: u < |g| && u != x && u !in g[x] ==> h[u] == g[u]
    ensures Contracted(g, x, h)
  {
    forall u: nat | u < |h| ensures Ascending(h[u]) {
      ContractedRow(g, x, h, u, 0);
    }
    forall u: nat, v: nat
      ensures Adj(h, u, v) <==> u != x && v != x && u != v && (Adj(g, u, v) || (Adj(g, u, x) && Adj(g, x, v)))
    {
      ContractedRow(g, x, h, u, v);
    }
    forall u: nat, v: nat | Adj(h, u, v) ensures v < |h| && u != v && Adj(h, v, u) {
      assert Adj(g, u, v) ==> Adj(g, v, u);
      assert Adj(g, u, x) ==> Adj(g, x, u);
      assert Adj(g, x, v) ==> Adj(g, v, x);
    }
  }

  lemma ContractedRow(g: Graph, x: nat, h: Graph, u: nat, v: nat)
    requires GraphOk(g) && x < |g| == |h| && h[x] == []
    requires forall k: nat :: k < |g[x]| ==> g[x][k] < |g| && UnionWithout(h[g[x][k]], g[x], g[g[x][k]], x, g[x][k])
    requires forall w: nat :: w < |g| && w != x && w !in g[x] ==> h[w] == g[w]
    ensures u < |h| ==> Ascending(h[u])
    ensures Adj(h, u, v) <==> u != x && v != x && u != v && (Adj(g, u, v) || (Adj(g, u, x) && Adj(g, x, v)))
  {
    if u < |g| && u != x {
      assert u in g[x] <==> Adj(g, x, u);
      assert Adj(g, x, u) <==> Adj(g, u, x);
      assert Adj(g, u, v) ==> u != v;
      if u in g[x] {
        var k: nat :| k < |g[x]| && g[x][k] == u;
        assert UnionWithout(h[u], g[x], g[u], x, u);
      }
    }
  }

  // ---- eliminating a set of nodes ----

  /** A path from `u` to `v` whose inner nodes all lie in `s`. */
  ghost predicate Via(g: Graph, s: set<nat>, p: seq<nat>, u: nat, v: nat) {
    |p| >= 2 && p[0] == u && p[|p| - 1] == v &&
    (forall i: nat :: i + 1 < |p| ==> Adj(g, p[i], p[i + 1])) &&
    (forall i: nat :: 0 < i < |p| - 1 ==> p[i] in s)
  }

  ghost predicate Linked(g: Graph, s: set<nat>, u: nat, v: nat) { exists p: seq<nat> :: Via(g, s, p, u, v) }

  /** `h` joins exactly the remaining nodes that a path through eliminated nodes of `g` links. */
  ghost predicate EliminationGraph(g: Graph, s: set<nat>, h: Graph) {
    |h| == |g| && GraphOk(h) &&
    forall u: nat, v: nat :: Adj(h, u, v) <==> u !in s && v !in s && u != v && Linked(g, s, u, v)
  }

  lemma NothingEliminated(g: Graph)
    requires GraphOk(g)
    ensures EliminationGraph(g, {}, g)
  {
    forall u: nat, v: nat ensures Adj(g, u, v) <==> u != v && Linked(g, {}, u, v) {
      if Adj(g, u, v) {
        assert Via(g, {}, [u, v], u, v);
      }
      if Linked(g, {}, u, v) {
        var p: seq<nat> :| Via(g, {}, p, u, v);
        var middle := p[1];
        assert Adj(g, p[0], p[0 + 1]);
      }
    }
  }

  lemma JoinPaths(g: Graph, s: set<nat>, x: nat, p: seq<nat>, q: seq<nat>, u: nat, v: nat)
    requires Via(g, s, p, u, x) && Via(g, s, q, x, v)
    ensures Via(g, s + {x}, p + q[1..], u, v)
  {
    var r := p + q[1..];
    forall i: nat | i + 1 < |r| ensures Adj(g, r[i], r[i + 1]) {
      if i + 1 < |p| {
        assert Adj(g, p[i], p[i + 1]);
      } else {
        assert Adj(g, q[i + 1 - |p|], q[i + 1 - |p| + 1]);
      }
    }
  }

  /** The first stretch of a path, up to where it first meets `x`. */
  lemma {:induction false} HeadPath(g: Graph, s: set<nat>, x: nat, p: seq<nat>, u: nat, v: nat, i: nat)
    requires Via(g, s + {x}, p, u, v) && 0 < i < |p| && p[i] == x
    ensures Linked(g, s, u, x)
    decreases i
  {
    if k: nat :| 0 < k < i && p[k] == x {
      HeadPath(g, s, x, p, u, v, k);
    } else {
      var q := p[..i + 1];
      forall j: nat | j + 1 < |q| ensures Adj(g, q[j], q[j + 1]) {
        assert Adj(g, p[j], p[j + 1]);
      }
      assert Via(g, s, q, u, x);
    }
  }

  lemma {:induction false} TailPath(g: Graph, s: set<nat>, x: nat, p: seq<nat>, u: nat, v: nat, i: nat)
    requires Via(g, s + {x}, p, u, v) && i + 1 < |p| && p[i] == x
    ensures Linked(g, s, x, v)
    decreases |p| - i
  {
    if k: nat :| i < k < |p| - 1 && p[k] == x {
      TailPath(g, s, x, p, u, v, k);
    } else {
      var q := p[i..];
      forall j: nat | j + 1 < |q| ensures Adj(g, q[j], q[j + 1]) {
        assert Adj(g, p[i + j], p[i + j + 1]);
      }
      assert Via(g, s, q, x, v);
    }
  }

  lemma LinkedNext(g: Graph, s: set<nat>, x: nat, u: nat, v: nat)
    ensures Linked(g, s + {x}, u, v) <==> Linked(g, s, u, v) || (Linked(g, s, u, x) && Linked(g, s, x, v))
  {
    if Linked(g, s, u, v) {
      var p: seq<nat> :| Via(g, s, p, u, v);
      assert Via(g, s + {x}, p, u, v);
    }
    if Linked(g, s, u, x) && Linked(g, s, x, v) {
      var p: seq<nat> :| Via(g, s, p, u, x);
      var q: seq<nat> :| Via(g, s, q, x, v);
      JoinPaths(g, s, x, p, q, u, v);
    }
    if Linked(g, s + {x}, u, v) {
      var p: seq<nat> :| Via(g, s + {x}, p, u, v);
      if i: nat :| 0 < i < |p| - 1 && p[i] == x {
        HeadPath(g, s, x, p, u, v, i);
        TailPath(g, s, x, p, u, v, i);
      } else {
        assert Via(g, s, p, u, v);
      }
    }
  }

  /** Contracting one more node turns the elimination graph of `s` into that of `s + {x}`, whatever the order so far. */
  lemma EliminateNext(g: Graph, s: set<nat>, h: Graph, x: nat, h': Graph)
    requires EliminationGraph(g, s, h) && x < |g| && x !in s && Contracted(h, x, h')
    ensures EliminationGraph(g, s + {x}, h')
  {
    hide GraphOk, Linked, Adj;
    forall u: nat, v: nat
      ensures Adj(h', u, v) <==> u !in s + {x} && v !in s + {x} && u != v && Linked(g, s + {x}, u, v)
    {
      LinkedNext(g, s, x, u, v);
      assert Adj(h, u, v) <==> u !in s && v !in s && u != v && Linked(g, s, u, v);
      assert Adj(h, u, x) <==> u !in s && u != x && Linked(g, s, u, x);
      assert Adj(h, x, v) <==> v !in s && x != v && Linked(g, s, x, v);
    }
  }

  // ---- degrees ----

  /** The neighbours of `u` once the nodes of `s` are eliminated. */
  ghost function FillNeighbors(g: Graph, s: set<nat>, u: nat): set<nat> {
    set v: nat | v < |g| && v !in s && v != u && Linked(g, s, u, v)
  }

  lemma {:induction false} AscendingSize(s: seq<nat>)
    requires Ascending(s)
    ensures |Elements(s)| == |s|
  {
    if s != [] {
      var m := |s| - 1;
      AscendingSize(s[..m]);
      assert s == s[..m] + [s[m]];
      assert Elements(s) == Elements(s[..m]) + {s[m]};
    }
  }

  /** The length of an adjacency list is the number of nodes reachable through eliminated ones. */
  lemma DegreeIsFill(g: Graph, s: set<nat>, h: Graph, u: nat)
    requires EliminationGraph(g, s, h) && u < |g| && u !in s
    ensures |h[u]| == |FillNeighbors(g, s, u)|
  {
    OkAt(h, u);
    AscendingSize(h[u]);
    forall v: nat ensures v in Elements(h[u]) <==> v in FillNeighbors(g, s, u) {
      assert v in h[u] <==> Adj(h, u, v);
    }
    assert Elements(h[u]) == FillNeighbors(g, s, u);
  }

  // ---- shortcuts ----

  /** The pairs of neighbours of `u` that contracting `u` would join. */
  ghost function Shortcuts(g: Graph, u: nat): set<(nat, nat)> {
    set x, y | u < |g| && x in g[u] && y in g[u] && x < y && !Adj(g, x, y) :: (x, y)
  }

  /** How many items of `a` are not in `b`. */
  function DifferenceSize(a: seq<nat>, b: seq<nat>): nat {
    if a == [] then 0 else DifferenceSize(a[..|a| - 1], b) + (if a[|a| - 1] in b then 0 else 1)
  }

  ghost function Minus(a: seq<nat>, b: seq<nat>): set<nat> { set x | x in a && x !in b }

  lemma {:induction false} DifferenceIs(a: seq<nat>, b: seq<nat>)
    requires Ascending(a)
    ensures DifferenceSize(a, b) == |Minus(a, b)|
  {
    if a != [] {
      var m := |a| - 1;
      DifferenceIs(a[..m], b);
      assert a == a[..m] + [a[m]];
      assert Minus(a, b) == Minus(a[..m], b) + (if a[m] in b then {} else {a[m]});
    }
  }

  ghost function PairsFrom(g: Graph, u: nat, xs: seq<nat>): set<(nat, nat)> {
    set x, y | u < |g| && x in xs && y in g[u] && x != y && !Adj(g, x, y) :: (x, y)
  }

  ghost function Row(g: Graph, u: nat, x: nat): set<(nat, nat)> {
    set y | u < |g| && y in g[u] && x != y && !Adj(g, x, y) :: (x, y)
  }

  /** One neighbour misses all neighbours not in its own list, itself excepted. */
  lemma RowSize(g: Graph, u: nat, x: nat)
    requires GraphOk(g) && u < |g| && x in g[u] && x < |g|
    ensures |Row(g, u, x)| + 1 == DifferenceSize(g[u], g[x])
  {
    OkAt(g, u);
    OkAt(g, x);
    DifferenceIs(g[u], g[x]);
    var missing := Minus(g[u], g[x]) - {x};
    assert x in Minus(g[u], g[x]);
    var f := (y: nat) => (x, y);
    forall z: (nat, nat) | z in Row(g, u, x) ensures Reaches(missing, f, z) {
      assert z.1 in missing && f(z.1) == z;
    }
    SameSize(missing, Row(g, u, x), f);
  }

  lemma NoPairs(g: Graph, u: nat)
    ensures PairsFrom(g, u, []) == {}
  {
  }

  lemma PairsNext(g: Graph, u: nat, xs: seq<nat>, x: nat)
    requires x !in xs
    ensures |PairsFrom(g, u, xs + [x])| == |PairsFrom(g, u, xs)| + |Row(g, u, x)|
  {
    var a, b := PairsFrom(g, u, xs), Row(g, u, x);
    assert PairsFrom(g, u, xs + [x]) == a + b;
    assert a !! b;
  }

  /** Every missing edge is seen from both of its ends. */
  lemma PairsTwice(g: Graph, u: nat)
    requires GraphOk(g) && u < |g|
    ensures |PairsFrom(g, u, g[u])| == 2 * |Shortcuts(g, u)|
  {
    var up := Shortcuts(g, u);
    var down := PairsFrom(g, u, g[u]) - up;
    var f := (p: (nat, nat)) => (p.1, p.0);
    forall p: (nat, nat) | p in up ensures f(p) in down {
      assert Adj(g, p.1, p.0) ==> Adj(g, p.0, p.1);
    }
    forall z: (nat, nat) | z in down ensures Reaches(up, f, z) {
      assert Adj(g, z.1, z.0) ==> Adj(g, z.0, z.1);
      assert (z.1, z.0) in up && f((z.1, z.0)) == z;
    }
    SameSize(up, down, f);
    assert PairsFrom(g, u, g[u]) == up + down;
  }

  /** The number of edges that contracting `node` would add. */
  method ComputeNumberOfShortcuts(g: array<seq<nat>>, node: nat) returns (count: nat)
    requires GraphOk(g[..]) && node < g.Length
    ensures count == |Shortcuts(g[..], node)|
  {
    hide GraphOk, PairsFrom, Row, Shortcuts, DifferenceSize, Adj;
    ghost var all := g[..];
    var neighbors := g[node];
    OkAt(all, node);
    var added := 0;
    NoPairs(all, node);
    for i := 0 to |neighbors|
      invariant added == |PairsFrom(all, node, neighbors[..i])|
    {
      var x := neighbors[i];
      OkNeighbor(all, node, i);
      FreshAt(neighbors, i);
      RowSize(all, node, x);
      PairsNext(all, node, neighbors[..i], x);
      assert neighbors[..i + 1] == neighbors[..i] + [x];
      added := added + DifferenceSize(neighbors, g[x]);
      added := added - 1;
    }
    assert neighbors[..|neighbors|] == neighbors;
    PairsTwice(all, node);
    count := added / 2;
  }

  // ---- building the lists ----

  function Insert(x: nat, s: seq<nat>): seq<nat> {
    if s == [] || x <= s[0] then [x] + s else [s[0]] + Insert(x, s[1..])
  }

  function Sort(s: seq<nat>): seq<nat> { if s == [] then [] else Insert(s[0], Sort(s[1..])) }

  lemma {:induction false} InsertHolds(x: nat, s: seq<nat>)
    requires Ascending(s) && x !in s
    ensures Ascending(Insert(x, s)) && forall v: nat :: v in Insert(x, s) <==> v == x || v in s
  {
    if s != [] && x > s[0] {
      InsertHolds(x, s[1..]);
      var t := Insert(x, s[1..]);
      assert s == [s[0]] + s[1..];
      forall i: nat | i < |t| ensures s[0] < t[i] {
        assert t[i] in t;
      }
    }
  }

  lemma {:induction false} SortHolds(s: seq<nat>)
    requires forall i: nat, j: nat :: i < j < |s| ==> s[i] != s[j]
    ensures Ascending(Sort(s)) && forall v: nat :: v in Sort(s) <==> v in s
  {
    if s != [] {
      SortHolds(s[1..]);
      assert s == [s[0]] + s[1..];
      assert s[0] !in s[1..];
      InsertHolds(s[0], Sort(s[1..]));
    }
  }

  lemma ArcNext(tail: seq<nat>, head: seq<nat>, k: nat, u: nat, v: nat)
    requires k < |tail| == |head|
    ensures HasArc(tail[..k + 1], head[..k + 1], u, v) <==> HasArc(tail[..k], head[..k], u, v) || (tail[k] == u && head[k] == v)
  {
    if HasArc(tail[..k], head[..k], u, v) {
      var a: nat :| a < k && tail[..k][a] == u && head[..k][a] == v;
      assert tail[..k + 1][a] == u && head[..k + 1][a] == v;
    }
    assert tail[..k + 1][k] == tail[k] && head[..k + 1][k] == head[k];
    if HasArc(tail[..k + 1], head[..k + 1], u, v) {
      var a: nat :| a < k + 1 && tail[..k + 1][a] == u && head[..k + 1][a] == v;
      assert a < k ==> tail[..k][a] == u && head[..k][a] == v;
    }
  }

  method BuildDynArray(tail: seq<nat>, head: seq<nat>, n: nat) returns (neighbors: array<seq<nat>>)
    requires SimpleArcs(tail, head, n)
    ensures fresh(neighbors) && neighbors.Length == n && GraphOk(neighbors[..])
    ensures forall u: nat, v: nat :: Adj(neighbors[..], u, v) <==> HasArc(tail, head, u, v)
  {
    neighbors := new seq<nat>[n](_ => []);
    for i := 0 to |tail|
      invariant forall u: nat, v: nat :: u < n ==> (v in neighbors[u] <==> HasArc(tail[..i], head[..i], u, v))
      invariant forall u: nat :: u < n ==> NoDup(neighbors[u])
    {
      forall u: nat, v: nat
        ensures HasArc(tail[..i + 1], head[..i + 1], u, v) <==> HasArc(tail[..i], head[..i], u, v) || (tail[i] == u && head[i] == v)
      {
        ArcNext(tail, head, i, u, v);
      }
      ghost var old' := neighbors[tail[i]];
      assert head[i] !in old';
      neighbors[tail[i]] := neighbors[tail[i]] + [head[i]];
    }
    assert tail[..|tail|] == tail && head[..|tail|] == head;
    for i := 0 to n
      invariant forall u: nat, v: nat :: u < n ==> (v in neighbors[u] <==> HasArc(tail, head, u, v))
      invariant forall u: nat :: i <= u < n ==> NoDup(neighbors[u])
      invariant forall u: nat :: u < i ==> Ascending(neighbors[u])
    {
      SortHolds(neighbors[i]);
      neighbors[i] := Sort(neighbors[i]);
    }
    ArcsOk(tail, head, n, neighbors[..]);
  }

  lemma ArcsOk(tail: seq<nat>, head: seq<nat>, n: nat, g: Graph)
    requires SimpleArcs(tail, head, n) && |g| == n && forall u: nat :: u < n ==> Ascending(g[u])
    requires forall u: nat, v: nat :: u < n ==> (v in g[u] <==> HasArc(tail, head, u, v))
    ensures GraphOk(g) && forall u: nat, v: nat :: Adj(g, u, v) <==> HasArc(tail, head, u, v)
  {
    forall u: nat, v: nat ensures Adj(g, u, v) <==> HasArc(tail, head, u, v) {
      if HasArc(tail, head, u, v) {
        var a: nat :| a < |tail| && tail[a] == u && head[a] == v;
      }
    }
    forall u: nat, v: nat | Adj(g, u, v) ensures v < |g| && u != v && Adj(g, v, u) {
      var a: nat :| a < |tail| && tail[a] == u && head[a] == v;
      assert HasArc(tail, head, head[a], tail[a]);
    }
  }

  // ---- the orders ----

  /** The heap the orders are driven by, as the keys it holds. */
  class MinIdHeap {
    var key: map<nat, int>

    constructor ()
      ensures key == map[]
    {
      key := map[];
    }

    method PushOrSetKey(id: nat, k: int)
      modifies this
      ensures key == old(key)[id := k]
    {
      key := key[id := k];
    }

    method Pop() returns (id: nat)
      requires key.Keys != {}
      modifies this
      ensures id in old(key) && key == old(key) - {id}
      ensures forall y: nat :: y in old(key) ==> old(key)[id] <= old(key)[y]
    {
      Smallest(key, key.Keys);
      id :| id in key && forall y :: y in key ==> key[id] <= key[y];
      key := key - {id};
    }
  }

  lemma {:induction false} Smallest(key: map<nat, int>, s: set<nat>)
    requires s != {} && s <= key.Keys
    ensures exists x: nat :: x in s && forall y: nat :: y in s ==> key[x] <= key[y]
  {
    var z: nat :| z in s;
    if s == {z} {
      assert forall y: nat :: y in s ==> key[z] <= key[y];
    } else {
      var rest := s - {z};
      assert s == rest + {z};
      Smallest(key, rest);
      var x: nat :| x in rest && forall y: nat :: y in rest ==> key[x] <= key[y];
      if key[z] < key[x] {
        assert forall y: nat :: y in s ==> key[z] <= key[y];
      } else {
        assert forall y: nat :: y in s ==> key[x] <= key[y];
      }
    }
  }

  /** Every node below `n` once. */
  ghost predicate IsOrder(order: seq<nat>, n: nat) {
    |order| == n && NoDup(order) && forall i: nat :: i < n ==> order[i] < n
  }

  /** The `k`th node has the fewest neighbours among the nodes not eliminated before it. */
  ghost predicate MinimalDegree(g: Graph, order: seq<nat>, k: nat)
    requires k < |order|
  {
    var s := Elements(order[..k]);
    forall y: nat :: y < |g| && y !in s ==> |FillNeighbors(g, s, order[k])| <= |FillNeighbors(g, s, y)|
  }

  /** The state after the nodes of `done` have been eliminated. */
  ghost predicate Progress(start: Graph, h: Graph, done: seq<nat>, key: map<nat, int>) {
    NoDup(done) && (forall i: nat :: i < |done| ==> done[i] < |start|) &&
    EliminationGraph(start, Elements(done), h) &&
    forall v: nat :: v in key <==> v < |start| && v !in done
  }

  ghost predicate ExactKeys(h: Graph, key: map<nat, int>) { forall v: nat :: v in key ==> v < |h| && key[v] == |h[v]| }

  lemma {:induction false} BelowSize(s: set<nat>, n: nat)
    requires forall v: nat :: v in s ==> v < n
    ensures |s| <= n
    ensures (forall v: nat :: v < n ==> v in s) ==> |s| == n
  {
    if n > 0 {
      var r := s - {n - 1};
      BelowSize(r, n - 1);
      if n - 1 in s {
        assert s == r + {n - 1};
      } else {
        assert s == r;
      }
    } else {
      assert s == {};
    }
  }

  lemma RoomLeft(start: Graph, h: Graph, done: seq<nat>, key: map<nat, int>)
    requires Progress(start, h, done, key)
    ensures |done| <= |start|
    ensures key.Keys != {} ==> |done| < |start|
    ensures key.Keys == {} ==> IsOrder(done, |start|)
  {
    ElementsSize(done);
    var all := Elements(done);
    BelowSize(all, |start|);
    if key.Keys != {} {
      var v: nat :| v in key;
      BelowSize(all + {v}, |start|);
    } else {
      forall v: nat | v < |start| ensures v in all {
        assert v !in key;
      }
    }
  }

  lemma Pick(start: Graph, h: Graph, done: seq<nat>, key: map<nat, int>, x: nat, h': Graph)
    requires Progress(start, h, done, key) && x in key && Contracted(h, x, h')
    ensures Progress(start, h', done + [x], key - {x})
  {
    hide EliminationGraph, Contracted;
    assert Elements(done + [x]) == Elements(done) + {x};
    EliminateNext(start, Elements(done), h, x, h');
  }

  lemma PickMinimal(start: Graph, h: Graph, done: seq<nat>, key: map<nat, int>, x: nat)
    requires Progress(start, h, done, key) && ExactKeys(h, key) && x in key
    requires forall y: nat :: y in key ==> key[x] <= key[y]
    ensures MinimalDegree(start, done + [x], |done|)
  {
    hide EliminationGraph, FillNeighbors;
    var s := Elements(done);
    assert (done + [x])[..|done|] == done;
    DegreeIsFill(start, s, h, x);
    forall y: nat | y < |start| && y !in s ensures |FillNeighbors(start, s, x)| <= |FillNeighbors(start, s, y)| {
      DegreeIsFill(start, s, h, y);
    }
  }

  lemma MinimalKept(start: Graph, done: seq<nat>, more: seq<nat>, k: nat)
    requires k < |done| && MinimalDegree(start, done, k)
    ensures MinimalDegree(start, done + more, k)
  {
    assert (done + more)[..k] == done[..k];
  }

  /** The neighbours of a contracted node are still in the heap. */
  lemma NeighborsRemain(start: Graph, h: Graph, done: seq<nat>, key: map<nat, int>, x: nat, i: nat)
    requires Progress(start, h, done, key) && x < |h| && i < |h[x]|
    ensures h[x][i] in key && h[x][i] < |h| && h[x][i] != x
  {
    assert Adj(h, x, h[x][i]);
  }

  method FillHeap(g: array<seq<nat>>) returns (q: MinIdHeap)
    ensures fresh(q) && ExactKeys(g[..], q.key) && forall v: nat :: v in q.key <==> v < g.Length
  {
    q := new MinIdHeap();
    for x := 0 to g.Length
      invariant fresh(q) && forall v: nat :: v in q.key <==> v < x
      invariant ExactKeys(g[..], q.key)
    {
      q.PushOrSetKey(x, |g[x]|);
    }
  }

  method Rekey(g: array<seq<nat>>, q: MinIdHeap, neighbors: seq<nat>)
    requires forall i: nat :: i < |neighbors| ==> neighbors[i] in q.key && neighbors[i] < g.Length
    modifies q
    ensures q.key.Keys == old(q.key.Keys)
    ensures forall v: nat :: v in q.key ==>
      if v in neighbors then v < g.Length && q.key[v] == |g[v]| else q.key[v] == old(q.key[v])
  {
    for i := 0 to |neighbors|
      invariant q.key.Keys == old(q.key.Keys)
      invariant forall v: nat :: v in q.key ==>
        if v in neighbors[..i] then v < g.Length && q.key[v] == |g[v]| else q.key[v] == old(q.key[v])
    {
      assert neighbors[..i + 1] == neighbors[..i] + [neighbors[i]];
      q.PushOrSetKey(neighbors[i], |g[neighbors[i]]|);
    }
    assert neighbors[..|neighbors|] == neighbors;
  }

  lemma ExactNext(h: Graph, h': Graph, neighbors: seq<nat>, key: map<nat, int>, key': map<nat, int>, x: nat)
    requires ExactKeys(h, key) && |h| == |h'| && key'.Keys == key.Keys - {x}
    requires forall u: nat :: u < |h| && u != x && u !in neighbors ==> h'[u] == h[u]
    requires forall v: nat :: v in key' ==> if v in neighbors then v < |h'| && key'[v] == |h'[v]| else key'[v] == key[v]
    ensures ExactKeys(h', key')
  {
    forall v: nat | v in key' ensures v < |h'| && key'[v] == |h'[v]| {
      assert v in key;
    }
  }

  /** Eliminates the node with the smallest key and brings its neighbours' keys up to date. */
  method EliminateSmallest(g: array<seq<nat>>, q: MinIdHeap, ghost start: Graph, ghost done: seq<nat>) returns (x: nat)
    requires |start| == g.Length && Progress(start, g[..], done, q.key) && ExactKeys(g[..], q.key) && q.key.Keys != {}
    modifies g, q
    ensures Progress(start, g[..], done + [x], q.key) && ExactKeys(g[..], q.key)
    ensures MinimalDegree(start, done + [x], |done|)
    ensures |q.key.Keys| < old(|q.key.Keys|)
  {
    hide GraphOk, EliminationGraph, Contracted, MinimalDegree, Progress, NoDup, Adj, Elements, ExactKeys;
    ghost var h, key0 := g[..], q.key;
    x := q.Pop();
    PickMinimal(start, h, done, key0, x);
    ProgressRange(start, h, done, key0, x);
    var neighbors := ContractNode(g, x);
    ghost var h' := g[..];
    Pick(start, h, done, key0, x, h');
    forall i: nat | i < |neighbors| ensures neighbors[i] in q.key && neighbors[i] < g.Length {
      NeighborsRemain(start, h, done, key0, x, i);
    }
    Rekey(g, q, neighbors);
    assert q.key.Keys == key0.Keys - {x};
    ExactNext(h, h', neighbors, key0, q.key, x);
    ProgressKeys(start, h', done + [x], key0 - {x}, q.key);
  }

  method ComputeGreedyMinDegreeOrder(tail: seq<nat>, head: seq<nat>, n: nat) returns (order: array<nat>, ghost start: Graph)
    requires SimpleArcs(tail, head, n)
    ensures |start| == n && forall u: nat, v: nat :: Adj(start, u, v) <==> HasArc(tail, head, u, v)
    ensures IsOrder(order[..], n)
    ensures forall k: nat :: k < n ==> MinimalDegree(start, order[..], k)
  {
    hide GraphOk, EliminationGraph, MinimalDegree, Progress, NoDup, Adj, Elements, ExactKeys;
    var g := BuildDynArray(tail, head, n);
    start := g[..];
    var q := FillHeap(g);
    order := new nat[n](_ => 0);
    var nextPos := 0;
    ghost var done: seq<nat> := [];
    ProgressStart(start, q.key);
    while q.key.Keys != {}
      invariant g.Length == order.Length == n == |start| && fresh(q) && fresh(g) && fresh(order)
      invariant Progress(start, g[..], done, q.key) && ExactKeys(g[..], q.key)
      invariant nextPos == |done| <= n && order[..nextPos] == done
      invariant forall k: nat :: k < |done| ==> MinimalDegree(start, done, k)
      decreases |q.key.Keys|
    {
      RoomLeft(start, g[..], done, q.key);
      var x := EliminateSmallest(g, q, start, done);
      order[nextPos] := x;
      nextPos := nextPos + 1;
      ghost var longer := done + [x];
      forall k: nat | k < |longer| ensures MinimalDegree(start, longer, k) {
        if k < |done| {
          MinimalKept(start, done, [x], k);
        }
      }
      assert order[..nextPos] == longer;
      done := longer;
    }
    RoomLeft(start, g[..], done, q.key);
    assert order[..] == done;
  }

  lemma ProgressStart(start: Graph, key: map<nat, int>)
    requires GraphOk(start) && forall v: nat :: v in key <==> v < |start|
    ensures Progress(start, start, [], key)
  {
    NothingEliminated(start);
    assert Elements<nat>([]) == {};
  }

  lemma ProgressRange(start: Graph, h: Graph, done: seq<nat>, key: map<nat, int>, x: nat)
    requires Progress(start, h, done, key) && x in key
    ensures x < |start| == |h| && GraphOk(h)
  {
  }

  lemma ProgressKeys(start: Graph, h: Graph, done: seq<nat>, key: map<nat, int>, key': map<nat, int>)
    requires Progress(start, h, done, key) && key'.Keys == key.Keys
    ensures Progress(start, h, done, key')
  {
  }
}
