/**
 * The greedy order by number of shortcuts. Only the neighbours of a contracted node are scored again, although
 * the score of any node two steps away can drop.
 */
module ShortcutOrder {
  import opened FiniteSets
  import opened SimpleGraph
  import opened GreedyOrder

  /** The score a node is queued with. */
  ghost function Score(g: Graph, v: nat): int { if v < |g| then 100 * |Shortcuts(g, v)| + |g[v]| else 0 }

  /** `x` and `u` have two common neighbours that are not adjacent: contracting `x` saves `u` a shortcut. */
  ghost predicate Square(g: Graph, x: nat, u: nat) {
    exists p: nat, q: nat :: Corners(g, x, u, p, q)
  }

  ghost predicate Corners(g: Graph, x: nat, u: nat, p: nat, q: nat) {
    p < q && Adj(g, x, p) && Adj(g, x, q) && Adj(g, u, p) && Adj(g, u, q) && !Adj(g, p, q)
  }

  /** What contracting `x` does to the score of a node that is not its neighbour. */
  lemma ContractedScore(g: Graph, x: nat, h: Graph, u: nat)
    requires GraphOk(g) && Contracted(g, x, h) && u < |g| && u != x && !Adj(g, x, u)
    ensures Score(h, u) <= Score(g, u)
    ensures Score(h, u) == Score(g, u) <==> !Square(g, x, u)
  {
    SameNeighbors(g, x, h, u);
    var before, after := Shortcuts(g, u), Shortcuts(h, u);
    assert after <= before by {
      forall z: (nat, nat) | z in after ensures z in before {
        assert Adj(h, u, z.0) && Adj(h, u, z.1) && !Adj(h, z.0, z.1);
        assert z.0 != x && z.1 != x;
      }
    }
    SubsetSize(after, before);
    if Square(g, x, u) {
      var p: nat, q: nat :| Corners(g, x, u, p, q);
      assert Adj(g, p, x) && Adj(h, p, q);
      assert (p, q) in before && (p, q) !in after;
      SubsetSize(after, before - {(p, q)});
    } else {
      forall z: (nat, nat) | z in before ensures z in after {
        assert !Corners(g, x, u, z.0, z.1);
        assert Adj(g, z.0, x) <==> Adj(g, x, z.0);
        assert Adj(g, u, z.0) && Adj(h, u, z.0) && Adj(g, u, z.1) && Adj(h, u, z.1);
      }
      assert before == after;
    }
  }

  lemma SameNeighbors(g: Graph, x: nat, h: Graph, u: nat)
    requires GraphOk(g) && Contracted(g, x, h) && u < |g| && u != x && !Adj(g, x, u)
    ensures |h[u]| == |g[u]| && forall v: nat :: Adj(h, u, v) <==> Adj(g, u, v)
  {
    assert !Adj(g, u, x);
    forall v: nat ensures Adj(h, u, v) <==> Adj(g, u, v) {
      assert Adj(g, u, v) ==> u != v;
    }
    OkAt(g, u);
    OkAt(h, u);
    AscendingSize(g[u]);
    AscendingSize(h[u]);
    forall v: nat ensures v in h[u] <==> v in g[u] {
      assert Adj(h, u, v) <==> Adj(g, u, v);
    }
    assert Elements(h[u]) == Elements(g[u]);
  }

  // ---- whole orders ----

  /** `gs` are the graphs met while contracting the nodes of `order` one after the other. */
  ghost predicate Eliminations(gs: seq<Graph>, order: seq<nat>) {
    |gs| == |order| + 1 && GraphOk(gs[0]) &&
    forall i: nat :: i < |order| ==> order[i] < |gs[i]| && Contracted(gs[i], order[i], gs[i + 1])
  }

  lemma {:induction false} GraphsOk(gs: seq<Graph>, order: seq<nat>, k: nat)
    requires Eliminations(gs, order) && k <= |order|
    ensures GraphOk(gs[k]) && |gs[k]| == |gs[0]|
  {
    if k > 0 {
      GraphsOk(gs, order, k - 1);
    }
  }

  /** The key of `v` before the `k`th node is taken: its score when it was last scored. */
  ghost function Recorded(gs: seq<Graph>, order: seq<nat>, k: nat, v: nat): int
    requires k <= |order| && |gs| == |order| + 1
  {
    if k == 0 then Score(gs[0], v)
    else if Adj(gs[k - 1], order[k - 1], v) then Score(gs[k], v)
    else Recorded(gs, order, k - 1, v)
  }

  /** Since `v` was last scored no contraction saved it a shortcut. */
  ghost predicate Fresh(gs: seq<Graph>, order: seq<nat>, k: nat, v: nat)
    requires k <= |order| && |gs| == |order| + 1
  {
    k == 0 || Adj(gs[k - 1], order[k - 1], v) || (Fresh(gs, order, k - 1, v) && !Square(gs[k - 1], order[k - 1], v))
  }

  /** Keys are never below the scores, and exact just when they are fresh. */
  lemma {:induction false} RecordedExact(gs: seq<Graph>, order: seq<nat>, k: nat, v: nat)
    requires Eliminations(gs, order) && k <= |order| && v < |gs[0]| && v !in order[..k]
    ensures Score(gs[k], v) <= Recorded(gs, order, k, v)
    ensures Score(gs[k], v) == Recorded(gs, order, k, v) <==> Fresh(gs, order, k, v)
  {
    hide Score, Square, GraphOk, Contracted, Adj;
    if k > 0 {
      var x := order[k - 1];
      assert order[..k] == order[..k - 1] + [x];
      GraphsOk(gs, order, k - 1);
      assert Contracted(gs[k - 1], order[k - 1], gs[k - 1 + 1]);
      RecordedExact(gs, order, k - 1, v);
      if !Adj(gs[k - 1], x, v) {
        ContractedScore(gs[k - 1], x, gs[k], v);
      }
    }
  }

  /** Every node taken has the smallest key. */
  ghost predicate SmallestKeys(gs: seq<Graph>, order: seq<nat>, n: nat)
    requires |gs| == |order| + 1
  {
    forall k: nat, v: nat :: k < |order| && v < n && v !in order[..k] ==> Recorded(gs, order, k, order[k]) <= Recorded(gs, order, k, v)
  }

  /** No node is left at step `k` with a smaller current score than the one taken. */
  ghost predicate MinimalScore(gs: seq<Graph>, order: seq<nat>, n: nat, k: nat)
    requires |gs| == |order| + 1 && k < |order|
  {
    forall v: nat :: v < n && v !in order[..k] ==> Score(gs[k], order[k]) <= Score(gs[k], v)
  }

  /** The node taken at step `k` has the smallest current score exactly when no node with a stale key beats it. */
  lemma MinimalUnlessStale(gs: seq<Graph>, order: seq<nat>, n: nat, k: nat)
    requires Eliminations(gs, order) && |gs[0]| == n && IsOrder(order, n) && SmallestKeys(gs, order, n) && k < n
    ensures MinimalScore(gs, order, n, k)
      <==> forall v: nat :: v < n && v !in order[..k] && !Fresh(gs, order, k, v) ==> Score(gs[k], order[k]) <= Score(gs[k], v)
  {
    hide Score, Recorded, Fresh, Square, Contracted;
    assert order[k] !in order[..k];
    RecordedExact(gs, order, k, order[k]);
    forall v: nat | v < n && v !in order[..k] && Fresh(gs, order, k, v) ensures Score(gs[k], order[k]) <= Score(gs[k], v) {
      RecordedExact(gs, order, k, v);
    }
  }

  // ---- chordal graphs keep every key exact ----

  function Next(i: nat, m: nat): nat { if i + 1 < m then i + 1 else 0 }

  /** Around a hole exactly the neighbouring places are adjacent. */
  ghost predicate Hole(g: Graph, c: seq<nat>) {
    |c| >= 4 && NoDup(c) &&
    (forall i: nat :: i < |c| ==> Adj(g, c[i], c[Next(i, |c|)])) &&
    (forall i: nat, j: nat :: i < |c| && j < |c| && Adj(g, c[i], c[j]) ==> j == Next(i, |c|) || i == Next(j, |c|))
  }

  /** No cycle of four or more nodes without a chord. */
  ghost predicate Chordal(g: Graph) { forall c: seq<nat> :: !Hole(g, c) }

  function Rotate(c: seq<nat>, k: nat): seq<nat>
    requires k <= |c|
  {
    c[k..] + c[..k]
  }

  /** Where place `i` of the rotated list comes from. */
  function Origin(i: nat, k: nat, m: nat): nat
    requires i < m && k < m
  {
    if i + k < m then i + k else i + k - m
  }

  lemma RotatedAt(c: seq<nat>, k: nat, i: nat)
    requires k < |c| && i < |c|
    ensures |Rotate(c, k)| == |c| && Rotate(c, k)[i] == c[Origin(i, k, |c|)]
    ensures Origin(Next(i, |c|), k, |c|) == Next(Origin(i, k, |c|), |c|)
  {
  }

  lemma RotatedHole(g: Graph, c: seq<nat>, k: nat)
    requires Hole(g, c) && k < |c|
    ensures Hole(g, Rotate(c, k))
  {
    hide Rotate, Next, Adj, Origin;
    var m := |c|;
    var r := Rotate(c, k);
    RotatedAt(c, k, 0);
    forall i: nat, j: nat | i < j < m ensures r[i] != r[j] {
      RotatedAt(c, k, i);
      RotatedAt(c, k, j);
      OriginApart(i, j, k, m);
      OriginBelow(i, k, m);
      OriginBelow(j, k, m);
    }
    forall i: nat | i < m ensures Next(i, m) < m && Adj(g, r[i], r[Next(i, m)]) {
      NextBelow(i, m);
      OriginBelow(i, k, m);
      RotatedAt(c, k, i);
      RotatedAt(c, k, Next(i, m));
      NextBelow(Origin(i, k, m), m);
      assert Adj(g, c[Origin(i, k, m)], c[Next(Origin(i, k, m), m)]);
    }
    forall i: nat, j: nat | i < m && j < m && Adj(g, r[i], r[j]) ensures j == Next(i, m) || i == Next(j, m) {
      RotatedChord(g, c, k, i, j);
    }
  }

  lemma RotatedChord(g: Graph, c: seq<nat>, k: nat, i: nat, j: nat)
    requires Hole(g, c) && k < |c| && i < |c| && j < |c| && |Rotate(c, k)| == |c| && Adj(g, Rotate(c, k)[i], Rotate(c, k)[j])
    ensures j == Next(i, |c|) || i == Next(j, |c|)
  {
    hide Rotate, Next, Adj, Origin;
    var m := |c|;
    NextBelow(i, m);
    NextBelow(j, m);
    RotatedAt(c, k, i);
    RotatedAt(c, k, j);
    OriginBelow(i, k, m);
    OriginBelow(j, k, m);
    var p, q := Origin(i, k, m), Origin(j, k, m);
    assert q == Next(p, m) || p == Next(q, m);
    OriginApart(j, Next(i, m), k, m);
    OriginApart(i, Next(j, m), k, m);
  }

  lemma OriginBelow(i: nat, k: nat, m: nat)
    requires i < m && k < m
    ensures Origin(i, k, m) < m
  {
  }

  lemma NextBelow(i: nat, m: nat)
    requires i < m
    ensures Next(i, m) < m
  {
  }

  lemma OriginApart(i: nat, j: nat, k: nat, m: nat)
    requires i < m && j < m && k < m
    ensures Origin(i, k, m) == Origin(j, k, m) ==> i == j
  {
  }

  /** A hole after a contraction either was there before or closes around the contracted node. */
  lemma HoleBefore(g: Graph, x: nat, h: Graph, c: seq<nat>)
    requires GraphOk(g) && x < |g| && Contracted(g, x, h) && Hole(h, c)
    ensures !Chordal(g)
  {
    hide GraphOk, Contracted, Adj, Rotate;
    if i: nat :| i < |c| && !Adj(g, c[i], c[Next(i, |c|)]) {
      var k := Next(i, |c|);
      RotatedHole(h, c, k);
      RotatedAt(c, k, 0);
      RotatedAt(c, k, |c| - 1);
      ClosedHole(g, x, h, Rotate(c, k));
    } else {
      SameHole(g, x, h, c);
    }
  }

  lemma SameHole(g: Graph, x: nat, h: Graph, c: seq<nat>)
    requires GraphOk(g) && Contracted(g, x, h) && Hole(h, c) && forall i: nat :: i < |c| ==> Adj(g, c[i], c[Next(i, |c|)])
    ensures Hole(g, c)
  {
    forall i: nat, j: nat | i < |c| && j < |c| && Adj(g, c[i], c[j]) ensures j == Next(i, |c|) || i == Next(j, |c|) {
      OnCycle(g, x, h, c, i);
      OnCycle(g, x, h, c, j);
      assert c[i] != c[j];
      assert Adj(h, c[i], c[j]);
    }
  }

  lemma OnCycle(g: Graph, x: nat, h: Graph, c: seq<nat>, i: nat)
    requires Contracted(g, x, h) && Hole(h, c) && i < |c|
    ensures c[i] != x && c[i] < |g|
  {
    assert Adj(h, c[i], c[Next(i, |c|)]);
  }

  /** The cycle closed by a new edge becomes a longer hole through the contracted node. */
  lemma ClosedHole(g: Graph, x: nat, h: Graph, c: seq<nat>)
    requires GraphOk(g) && x < |g| && Contracted(g, x, h) && Hole(h, c) && !Adj(g, c[|c| - 1], c[0])
    ensures Hole(g, c + [x])
  {
    var m := |c|;
    assert Adj(h, c[m - 1], c[Next(m - 1, m)]);
    assert Adj(g, c[m - 1], x) && Adj(g, x, c[0]);
    forall i: nat | 0 < i < m - 1 ensures !Adj(g, x, c[i]) && !Adj(g, c[i], x) {
      MiddleApart(g, x, h, c, i);
    }
    forall i: nat, j: nat | i < m && j < m ensures Adj(g, c[i], c[j]) <==> Adj(h, c[i], c[j]) && !(i == m - 1 && j == 0) && !(i == 0 && j == m - 1) {
      OnCycle(g, x, h, c, i);
      OnCycle(g, x, h, c, j);
      SameOnCycle(g, x, h, c, i, j);
    }
    ClosedCycle(g, x, h, c);
  }

  lemma ClosedCycle(g: Graph, x: nat, h: Graph, c: seq<nat>)
    requires GraphOk(g) && Contracted(g, x, h) && Hole(h, c) && Adj(g, c[|c| - 1], x) && Adj(g, x, c[0])
    requires forall i: nat :: 0 < i < |c| - 1 ==> !Adj(g, x, c[i]) && !Adj(g, c[i], x)
    requires forall i: nat, j: nat :: i < |c| && j < |c| ==>
      (Adj(g, c[i], c[j]) <==> Adj(h, c[i], c[j]) && !(i == |c| - 1 && j == 0) && !(i == 0 && j == |c| - 1))
    ensures Hole(g, c + [x])
  {
    hide Contracted, Adj;
    var m := |c|;
    var d := c + [x];
    forall i: nat | i < m ensures d[i] != x {
      OnCycle(g, x, h, c, i);
    }
    forall i: nat | i < |d| ensures Adj(g, d[i], d[Next(i, |d|)]) {
      if i < m - 1 {
        assert Adj(h, c[i], c[Next(i, m)]);
      }
    }
    forall i: nat, j: nat | i < |d| && j < |d| && Adj(g, d[i], d[j]) ensures j == Next(i, |d|) || i == Next(j, |d|) {
      if i < m && j < m {
        assert Adj(h, c[i], c[j]);
      }
    }
  }

  lemma MiddleApart(g: Graph, x: nat, h: Graph, c: seq<nat>, i: nat)
    requires GraphOk(g) && Contracted(g, x, h) && Hole(h, c) && 0 < i < |c| - 1
    requires Adj(g, c[|c| - 1], x) && Adj(g, x, c[0])
    ensures !Adj(g, x, c[i]) && !Adj(g, c[i], x)
  {
    var m := |c|;
    assert Adj(g, x, c[i]) <==> Adj(g, c[i], x);
    assert Adj(g, x, c[m - 1]);
    OnCycle(g, x, h, c, i);
    OnCycle(g, x, h, c, 0);
    OnCycle(g, x, h, c, m - 1);
    assert c[i] != c[0] && c[i] != c[m - 1];
    assert Adj(g, c[i], x) ==> Adj(h, c[i], c[0]) && Adj(h, c[i], c[m - 1]);
    NotBoth(h, c, i);
  }

  lemma NotBoth(h: Graph, c: seq<nat>, i: nat)
    requires Hole(h, c) && 0 < i < |c| - 1
    ensures !(Adj(h, c[i], c[0]) && Adj(h, c[i], c[|c| - 1]))
  {
  }

  lemma SameOnCycle(g: Graph, x: nat, h: Graph, c: seq<nat>, i: nat, j: nat)
    requires GraphOk(g) && Contracted(g, x, h) && Hole(h, c) && i < |c| && j < |c| && c[i] != x && c[j] != x
    requires Adj(g, c[|c| - 1], x) && Adj(g, x, c[0]) && !Adj(g, c[|c| - 1], c[0])
    requires forall k: nat :: 0 < k < |c| - 1 ==> !Adj(g, x, c[k]) && !Adj(g, c[k], x)
    ensures Adj(g, c[i], c[j]) <==> Adj(h, c[i], c[j]) && !(i == |c| - 1 && j == 0) && !(i == 0 && j == |c| - 1)
  {
    assert Adj(g, c[0], c[|c| - 1]) <==> Adj(g, c[|c| - 1], c[0]);
    assert Adj(g, c[i], c[j]) ==> c[i] != c[j];
    assert Adj(h, c[i], c[j]) ==> c[i] != c[j];
  }

  /** Two nodes with two non-adjacent common neighbours lie on a hole of length four. */
  lemma ChordalNoSquare(g: Graph, x: nat, u: nat)
    requires GraphOk(g) && Chordal(g) && x != u && !Adj(g, x, u)
    ensures !Square(g, x, u)
  {
    forall p: nat, q: nat ensures !Corners(g, x, u, p, q) {
      var c := [x, p, u, q];
      if Corners(g, x, u, p, q) {
        SquareHole(g, x, u, p, q);
        assert false;
      }
    }
  }

  lemma SquareHole(g: Graph, x: nat, u: nat, p: nat, q: nat)
    requires GraphOk(g) && x != u && !Adj(g, x, u) && Corners(g, x, u, p, q)
    ensures Hole(g, [x, p, u, q])
  {
    var c := [x, p, u, q];
    assert Adj(g, p, x) && Adj(g, q, x) && Adj(g, p, u) && Adj(g, q, u);
    assert !Adj(g, u, x) && !Adj(g, q, p);
    assert !Adj(g, x, x) && !Adj(g, p, p) && !Adj(g, u, u) && !Adj(g, q, q);
    assert c[0] == x && c[1] == p && c[2] == u && c[3] == q;
  }

  /** From a chordal graph on, every graph met is chordal. */
  lemma {:induction false} StaysChordal(gs: seq<Graph>, order: seq<nat>, k: nat)
    requires Eliminations(gs, order) && Chordal(gs[0]) && k <= |order|
    ensures Chordal(gs[k])
  {
    if k > 0 {
      StaysChordal(gs, order, k - 1);
      GraphsOk(gs, order, k - 1);
      assert Contracted(gs[k - 1], order[k - 1], gs[k - 1 + 1]);
      forall c: seq<nat> ensures !Hole(gs[k], c) {
        if Hole(gs[k], c) {
          HoleBefore(gs[k - 1], order[k - 1], gs[k], c);
        }
      }
    }
  }

  lemma {:induction false} ChordalFresh(gs: seq<Graph>, order: seq<nat>, k: nat, v: nat)
    requires Eliminations(gs, order) && Chordal(gs[0]) && k <= |order| && v !in order[..k]
    ensures Fresh(gs, order, k, v)
  {
    if k > 0 {
      assert order[..k] == order[..k - 1] + [order[k - 1]];
      StaysChordal(gs, order, k - 1);
      GraphsOk(gs, order, k - 1);
      ChordalFresh(gs, order, k - 1, v);
      if !Adj(gs[k - 1], order[k - 1], v) {
        ChordalNoSquare(gs[k - 1], order[k - 1], v);
      }
    }
  }

  // ---- any other graph has an order that makes a key stale ----

  /** Adjacent once `x` is contracted. */
  predicate Joined(g: Graph, x: nat, u: nat, v: nat) {
    u != x && v != x && u != v && (Adj(g, u, v) || (Adj(g, u, x) && Adj(g, x, v)))
  }

  /** The nodes below `k` that are adjacent to `u` once `x` is contracted. */
  function Row(g: Graph, x: nat, u: nat, k: nat): seq<nat> {
    if k == 0 then [] else Row(g, x, u, k - 1) + (if Joined(g, x, u, k - 1) then [k - 1] else [])
  }

  lemma {:induction false} RowHolds(g: Graph, x: nat, u: nat, k: nat)
    ensures Ascending(Row(g, x, u, k)) && forall v: nat :: v in Row(g, x, u, k) <==> v < k && Joined(g, x, u, v)
  {
    hide Joined;
    if k > 0 {
      RowHolds(g, x, u, k - 1);
      var front := Row(g, x, u, k - 1);
      assert forall i: nat :: i < |front| ==> front[i] in front;
    }
  }

  function Contraction(g: Graph, x: nat): Graph {
    seq(|g|, u requires 0 <= u < |g| => Row(g, x, u, |g|))
  }

  lemma ContractionHolds(g: Graph, x: nat)
    requires GraphOk(g)
    ensures Contracted(g, x, Contraction(g, x))
  {
    hide Row;
    var h := Contraction(g, x);
    forall u: nat | u < |g| ensures h[u] == Row(g, x, u, |g|) && Ascending(h[u]) {
      RowHolds(g, x, u, |g|);
    }
    forall u: nat, v: nat ensures Adj(h, u, v) <==> Joined(g, x, u, v) {
      if u < |g| {
        RowHolds(g, x, u, |g|);
      }
      assert Adj(g, u, v) || Adj(g, x, v) ==> v < |g|;
    }
    forall u: nat, v: nat | Adj(h, u, v) ensures v < |g| && u != v && Adj(h, v, u) {
      assert Joined(g, x, u, v) && Joined(g, x, v, u);
    }
  }

  /** Contracting a node of a long hole leaves a hole without it. */
  lemma HoleShrinks(g: Graph, h: Graph, c: seq<nat>)
    requires GraphOk(g) && Hole(g, c) && |c| > 4 && Contracted(g, c[0], h)
    ensures Hole(h, c[1..])
  {
    var d, m := c[1..], |c|;
    assert forall i: nat :: i < |d| ==> d[i] == c[i + 1];
    forall i: nat | i < |d| ensures Adj(h, d[i], d[Next(i, |d|)]) {
      assert Adj(g, c[i + 1], c[Next(i + 1, m)]);
      assert Adj(g, c[0], c[Next(0, m)]);
    }
    forall i: nat, j: nat | i < |d| && j < |d| && Adj(h, d[i], d[j])
      ensures j == Next(i, |d|) || i == Next(j, |d|)
    {
      HoleChord(g, h, c, i, j);
    }
  }

  lemma HoleChord(g: Graph, h: Graph, c: seq<nat>, i: nat, j: nat)
    requires GraphOk(g) && Hole(g, c) && |c| > 4 && Contracted(g, c[0], h)
    requires i < |c| - 1 && j < |c| - 1 && Adj(h, c[i + 1], c[j + 1])
    ensures j == Next(i, |c| - 1) || i == Next(j, |c| - 1)
  {
    var a, b := i + 1, j + 1;
    if !Adj(g, c[a], c[b]) {
      assert Adj(g, c[a], c[0]) && Adj(g, c[0], c[b]) && c[a] != c[b];
      assert a == 1 || a == |c| - 1;
      assert b == 1 || b == |c| - 1;
    }
  }

  /** Contracting the nodes of a hole up to the last three makes a key stale. */
  lemma {:induction false} HoleStales(g: Graph, c: seq<nat>) returns (gs: seq<Graph>, order: seq<nat>)
    requires GraphOk(g) && Hole(g, c)
    ensures Eliminations(gs, order) && gs[0] == g && order == c[..|c| - 3]
    ensures !Fresh(gs, order, |order|, c[|c| - 2])
    decreases |c|
  {
    HoleSize(g, c);
    hide *;
    var x, h := c[0], Contraction(g, c[0]);
    ContractionHolds(g, x);
    ContractedOk(g, x, h);
    if |c| == 4 {
      gs, order := [g, h], [x];
      ShortStales(g, h, c);
      assert c[..1] == [x];
    } else {
      HoleShrinks(g, h, c);
      var gs1, order1 := HoleStales(h, c[1..]);
      EliminationsFrom(g, x, gs1, order1);
      gs, order := [g] + gs1, [x] + order1;
      assert order == c[..|c| - 3];
      if Fresh(gs, order, |order|, c[|c| - 2]) {
        FreshLater(g, gs1, x, order1, |order1|, c[|c| - 2]);
      }
    }
  }

  lemma EliminationsFrom(g: Graph, x: nat, gs: seq<Graph>, order: seq<nat>)
    requires GraphOk(g) && x < |g| && Eliminations(gs, order) && Contracted(g, x, gs[0])
    ensures Eliminations([g] + gs, [x] + order)
  {
    hide GraphOk, Contracted;
    var gs1, order1 := [g] + gs, [x] + order;
    forall i: nat | i < |order1| ensures order1[i] < |gs1[i]| && Contracted(gs1[i], order1[i], gs1[i + 1]) {
      if i > 0 {
        assert order1[i] == order[i - 1] && gs1[i] == gs[i - 1] && gs1[i + 1] == gs[i - 1 + 1];
      }
    }
  }

  lemma ShortStales(g: Graph, h: Graph, c: seq<nat>)
    requires GraphOk(g) && Hole(g, c) && |c| == 4 && c[0] < |g| && Contracted(g, c[0], h)
    ensures Eliminations([g, h], [c[0]]) && !Fresh([g, h], [c[0]], 1, c[2])
  {
    hide Hole, Square, Contracted, Adj;
    ShortHole(g, c);
  }

  lemma ShortHole(g: Graph, c: seq<nat>)
    requires GraphOk(g) && Hole(g, c) && |c| == 4
    ensures !Adj(g, c[0], c[2]) && Square(g, c[0], c[2])
  {
    assert Adj(g, c[0], c[Next(0, 4)]) && Adj(g, c[1], c[Next(1, 4)]) && Adj(g, c[2], c[Next(2, 4)]) && Adj(g, c[3], c[Next(3, 4)]);
    assert !Adj(g, c[1], c[3]) && !Adj(g, c[3], c[1]) && c[1] != c[3];
    if c[1] < c[3] {
      assert Corners(g, c[0], c[2], c[1], c[3]);
    } else {
      assert Corners(g, c[0], c[2], c[3], c[1]);
    }
  }

  /** A key that stays fresh from the start stays fresh from the second graph on. */
  lemma {:induction false} FreshLater(g: Graph, gs: seq<Graph>, x: nat, order: seq<nat>, k: nat, v: nat)
    requires |gs| == |order| + 1 && k <= |order| && Fresh([g] + gs, [x] + order, k + 1, v)
    ensures Fresh(gs, order, k, v)
  {
    hide Square, Adj;
    if k > 0 {
      assert ([g] + gs)[k] == gs[k - 1] && ([x] + order)[k] == order[k - 1];
      if !Adj(gs[k - 1], order[k - 1], v) {
        FreshLater(g, gs, x, order, k - 1, v);
      }
    }
  }

  /** Every key of a node still to be taken is exact. */
  ghost predicate NeverStale(gs: seq<Graph>, order: seq<nat>)
    requires |gs| == |order| + 1
  {
    forall k: nat, v: nat :: k <= |order| && v < |gs[0]| && v !in order[..k] ==> Fresh(gs, order, k, v)
  }

  /** A graph is chordal exactly when no order of contractions ever makes a key stale. */
  lemma ChordalExact(g: Graph)
    requires GraphOk(g)
    ensures Chordal(g) <==> forall gs: seq<Graph>, order: seq<nat> :: Eliminations(gs, order) && gs[0] == g ==> NeverStale(gs, order)
  {
    hide GraphOk, Fresh, Hole;
    if Chordal(g) {
      forall gs: seq<Graph>, order: seq<nat> | Eliminations(gs, order) && gs[0] == g ensures NeverStale(gs, order) {
        forall k: nat, v: nat | k <= |order| && v < |g| && v !in order[..k] ensures Fresh(gs, order, k, v) {
          ChordalFresh(gs, order, k, v);
        }
      }
    } else {
      var c: seq<nat> :| Hole(g, c);
      HoleSize(g, c);
      var gs, order := HoleStales(g, c);
      assert !NeverStale(gs, order);
    }
  }

  /** The node before the last of a hole is a node of the graph, and not among those that come first. */
  lemma HoleSize(g: Graph, c: seq<nat>)
    requires GraphOk(g) && Hole(g, c)
    ensures |c| >= 4 && c[0] < |g| && c[|c| - 2] < |g| && c[|c| - 2] !in c[..|c| - 3]
  {
    assert Adj(g, c[|c| - 2], c[Next(|c| - 2, |c|)]) && Adj(g, c[0], c[Next(0, |c|)]);
  }

  // ---- the algorithm ----

  method KeyOf(g: array<seq<nat>>, v: nat) returns (k: int)
    requires GraphOk(g[..]) && v < g.Length
    ensures k == Score(g[..], v)
  {
    var shortcuts := ComputeNumberOfShortcuts(g, v);
    k := 100 * shortcuts + |g[v]|;
  }

  /** The heap holds the remaining nodes under the keys recorded so far. */
  ghost predicate KeysRecorded(gs: seq<Graph>, done: seq<nat>, key: map<nat, int>)
    requires |gs| == |done| + 1
  {
    forall v: nat :: v in key ==> key[v] == Recorded(gs, done, |done|, v)
  }

  method FillHeapByShortcuts(g: array<seq<nat>>) returns (q: MinIdHeap)
    requires GraphOk(g[..])
    ensures fresh(q) && forall v: nat :: v in q.key <==> v < g.Length
    ensures KeysRecorded([g[..]], [], q.key)
  {
    hide GraphOk, Score;
    q := new MinIdHeap();
    for x := 0 to g.Length
      invariant fresh(q) && forall v: nat :: v in q.key <==> v < x
      invariant forall v: nat :: v in q.key ==> q.key[v] == Score(g[..], v)
    {
      var k := KeyOf(g, x);
      q.PushOrSetKey(x, k);
    }
  }

  /** Records of earlier steps do not change. */
  lemma {:induction false} RecordedKept(gs: seq<Graph>, order: seq<nat>, g: Graph, x: nat, k: nat, v: nat)
    requires |gs| == |order| + 1 && k <= |order|
    ensures Recorded(gs + [g], order + [x], k, v) == Recorded(gs, order, k, v)
  {
    hide Score, Adj;
    if k > 0 {
      RecordedKept(gs, order, g, x, k - 1, v);
      assert (gs + [g])[k - 1] == gs[k - 1] && (gs + [g])[k] == gs[k] && (order + [x])[k - 1] == order[k - 1];
    } else {
      assert (gs + [g])[0] == gs[0];
    }
  }

  lemma RecordedNext(gs: seq<Graph>, order: seq<nat>, g: Graph, x: nat, v: nat)
    requires |gs| == |order| + 1
    ensures Recorded(gs + [g], order + [x], |order| + 1, v)
         == if Adj(gs[|order|], x, v) then Score(g, v) else Recorded(gs, order, |order|, v)
  {
    hide Score, Adj;
    RecordedKept(gs, order, g, x, |order|, v);
    assert (gs + [g])[|order|] == gs[|order|] && (gs + [g])[|order| + 1] == g && (order + [x])[|order|] == x;
  }

  /** Eliminates the node with the smallest key and scores its neighbours again; other keys stay as they are. */
  method EliminateByShortcuts(g: array<seq<nat>>, q: MinIdHeap, ghost start: Graph, ghost done: seq<nat>, ghost gs: seq<Graph>) returns (x: nat)
    requires |start| == g.Length && Progress(start, g[..], done, q.key) && q.key.Keys != {}
    requires |gs| == |done| + 1 && gs[|done|] == g[..] && KeysRecorded(gs, done, q.key)
    modifies g, q
    ensures Progress(start, g[..], done + [x], q.key) && Contracted(old(g[..]), x, g[..]) && x < |old(g[..])|
    ensures x in old(q.key) && forall y: nat :: y in old(q.key) ==> Recorded(gs, done, |done|, x) <= Recorded(gs, done, |done|, y)
    ensures KeysRecorded(gs + [g[..]], done + [x], q.key)
    ensures |q.key.Keys| < old(|q.key.Keys|)
  {
    hide GraphOk, EliminationGraph, Contracted, Progress, NoDup, Elements, Score, Recorded;
    ghost var h, key0 := g[..], q.key;
    x := q.Pop();
    ProgressRange(start, h, done, key0, x);
    var neighbors := ContractNode(g, x);
    ghost var h' := g[..];
    Pick(start, h, done, key0, x, h');
    ContractedOk(h, x, h');
    for i := 0 to |neighbors|
      invariant g[..] == h' && neighbors == h[x]
      invariant q.key.Keys == key0.Keys - {x}
      invariant forall v: nat :: v in q.key ==> q.key[v] == if v in neighbors[..i] then Score(h', v) else key0[v]
    {
      NeighborsRemain(start, h, done, key0, x, i);
      assert neighbors[..i + 1] == neighbors[..i] + [neighbors[i]];
      var k := KeyOf(g, neighbors[i]);
      q.PushOrSetKey(neighbors[i], k);
    }
    assert neighbors[..|neighbors|] == neighbors;
    ProgressKeys(start, h', done + [x], key0 - {x}, q.key);
    forall v: nat | v in q.key ensures q.key[v] == Recorded(gs + [h'], done + [x], |done + [x]|, v) {
      RecordedNext(gs, done, h', x, v);
      assert v in key0;
    }
  }

  lemma ContractedOk(g: Graph, x: nat, h: Graph)
    requires Contracted(g, x, h)
    ensures GraphOk(h) && |h| == |g|
  {
  }

  /**
   * Every node once, each with the smallest recorded key. So each has the smallest current score unless a node with a
   * stale key beats it, and on chordal graphs, where keys are never stale, every one has.
   */
  method ComputeGreedyMinShortcutOrder(tail: seq<nat>, head: seq<nat>, n: nat) returns (order: array<nat>, ghost gs: seq<Graph>)
    requires SimpleArcs(tail, head, n)
    ensures IsOrder(order[..], n) && Eliminations(gs, order[..])
    ensures |gs[0]| == n && forall u: nat, v: nat :: Adj(gs[0], u, v) <==> HasArc(tail, head, u, v)
    ensures SmallestKeys(gs, order[..], n)
    ensures forall k: nat :: k < n ==>
      (MinimalScore(gs, order[..], n, k)
       <==> forall v: nat :: v < n && v !in order[..k] && !Fresh(gs, order[..], k, v) ==> Score(gs[k], order[k]) <= Score(gs[k], v))
    ensures Chordal(gs[0]) ==> forall k: nat :: k < n ==> MinimalScore(gs, order[..], n, k)
  {
    hide GraphOk, EliminationGraph, Contracted, Progress, NoDup, Adj, Elements, Score, Recorded, Fresh, Chordal, SmallestKeys, Eliminations, KeysRecorded;
    var g := BuildDynArray(tail, head, n);
    ghost var start := g[..];
    var q := FillHeapByShortcuts(g);
    order := new nat[n](_ => 0);
    var nextPos := 0;
    ghost var done: seq<nat> := [];
    gs := [start];
    ProgressStart(start, q.key);
    NothingTaken(start, n);
    while q.key.Keys != {}
      invariant g.Length == order.Length == n == |start| && fresh(q) && fresh(g) && fresh(order)
      invariant Progress(start, g[..], done, q.key)
      invariant nextPos == |done| <= n && order[..nextPos] == done
      invariant |gs| == |done| + 1 && gs[0] == start && gs[|done|] == g[..] && Eliminations(gs, done)
      invariant SmallestKeys(gs, done, n) && KeysRecorded(gs, done, q.key)
      decreases |q.key.Keys|
    {
      RoomLeft(start, g[..], done, q.key);
      ghost var h, key0 := g[..], q.key;
      var x := EliminateByShortcuts(g, q, start, done, gs);
      order[nextPos] := x;
      nextPos := nextPos + 1;
      ProgressHeap(start, h, done, key0);
      TakeNext(gs, done, g[..], x, n);
      assert order[..nextPos] == done + [x];
      done := done + [x];
      gs := gs + [g[..]];
    }
    RoomLeft(start, g[..], done, q.key);
    assert order[..] == done;
    OrderFacts(gs, done, n);
    forall k: nat | k < n ensures order[..k] == done[..k] {
    }
  }

  lemma NothingTaken(start: Graph, n: nat)
    requires GraphOk(start)
    ensures Eliminations([start], []) && SmallestKeys([start], [], n)
  {
  }

  lemma ProgressHeap(start: Graph, h: Graph, done: seq<nat>, key: map<nat, int>)
    requires Progress(start, h, done, key)
    ensures forall v: nat :: v in key <==> v < |start| && v !in done
  {
  }

  lemma TakeNext(gs: seq<Graph>, done: seq<nat>, g: Graph, x: nat, n: nat)
    requires Eliminations(gs, done) && SmallestKeys(gs, done, n) && x < |gs[|done|]| && Contracted(gs[|done|], x, g)
    requires forall v: nat :: v < n && v !in done ==> Recorded(gs, done, |done|, x) <= Recorded(gs, done, |done|, v)
    ensures Eliminations(gs + [g], done + [x]) && SmallestKeys(gs + [g], done + [x], n)
  {
    hide Contracted, GraphOk, Recorded;
    var gs', order := gs + [g], done + [x];
    forall i: nat | i < |order| ensures order[i] < |gs'[i]| && Contracted(gs'[i], order[i], gs'[i + 1]) {
      if i < |done| {
        assert done[i] < |gs[i]| && Contracted(gs[i], done[i], gs[i + 1]);
      }
    }
    forall k: nat, v: nat | k < |order| && v < n && v !in order[..k]
      ensures Recorded(gs', order, k, order[k]) <= Recorded(gs', order, k, v)
    {
      assert order[..k] == done[..k];
      RecordedKept(gs, done, g, x, k, order[k]);
      RecordedKept(gs, done, g, x, k, v);
      if k == |done| {
        assert done[..k] == done;
      }
    }
  }

  lemma OrderFacts(gs: seq<Graph>, order: seq<nat>, n: nat)
    requires Eliminations(gs, order) && |gs[0]| == n && IsOrder(order, n) && SmallestKeys(gs, order, n)
    ensures forall k: nat :: k < n ==>
      (MinimalScore(gs, order, n, k)
       <==> forall v: nat :: v < n && v !in order[..k] && !Fresh(gs, order, k, v) ==> Score(gs[k], order[k]) <= Score(gs[k], v))
    ensures Chordal(gs[0]) ==> forall k: nat :: k < n ==> MinimalScore(gs, order, n, k)
  {
    hide Eliminations, SmallestKeys, Score, Fresh, Chordal, MinimalScore;
    EliminationsLength(gs, order);
    forall k: nat | k < n
      ensures MinimalScore(gs, order, n, k)
        <==> forall v: nat :: v < n && v !in order[..k] && !Fresh(gs, order, k, v) ==> Score(gs[k], order[k]) <= Score(gs[k], v)
      ensures Chordal(gs[0]) ==> MinimalScore(gs, order, n, k)
    {
      MinimalUnlessStale(gs, order, n, k);
      if Chordal(gs[0]) {
        forall v: nat | v < n && v !in order[..k] ensures Fresh(gs, order, k, v) {
          ChordalFresh(gs, order, k, v);
        }
      }
    }
  }

  lemma EliminationsLength(gs: seq<Graph>, order: seq<nat>)
    requires Eliminations(gs, order)
    ensures |gs| == |order| + 1
  {
  }

  // ---- a graph on which no run is greedy ----

  /** The complete bipartite graph with three nodes on each side: 0, 2, 5 and 1, 3, 4. */
  function Bipartite(): Graph { [[1, 3, 4], [0, 2, 5], [1, 3, 4], [0, 2, 5], [0, 2, 5], [1, 3, 4]] }

  predicate Left(v: nat) { v == 0 || v == 2 || v == 5 }

  lemma BipartiteAdjacent(u: nat, v: nat)
    ensures Adj(Bipartite(), u, v) <==> u < 6 && v < 6 && Left(u) != Left(v)
  {
    var g := Bipartite();
    if u < 6 {
      assert g[u] == if Left(u) then [1, 3, 4] else [0, 2, 5];
    }
  }

  lemma BipartiteOk()
    ensures GraphOk(Bipartite())
  {
    var g := Bipartite();
    forall u: nat | u < |g| ensures Ascending(g[u]) {
      assert g[u] == if Left(u) then [1, 3, 4] else [0, 2, 5];
    }
    forall u: nat, v: nat | Adj(g, u, v) ensures v < |g| && u != v && Adj(g, v, u) {
      BipartiteAdjacent(u, v);
      BipartiteAdjacent(v, u);
    }
  }

  /** `x`, `b`, `c` are one side, `p`, `q`, `r` the other. */
  predicate Sides(x: nat, b: nat, c: nat, p: nat, q: nat, r: nat) {
    x < 6 && b < 6 && c < 6 && p < 6 && q < 6 && r < 6 && x != b && x != c && b != c && p != q && p != r && q != r &&
    Left(b) == Left(x) && Left(c) == Left(x) && Left(p) != Left(x) && Left(q) != Left(x) && Left(r) != Left(x)
  }

  lemma SidesCover(x: nat, b: nat, c: nat, p: nat, q: nat, r: nat, v: nat)
    requires Sides(x, b, c, p, q, r) && v < 6
    ensures v == x || v == b || v == c || v == p || v == q || v == r
    ensures Left(v) == Left(x) <==> v == x || v == b || v == c
  {
  }

  lemma ScoreOf(g: Graph, v: nat, neighbors: set<nat>, pairs: set<(nat, nat)>)
    requires GraphOk(g) && v < |g| && (forall u: nat :: Adj(g, v, u) <==> u in neighbors)
    requires forall y: nat, z: nat :: (y, z) in pairs <==> y in neighbors && z in neighbors && y < z && !Adj(g, y, z)
    ensures Score(g, v) == 100 * |pairs| + |neighbors|
  {
    OkAt(g, v);
    AscendingSize(g[v]);
    forall u: nat ensures u in Elements(g[v]) <==> u in neighbors {
      assert Adj(g, v, u) <==> u in g[v];
    }
    assert Elements(g[v]) == neighbors;
    forall z: (nat, nat) ensures z in Shortcuts(g, v) <==> z in pairs {
      assert z == (z.0, z.1);
    }
    assert Shortcuts(g, v) == pairs;
  }

  /** The nodes on the side of `x` keep key 303 while their score drops to 3. */
  lemma SameSide(h: Graph, x: nat, b: nat, c: nat, p: nat, q: nat, r: nat)
    requires Contracted(Bipartite(), x, h) && Sides(x, b, c, p, q, r) && p < q < r
    ensures Score(Bipartite(), b) == 303 && Score(h, b) == 3
  {
    hide Score, Contracted, Adj;
    var g := Bipartite();
    BipartiteOk();
    ContractedOk(g, x, h);
    forall u: nat ensures Adj(g, b, u) <==> u in {p, q, r} {
      BipartiteAdjacent(b, u);
      if u < 6 { SidesCover(x, b, c, p, q, r, u); }
    }
    forall y: nat, z: nat ensures (y, z) in {(p, q), (p, r), (q, r)} <==> y in {p, q, r} && z in {p, q, r} && y < z && !Adj(g, y, z) {
      BipartiteAdjacent(y, z);
    }
    ScoreOf(g, b, {p, q, r}, {(p, q), (p, r), (q, r)});
    assert |{p, q, r}| == 3 && |{(p, q), (p, r), (q, r)}| == 3;
    forall u: nat, v: nat ensures Adj(h, u, v) <==> AfterAdjacent(x, u, v) {
      AfterEdges(h, x, u, v);
    }
    forall u: nat ensures Adj(h, b, u) <==> u in {p, q, r} {
      if u < 6 { SidesCover(x, b, c, p, q, r, u); }
    }
    ScoreOf(h, b, {p, q, r}, {});
  }

  /** The neighbours of `x` are scored again, at 104. */
  lemma OtherSide(h: Graph, x: nat, b: nat, c: nat, p: nat, q: nat, r: nat)
    requires Contracted(Bipartite(), x, h) && Sides(x, b, c, p, q, r) && b < c
    ensures Score(h, p) == 104
  {
    hide Score, Contracted, Adj;
    BipartiteOk();
    ContractedOk(Bipartite(), x, h);
    forall u: nat, v: nat ensures Adj(h, u, v) <==> AfterAdjacent(x, u, v) {
      AfterEdges(h, x, u, v);
    }
    forall u: nat ensures Adj(h, p, u) <==> u in {b, c, q, r} {
      if u < 6 { SidesCover(x, b, c, p, q, r, u); }
    }
    forall y: nat, z: nat ensures (y, z) in {(b, c)} <==> y in {b, c, q, r} && z in {b, c, q, r} && y < z && !Adj(h, y, z) {
    }
    ScoreOf(h, p, {b, c, q, r}, {(b, c)});
    assert |{b, c, q, r}| == 4 && |{(b, c)}| == 1;
  }

  lemma AfterFirst(h: Graph, x: nat, b: nat, c: nat, p: nat, q: nat, r: nat)
    requires Contracted(Bipartite(), x, h) && Sides(x, b, c, p, q, r) && b < c && p < q < r
    ensures Score(h, b) == 3
    ensures forall y: nat :: y < 6 && y != x ==>
      if Left(y) == Left(x) then Score(Bipartite(), y) == 303 else Score(h, y) == 104
  {
    hide Score, Contracted;
    SameSide(h, x, b, c, p, q, r);
    SameSide(h, x, c, b, p, q, r);
    OtherSide(h, x, b, c, p, q, r);
    OtherSide(h, x, b, c, q, p, r);
    OtherSide(h, x, b, c, r, q, p);
    forall y: nat | y < 6 && y != x
      ensures if Left(y) == Left(x) then Score(Bipartite(), y) == 303 else Score(h, y) == 104
    {
      SidesCover(x, b, c, p, q, r, y);
    }
  }

  predicate AfterAdjacent(x: nat, u: nat, v: nat) {
    u < 6 && v < 6 && u != x && v != x && u != v && (Left(u) != Left(v) || (Left(u) != Left(x) && Left(v) != Left(x)))
  }

  lemma AfterEdges(h: Graph, x: nat, u: nat, v: nat)
    requires Contracted(Bipartite(), x, h) && x < 6
    ensures Adj(h, u, v) <==> AfterAdjacent(x, u, v)
  {
    hide Adj;
    BipartiteAdjacent(u, v);
    BipartiteAdjacent(u, x);
    BipartiteAdjacent(x, v);
  }

  /** Whatever the ties, the second node taken has score 104 although two nodes of score 3 are left. */
  lemma NotGreedy(gs: seq<Graph>, order: seq<nat>)
    requires |gs| == |order| + 1 && gs[0] == Bipartite() && Eliminations(gs, order) && IsOrder(order, 6) && SmallestKeys(gs, order, 6)
    ensures !MinimalScore(gs, order, 6, 1)
    ensures Score(gs[1], order[1]) == 104 && exists v: nat :: v < 6 && v !in order[..1] && Score(gs[1], v) == 3
  {
    var x := order[0];
    assert order[0] < 6 && Contracted(gs[0], order[0], gs[0 + 1]);
    if x == 0 {
      SecondTaken(gs, order, 2, 5, 1, 3, 4);
    } else if x == 2 {
      SecondTaken(gs, order, 0, 5, 1, 3, 4);
    } else if x == 5 {
      SecondTaken(gs, order, 0, 2, 1, 3, 4);
    } else if x == 1 {
      SecondTaken(gs, order, 3, 4, 0, 2, 5);
    } else if x == 3 {
      SecondTaken(gs, order, 1, 4, 0, 2, 5);
    } else {
      SecondTaken(gs, order, 1, 3, 0, 2, 5);
    }
  }

  lemma SecondTaken(gs: seq<Graph>, order: seq<nat>, b: nat, c: nat, p: nat, q: nat, r: nat)
    requires |gs| == |order| + 1 && gs[0] == Bipartite() && IsOrder(order, 6) && SmallestKeys(gs, order, 6)
    requires Contracted(gs[0], order[0], gs[1]) && Sides(order[0], b, c, p, q, r) && b < c && p < q < r
    ensures !MinimalScore(gs, order, 6, 1)
    ensures Score(gs[1], order[1]) == 104 && exists v: nat :: v < 6 && v !in order[..1] && Score(gs[1], v) == 3
  {
    hide Score, Contracted, Adj;
    var x, y := order[0], order[1];
    assert order[..1] == [x] && x != y;
    AfterFirst(gs[1], x, b, c, p, q, r);
    BipartiteAdjacent(x, p);
    BipartiteAdjacent(x, y);
    assert p !in order[..1] && b !in order[..1];
    assert Recorded(gs, order, 1, y) <= Recorded(gs, order, 1, p) == 104;
    assert Recorded(gs, order, 0, y) == Score(Bipartite(), y);
    assert Score(gs[1], y) == 104;
    assert b < 6 && b !in order[..1] && Score(gs[1], b) == 3;
  }
}
