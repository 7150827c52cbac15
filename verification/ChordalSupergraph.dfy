/**
  The chordal supergraph of an elimination order: node x gains an arc to every later node
  that a path through earlier nodes leads to.
*/
module ChordalSupergraph {
  import opened FiniteSets
  import opened ContractionState
  import opened ContractionGraph

  /** A path from `x` to `y` whose inner nodes all come before `x`. */
  ghost predicate FillPath(tail: seq<nat>, head: seq<nat>, p: seq<nat>, x: nat, y: nat) {
    && |p| >= 2 && p[0] == x && p[|p| - 1] == y
    && (forall i :: 0 <= i < |p| - 1 ==> Edge(tail, head, p[i], p[i + 1]))
    && (forall i :: 0 < i < |p| - 1 ==> p[i] < x)
  }

  ghost predicate HasFillPath(tail: seq<nat>, head: seq<nat>, x: nat, y: nat) {
    exists p: seq<nat> :: FillPath(tail, head, p, x, y)
  }

  ghost predicate Symmetric(tail: seq<nat>, head: seq<nat>) {
    forall a: nat, b: nat :: Edge(tail, head, a, b) ==> Edge(tail, head, b, a)
  }

  ghost predicate InRange(n: nat, tail: seq<nat>, head: seq<nat>) {
    |tail| == |head| && forall j :: 0 <= j < |tail| ==> tail[j] < n && head[j] < n
  }

  // ---------- The contracted nodes ----------

  /** No edge between nodes before `v` leads out of `s`. */
  ghost predicate Saturated(tail: seq<nat>, head: seq<nat>, v: nat, s: set<nat>) {
    forall a: nat, b: nat :: a < v && b < v && Edge(tail, head, a, b) ==> (a in s <==> b in s)
  }

  /** Connected through nodes before `v`: no saturated set tells them apart. */
  ghost predicate Linked(tail: seq<nat>, head: seq<nat>, v: nat, a: nat, b: nat) {
    forall s: set<nat> :: Saturated(tail, head, v, s) ==> (a in s <==> b in s)
  }

  /** The nodes before `v` are contracted into their connected components; the others stand alone. */
  ghost predicate Contracted(tail: seq<nat>, head: seq<nat>, n: nat, rep: seq<nat>, v: nat) {
    && |rep| == n && v <= n
    && (forall a: nat :: a < n ==> if a < v then rep[a] < v else rep[a] == a)
    && (forall a: nat, b: nat :: a < v && b < v && Edge(tail, head, a, b) ==> rep[a] == rep[b])
    && (forall a: nat :: a < v ==> Linked(tail, head, v, a, rep[a]))
  }

  /** The classes of the earlier neighbours `nb` of `v` are moved to `v`. */
  ghost predicate MovedTo(rep: seq<nat>, v: nat, nb: set<nat>, rep': seq<nat>) {
    |rep'| == |rep| && forall a: nat :: a < |rep| ==> rep'[a] == if rep[a] in nb && rep[a] < v then v else rep[a]
  }

  ghost predicate NeighborClasses(tail: seq<nat>, head: seq<nat>, rep: seq<nat>, v: nat, nb: set<nat>) {
    forall y: nat :: y in nb <==> y != v && Related(tail, head, rep, v, y)
  }

  lemma LinkedMore(tail: seq<nat>, head: seq<nat>, v: nat, a: nat, b: nat)
    requires Linked(tail, head, v, a, b)
    ensures Linked(tail, head, v + 1, a, b)
  {
    assert forall s: set<nat> :: Saturated(tail, head, v + 1, s) ==> Saturated(tail, head, v, s);
  }

  lemma LinkedThrough(tail: seq<nat>, head: seq<nat>, v: nat, a: nat, b: nat, c: nat)
    requires Linked(tail, head, v, a, b) && Linked(tail, head, v, b, c)
    ensures Linked(tail, head, v, a, c)
  {
    hide Saturated;
  }

  lemma LinkedFlip(tail: seq<nat>, head: seq<nat>, v: nat, a: nat, b: nat)
    requires Linked(tail, head, v, a, b)
    ensures Linked(tail, head, v, b, a)
  {
    hide Saturated;
  }

  lemma LinkedEdge(tail: seq<nat>, head: seq<nat>, v: nat, a: nat, b: nat)
    requires a < v && b < v && Edge(tail, head, a, b)
    ensures Linked(tail, head, v, a, b)
  {
    hide Edge;
  }

  /** A class next to `v` is linked to `v` once `v` is contracted. */
  lemma NeighborLinked(tail: seq<nat>, head: seq<nat>, n: nat, rep: seq<nat>, v: nat, nb: set<nat>, a: nat)
    requires Contracted(tail, head, n, rep, v) && v < n && NeighborClasses(tail, head, rep, v, nb)
    requires a < v && rep[a] in nb
    ensures Linked(tail, head, v + 1, a, v)
  {
    assert Related(tail, head, rep, v, rep[a]);
    var b: nat, w: nat :| Edge(tail, head, b, w) && b < |rep| && w < |rep| && rep[b] == v && rep[w] == rep[a];
    assert b == v && w < v;
    hide Edge, Linked, Related;
    LinkedFlip(tail, head, v, w, rep[w]);
    LinkedThrough(tail, head, v, a, rep[a], w);
    LinkedMore(tail, head, v, a, w);
    LinkedEdge(tail, head, v + 1, v, w);
    LinkedFlip(tail, head, v + 1, v, w);
    LinkedThrough(tail, head, v + 1, a, w, v);
  }

  /** Joining the earlier neighbours of `v` contracts `v`. */
  lemma ContractStep(tail: seq<nat>, head: seq<nat>, n: nat, rep: seq<nat>, v: nat, nb: set<nat>, rep': seq<nat>)
    requires Symmetric(tail, head) && Contracted(tail, head, n, rep, v) && v < n
    requires NeighborClasses(tail, head, rep, v, nb) && MovedTo(rep, v, nb, rep')
    ensures Contracted(tail, head, n, rep', v + 1)
  {
    hide Linked, Edge;
    forall a: nat, b: nat | a < v + 1 && b < v + 1 && Edge(tail, head, a, b)
      ensures rep'[a] == rep'[b]
    {
      if a == v && b < v {
        EdgeMoved(tail, head, n, rep, v, nb, rep', b);
      } else if b == v && a < v {
        assert Edge(tail, head, v, a);
        EdgeMoved(tail, head, n, rep, v, nb, rep', a);
      }
    }
    forall a: nat | a < v + 1
      ensures Linked(tail, head, v + 1, a, rep'[a])
    {
      if a < v {
        if rep[a] in nb {
          NeighborLinked(tail, head, n, rep, v, nb, a);
        } else {
          LinkedMore(tail, head, v, a, rep[a]);
        }
      } else {
        LinkedSelf(tail, head, v + 1, v);
      }
    }
  }

  lemma LinkedSelf(tail: seq<nat>, head: seq<nat>, v: nat, a: nat)
    ensures Linked(tail, head, v, a, a)
  {
  }

  lemma EdgeMoved(tail: seq<nat>, head: seq<nat>, n: nat, rep: seq<nat>, v: nat, nb: set<nat>, rep': seq<nat>, b: nat)
    requires Contracted(tail, head, n, rep, v) && v < n && NeighborClasses(tail, head, rep, v, nb) && MovedTo(rep, v, nb, rep')
    requires b < v && Edge(tail, head, v, b)
    ensures rep'[v] == v == rep'[b]
  {
    hide Linked, Edge;
    assert Related(tail, head, rep, v, rep[b]);
  }

  // ---------- Neighbours are the ends of fill paths ----------

  /** The nodes that fill paths from `v` reach among those up to `v`. */
  ghost function FillReach(tail: seq<nat>, head: seq<nat>, v: nat): set<nat> {
    set a: nat | a < v + 1 && (a == v || HasFillPath(tail, head, v, a))
  }

  lemma PathExtends(tail: seq<nat>, head: seq<nat>, v: nat, c: nat, d: nat)
    requires Edge(tail, head, c, d) && (c == v || (c < v && HasFillPath(tail, head, v, c)))
    ensures HasFillPath(tail, head, v, d)
  {
    hide Edge;
    if c == v {
      var p := [v, d];
      assert FillPath(tail, head, p, v, d);
    } else {
      var p :| FillPath(tail, head, p, v, c);
      var q := p + [d];
      forall i | 0 <= i < |q| - 1
        ensures Edge(tail, head, q[i], q[i + 1])
      {
        if i < |p| - 1 {
          assert q[i] == p[i] && q[i + 1] == p[i + 1];
        }
      }
      forall i | 0 < i < |q| - 1
        ensures q[i] < v
      {
        assert q[i] == p[i];
      }
      assert FillPath(tail, head, q, v, d);
    }
  }

  lemma FillReachSaturated(tail: seq<nat>, head: seq<nat>, v: nat)
    requires Symmetric(tail, head)
    ensures Saturated(tail, head, v + 1, FillReach(tail, head, v))
  {
    hide Edge, HasFillPath;
    forall a: nat, b: nat | a < v + 1 && b < v + 1 && Edge(tail, head, a, b)
      ensures a in FillReach(tail, head, v) <==> b in FillReach(tail, head, v)
    {
      assert Edge(tail, head, b, a);
      if a in FillReach(tail, head, v) && b != v {
        PathExtends(tail, head, v, a, b);
      }
      if b in FillReach(tail, head, v) && a != v {
        PathExtends(tail, head, v, b, a);
      }
    }
  }

  /** Along a fill path every inner node belongs to the class of `v`. */
  lemma {:induction false} PathInClass(tail: seq<nat>, head: seq<nat>, n: nat, rep: seq<nat>, v: nat, p: seq<nat>, y: nat, i: nat)
    requires Contracted(tail, head, n, rep, v + 1) && v < n && rep[v] == v && FillPath(tail, head, p, v, y) && i < |p| - 1
    ensures p[i] <= v && rep[p[i]] == v
  {
    hide Linked, Edge;
    if i != 0 {
      PathInClass(tail, head, n, rep, v, p, y, i - 1);
      assert Edge(tail, head, p[i - 1], p[i - 1 + 1]);
    }
  }

  /** After `v` is contracted, its neighbours are exactly the later ends of fill paths. */
  lemma NeighborsAreFill(tail: seq<nat>, head: seq<nat>, n: nat, rep: seq<nat>, v: nat, y: nat)
    requires InRange(n, tail, head) && Symmetric(tail, head) && Contracted(tail, head, n, rep, v + 1) && v < n && rep[v] == v
    ensures y != v && Related(tail, head, rep, v, y) <==> v < y < n && HasFillPath(tail, head, v, y)
  {
    if y != v && Related(tail, head, rep, v, y) {
      NeighborHasPath(tail, head, n, rep, v, y);
    }
    if v < y < n && HasFillPath(tail, head, v, y) {
      var p :| FillPath(tail, head, p, v, y);
      PathInClass(tail, head, n, rep, v, p, y, |p| - 2);
      assert Edge(tail, head, p[|p| - 2], p[|p| - 2 + 1]);
      hide Linked;
    }
  }

  lemma NeighborHasPath(tail: seq<nat>, head: seq<nat>, n: nat, rep: seq<nat>, v: nat, y: nat)
    requires Symmetric(tail, head) && Contracted(tail, head, n, rep, v + 1) && v < n && rep[v] == v
    requires y != v && Related(tail, head, rep, v, y)
    ensures v < y < n && HasFillPath(tail, head, v, y)
  {
    var a: nat, w: nat :| Edge(tail, head, a, w) && a < |rep| && w < |rep| && rep[a] == v && rep[w] == y;
    hide Edge, HasFillPath;
    assert a <= v;
    assert w > v && w == y;
    assert Linked(tail, head, v + 1, a, v);
    FillReachSaturated(tail, head, v);
    assert a in FillReach(tail, head, v);
    PathExtends(tail, head, v, a, y);
  }

  // ---------- The algorithm ----------

  class NodeContractionGraph {
    const g: EdgeContractionGraph
    const isVirtual: array<bool>

    constructor (n: nat, tail: seq<nat>, head: seq<nat>)
      requires InRange(n, tail, head)
      ensures Before(0) && g.n == n && g.tail == tail && g.head == head && fresh(g) && fresh(isVirtual)
      ensures fresh(g.next) && fresh(g.parent) && fresh(g.outBegin) && fresh(g.outEnd) && fresh(g.arcHead)
      ensures fresh(g.inNeighborhood) && fresh(g.neighborhood)
    {
      g := new EdgeContractionGraph(n, tail, head);
      isVirtual := new bool[n](_ => false);
      new;
      NothingContracted(tail, head, n, g.rep);
    }

    /** The nodes before `v` are contracted. */
    ghost predicate Before(v: nat)
      reads this, g, g.next, g.parent, g.outBegin, g.outEnd, g.arcHead, g.inNeighborhood, g.neighborhood, isVirtual
    {
      && g.Valid() && isVirtual.Length == g.n && isVirtual != g.inNeighborhood
      && Contracted(g.tail, g.head, g.n, g.rep, v)
      && (forall a: nat :: a < g.n ==> (isVirtual[a] <==> a < v))
    }

    /** Contracts `v` and returns its later neighbours. */
    method ForallNeighborsThenContractNode(v: nat) returns (neighbors: seq<nat>)
      requires Before(v) && v < g.n && InRange(g.n, g.tail, g.head) && Symmetric(g.tail, g.head)
      modifies g, g.next, g.parent, g.outEnd, g.arcHead, g.inNeighborhood, g.neighborhood, isVirtual
      ensures Before(v + 1)
      ensures NoDup(neighbors) && forall y: nat :: y in neighbors <==> v < y < g.n && HasFillPath(g.tail, g.head, v, y)
    {
      hide *;
      BeforeParts(v);
      ghost var rep0 := g.rep;
      ContractedRoots(g.tail, g.head, g.n, rep0, v);
      RootsIdempotent();
      g.ComputeNeighborhoodOf(v);
      ghost var nb := g.Neighbors();
      NeighborsSize();
      NeighborsDistinct();
      MakeClasses(g.tail, g.head, rep0, v, nb);
      NoneMoved(rep0, v, nb[..0]);
      for i := 0 to g.neighborhoodSize
        invariant g.Valid() && g.Neighbors() == nb && |nb| == g.neighborhoodSize <= g.neighborhood.Length
        invariant MovedTo(rep0, v, Elements(nb[..i]), g.rep)
        invariant forall a: nat :: a < g.n ==> (isVirtual[a] <==> a < v)
      {
        NeighborAt(i);
        var u := g.neighborhood[i];
        assert u == nb[i] && nb[..i + 1] == nb[..i] + [u];
        NextMoved(g.tail, g.head, g.n, rep0, v, nb, i, g.rep);
        if isVirtual[u] {
          g.RewireArcsFromSecondToFirst(v, u);
          NeighborsSize();
        }
      }
      assert nb[..|nb|] == nb;
      ContractStep(g.tail, g.head, g.n, rep0, v, Elements(nb), g.rep);
      ContractedRoots(g.tail, g.head, g.n, g.rep, v + 1);
      MovedRoot(g.tail, g.head, g.n, rep0, v, nb, g.rep);
      isVirtual[v] := true;
      g.ComputeNeighborhoodOf(v);
      NeighborsSize();
      neighbors := g.neighborhood[..g.neighborhoodSize];
      assert neighbors == g.Neighbors();
      NeighborsDistinct();
      forall y: nat
        ensures y in neighbors <==> v < y < g.n && HasFillPath(g.tail, g.head, v, y)
      {
        NeighborsAreFill(g.tail, g.head, g.n, g.rep, v, y);
      }
      MakeBefore(v + 1);
    }

    lemma BeforeParts(v: nat)
      requires Before(v)
      ensures g.Valid() && isVirtual.Length == g.n && isVirtual != g.inNeighborhood && Contracted(g.tail, g.head, g.n, g.rep, v)
      ensures forall a: nat :: a < g.n ==> (isVirtual[a] <==> a < v)
    {
    }

    lemma MakeBefore(v: nat)
      requires g.Valid() && isVirtual.Length == g.n && isVirtual != g.inNeighborhood && Contracted(g.tail, g.head, g.n, g.rep, v)
      requires forall a: nat :: a < g.n ==> (isVirtual[a] <==> a < v)
      ensures Before(v)
    {
    }

    lemma NeighborsSize()
      requires g.Valid()
      ensures g.neighborhoodSize <= g.neighborhood.Length && |g.Neighbors()| == g.neighborhoodSize
      ensures g.Neighbors() == g.neighborhood[..g.neighborhoodSize]
    {
    }

    lemma RootsIdempotent()
      requires g.Valid()
      ensures |g.rep| == g.n && forall a: nat :: a < g.n ==> g.rep[a] < g.n && g.rep[g.rep[a]] == g.rep[a]
    {
      forall a: nat | a < g.n
        ensures g.rep[a] < g.n && g.rep[g.rep[a]] == g.rep[a]
      {
        assert ForestNode(g.parent[..], g.rep, a);
      }
    }

    lemma NeighborAt(i: nat)
      requires g.Valid() && i < g.neighborhoodSize <= g.neighborhood.Length
      ensures i < |g.Neighbors()| && g.neighborhood[i] == g.Neighbors()[i] && g.neighborhood[i] < g.n
    {
    }

    lemma NeighborsDistinct()
      requires g.Valid() && g.neighborhoodSize <= g.neighborhood.Length
      ensures NoDup(g.Neighbors())
    {
    }
  }

  lemma ContractedRoots(tail: seq<nat>, head: seq<nat>, n: nat, rep: seq<nat>, v: nat)
    requires Contracted(tail, head, n, rep, v)
    ensures |rep| == n && v <= n && forall a: nat :: v <= a < n ==> rep[a] == a
  {
    hide Linked;
  }

  lemma MakeClasses(tail: seq<nat>, head: seq<nat>, rep: seq<nat>, v: nat, nb: seq<nat>)
    requires forall y: nat :: y in nb <==> y != v && Related(tail, head, rep, v, y)
    ensures NeighborClasses(tail, head, rep, v, Elements(nb))
  {
    hide Related;
  }

  lemma NoneMoved(rep: seq<nat>, v: nat, none: seq<nat>)
    requires none == []
    ensures MovedTo(rep, v, Elements(none), rep)
  {
  }

  lemma NextMoved(tail: seq<nat>, head: seq<nat>, n: nat, rep0: seq<nat>, v: nat, nb: seq<nat>, i: nat, rep: seq<nat>)
    requires i < |nb| && NoDup(nb) && MovedTo(rep0, v, Elements(nb[..i]), rep)
    requires Contracted(tail, head, n, rep0, v) && v < n && NeighborClasses(tail, head, rep0, v, Elements(nb))
    requires forall a: nat :: a < n ==> rep0[a] < n && rep0[rep0[a]] == rep0[a]
    ensures nb[i] < n && nb[i] != v && rep[nb[i]] == nb[i] && rep[v] == v
    ensures nb[i] < v ==> MovedTo(rep0, v, Elements(nb[..i + 1]), Joined(rep, v, nb[i]))
    ensures nb[i] >= v ==> MovedTo(rep0, v, Elements(nb[..i + 1]), rep)
  {
    var u := nb[i];
    assert u in Elements(nb) && u !in Elements(nb[..i]);
    assert nb[..i + 1] == nb[..i] + [u];
    assert Elements(nb[..i + 1]) == Elements(nb[..i]) + {u};
    assert v !in Elements(nb);
    hide Linked, Edge, Related;
  }

  lemma MovedRoot(tail: seq<nat>, head: seq<nat>, n: nat, rep0: seq<nat>, v: nat, nb: seq<nat>, rep: seq<nat>)
    requires Contracted(tail, head, n, rep0, v) && v < n && MovedTo(rep0, v, Elements(nb), rep)
    ensures rep[v] == v
  {
    hide Linked, Edge;
  }

  lemma NothingContracted(tail: seq<nat>, head: seq<nat>, n: nat, rep: seq<nat>)
    requires |rep| == n && forall a: nat :: a < n ==> rep[a] == a
    ensures Contracted(tail, head, n, rep, 0)
  {
  }

  // ---------- All nodes in order ----------

  /** How many arcs start at `x`. */
  function UpwardDegree(arcs: seq<(nat, nat)>, x: nat): nat {
    if arcs == [] then 0 else UpwardDegree(arcs[..|arcs| - 1], x) + if arcs[|arcs| - 1].0 == x then 1 else 0
  }

  ghost predicate DistinctArcs(arcs: seq<(nat, nat)>) {
    forall i, j :: 0 <= i < j < |arcs| ==> arcs[i] != arcs[j]
  }

  /** The arcs of the nodes before `x` are complete. */
  ghost predicate Reported(n: nat, tail: seq<nat>, head: seq<nat>, arcs: seq<(nat, nat)>, x: nat) {
    DistinctArcs(arcs) && forall a: nat, b: nat :: (a, b) in arcs <==> a < x && a < b < n && HasFillPath(tail, head, a, b)
  }

  /** The arcs of node `x` after its first `i` neighbours. */
  ghost predicate Reporting(arcs0: seq<(nat, nat)>, arcs: seq<(nat, nat)>, x: nat, neighbors: seq<nat>, i: nat)
    requires i <= |neighbors|
  {
    && DistinctArcs(arcs) && |arcs| == |arcs0| + i
    && (forall e: (nat, nat) :: e in arcs <==> e in arcs0 || (e.0 == x && e.1 in neighbors[..i]))
    && UpwardDegree(arcs, x) == i
    && (forall y: nat :: y != x ==> UpwardDegree(arcs, y) == UpwardDegree(arcs0, y))
  }

  lemma ReportNext(arcs0: seq<(nat, nat)>, arcs: seq<(nat, nat)>, x: nat, neighbors: seq<nat>, i: nat)
    requires i < |neighbors| && NoDup(neighbors) && Reporting(arcs0, arcs, x, neighbors, i)
    requires forall e: (nat, nat) :: e in arcs0 ==> e.0 != x
    ensures Reporting(arcs0, arcs + [(x, neighbors[i])], x, neighbors, i + 1)
  {
    var more, y := arcs + [(x, neighbors[i])], neighbors[i];
    assert neighbors[..i + 1] == neighbors[..i] + [y] && y !in neighbors[..i];
    assert more[..|more| - 1] == arcs;
    assert (x, y) !in arcs;
    hide UpwardDegree;
    DegreeSnoc(arcs, x, y);
    forall e: (nat, nat)
      ensures e in more <==> e in arcs0 || (e.0 == x && e.1 in neighbors[..i + 1])
    {
      assert e in more <==> e in arcs || e == (x, y);
    }
  }

  lemma DegreeSnoc(arcs: seq<(nat, nat)>, x: nat, y: nat)
    ensures UpwardDegree(arcs + [(x, y)], x) == UpwardDegree(arcs, x) + 1
    ensures forall z: nat :: z != x ==> UpwardDegree(arcs + [(x, y)], z) == UpwardDegree(arcs, z)
  {
    assert (arcs + [(x, y)])[..|arcs|] == arcs;
  }

  lemma {:induction false} NoDegree(arcs: seq<(nat, nat)>, x: nat)
    requires forall e: (nat, nat) :: e in arcs ==> e.0 != x
    ensures UpwardDegree(arcs, x) == 0
  {
    if arcs != [] {
      var init := arcs[..|arcs| - 1];
      assert arcs == init + [arcs[|arcs| - 1]];
      NoDegree(init, x);
    }
  }

  lemma ReportDone(n: nat, tail: seq<nat>, head: seq<nat>, arcs0: seq<(nat, nat)>, arcs: seq<(nat, nat)>, x: nat, neighbors: seq<nat>)
    requires Reported(n, tail, head, arcs0, x) && Reporting(arcs0, arcs, x, neighbors, |neighbors|) && x < n
    requires forall y: nat :: y in neighbors <==> x < y < n && HasFillPath(tail, head, x, y)
    ensures Reported(n, tail, head, arcs, x + 1)
  {
    assert neighbors[..|neighbors|] == neighbors;
    hide HasFillPath, UpwardDegree;
    forall a: nat, b: nat
      ensures (a, b) in arcs <==> a < x + 1 && a < b < n && HasFillPath(tail, head, a, b)
    {
      assert (a, b) in arcs <==> (a, b) in arcs0 || (a == x && b in neighbors);
    }
  }

  lemma ReportStart(n: nat, tail: seq<nat>, head: seq<nat>, arcs: seq<(nat, nat)>, x: nat, neighbors: seq<nat>)
    requires Reported(n, tail, head, arcs, x)
    ensures (forall e: (nat, nat) :: e in arcs ==> e.0 != x) && Reporting(arcs, arcs, x, neighbors, 0)
  {
    hide HasFillPath, UpwardDegree;
    forall e: (nat, nat) | e in arcs
      ensures e.0 != x
    {
      assert (e.0, e.1) in arcs;
    }
    NoDegree(arcs, x);
  }

  /** The largest number of arcs reported for one node. */
  ghost predicate IsMaxDegree(arcs: seq<(nat, nat)>, d: nat) {
    && (forall x: nat :: UpwardDegree(arcs, x) <= d)
    && (d == 0 || exists x: nat :: UpwardDegree(arcs, x) == d)
  }

  lemma DegreeStep(arcs0: seq<(nat, nat)>, arcs: seq<(nat, nat)>, x: nat, neighbors: seq<nat>, d: nat)
    requires IsMaxDegree(arcs0, d) && Reporting(arcs0, arcs, x, neighbors, |neighbors|) && forall e: (nat, nat) :: e in arcs0 ==> e.0 != x
    ensures IsMaxDegree(arcs, if |neighbors| > d then |neighbors| else d)
  {
    hide UpwardDegree, DistinctArcs;
    NoDegree(arcs0, x);
    if |neighbors| <= d && d != 0 {
      var y: nat :| UpwardDegree(arcs0, y) == d;
      assert UpwardDegree(arcs, y) == d;
    }
  }

  /** For the last node there is nothing left to report. */
  lemma LastNode(n: nat, tail: seq<nat>, head: seq<nat>, arcs: seq<(nat, nat)>)
    requires n > 0 && Reported(n, tail, head, arcs, n - 1)
    ensures Reported(n, tail, head, arcs, n)
  {
    hide HasFillPath;
  }

  /** Arc (x, y) is reported, once, exactly when x < y and a path from x to y has all inner nodes before x. */
  method ComputeChordalSupergraph(n: nat, tail: seq<nat>, head: seq<nat>) returns (arcs: seq<(nat, nat)>, maxUpwardDegree: nat)
    requires InRange(n, tail, head) && Symmetric(tail, head)
    ensures DistinctArcs(arcs)
    ensures forall x: nat, y: nat :: (x, y) in arcs <==> x < y < n && HasFillPath(tail, head, x, y)
    ensures IsMaxDegree(arcs, maxUpwardDegree)
  {
    hide HasFillPath, UpwardDegree, Reporting, NodeContractionGraph.Before, EdgeContractionGraph.Valid, InRange, Symmetric;
    var c := new NodeContractionGraph(n, tail, head);
    arcs, maxUpwardDegree := [], 0;
    NoDegrees();
    var x := 0;
    while x + 1 < n
      invariant x <= n && (x == 0 || x < n) && c.Before(x)
      invariant c.g.n == n && c.g.tail == tail && c.g.head == head
      invariant fresh(c.g) && fresh(c.isVirtual) && fresh(c.g.next) && fresh(c.g.parent) && fresh(c.g.outBegin) && fresh(c.g.outEnd)
      invariant fresh(c.g.arcHead) && fresh(c.g.inNeighborhood) && fresh(c.g.neighborhood)
      invariant Reported(n, tail, head, arcs, x) && IsMaxDegree(arcs, maxUpwardDegree)
      decreases n - x
    {
      var neighbors := c.ForallNeighborsThenContractNode(x);
      ghost var arcs0 := arcs;
      ReportStart(n, tail, head, arcs, x, neighbors);
      var upwardDegree := 0;
      for i := 0 to |neighbors|
        invariant upwardDegree == i && Reporting(arcs0, arcs, x, neighbors, i) && c.Before(x + 1)
      {
        ReportNext(arcs0, arcs, x, neighbors, i);
        arcs := arcs + [(x, neighbors[i])];
        upwardDegree := upwardDegree + 1;
      }
      ReportDone(n, tail, head, arcs0, arcs, x, neighbors);
      DegreeStep(arcs0, arcs, x, neighbors, maxUpwardDegree);
      if upwardDegree > maxUpwardDegree {
        maxUpwardDegree := upwardDegree;
      }
      x := x + 1;
    }
    if n > 0 {
      LastNode(n, tail, head, arcs);
    }
  }

  lemma NoDegrees()
    ensures IsMaxDegree([], 0)
  {
  }

  // ---------- The reported arcs form a chordal graph ----------

  function Reversed(p: seq<nat>): (r: seq<nat>)
    ensures |r| == |p| && forall i :: 0 <= i < |p| ==> r[i] == p[|p| - 1 - i]
  {
    seq(|p|, i requires 0 <= i < |p| => p[|p| - 1 - i])
  }

  /** Two later neighbours of a node are adjacent: the elimination order is perfect. */
  lemma LaterNeighborsAdjacent(tail: seq<nat>, head: seq<nat>, x: nat, y: nat, z: nat)
    requires Symmetric(tail, head) && x < y && x < z
    requires HasFillPath(tail, head, x, y) && HasFillPath(tail, head, x, z)
    ensures HasFillPath(tail, head, y, z)
  {
    hide Edge;
    var p :| FillPath(tail, head, p, x, y);
    var q :| FillPath(tail, head, q, x, z);
    var back := Reversed(p);
    var r := back + q[1..];
    assert forall i :: 0 <= i < |r| ==> r[i] == if i < |p| then p[|p| - 1 - i] else q[i - |p| + 1];
    forall i | 0 <= i < |r| - 1
      ensures Edge(tail, head, r[i], r[i + 1])
    {
      if i < |p| - 1 {
        var j := |p| - 2 - i;
        assert r[i] == p[j + 1] && r[i + 1] == p[j] && Edge(tail, head, p[j], p[j + 1]);
      } else {
        var j := i - |p| + 1;
        assert r[i] == q[j] && r[i + 1] == q[j + 1] && Edge(tail, head, q[j], q[j + 1]);
      }
    }
    assert FillPath(tail, head, r, y, z);
  }

  /** Every edge of the graph is among the reported arcs. */
  lemma EdgesAreFill(tail: seq<nat>, head: seq<nat>, x: nat, y: nat)
    requires Edge(tail, head, x, y)
    ensures HasFillPath(tail, head, x, y)
  {
    hide Edge;
    var p := [x, y];
    assert FillPath(tail, head, p, x, y);
  }
}
