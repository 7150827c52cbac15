/** Elimination order of a tree: leaves first, without fill. */
module TreeOrder {
  import opened FiniteSets
  import opened SimpleGraph

  /** An arc leads from `t` to another node of `r`. */
  ghost predicate Leaves(tail: seq<nat>, head: seq<nat>, r: set<nat>, t: set<nat>)
    requires |tail| == |head|
  {
    exists a: nat :: a < |tail| && tail[a] in t && head[a] in r && head[a] !in t
  }

  /** No way to split `r` without cutting an arc. */
  ghost predicate Connected(tail: seq<nat>, head: seq<nat>, r: set<nat>)
    requires |tail| == |head|
  {
    forall t: set<nat> :: t <= r && t != {} && t != r ==> Leaves(tail, head, r, t)
  }

  /** The arcs from `y` into `r`. */
  ghost function Out(tail: seq<nat>, head: seq<nat>, y: nat, r: set<nat>): set<nat>
    requires |tail| == |head|
  {
    set a: nat | a < |tail| && tail[a] == y && head[a] in r
  }

  ghost function Between(tail: seq<nat>, head: seq<nat>, q: set<nat>, r: set<nat>): set<nat>
    requires |tail| == |head|
  {
    set a: nat | a < |tail| && tail[a] in q && head[a] in r
  }

  /** A connected graph with one edge less than nodes. */
  ghost predicate Tree(tail: seq<nat>, head: seq<nat>, n: nat) {
    SimpleArcs(tail, head, n) && Connected(tail, head, Range(n)) && n >= 1 && |tail| == 2 * (n - 1)
  }

  /** What is left of a tree after leaves have been taken off is a tree. */
  ghost predicate SubTree(tail: seq<nat>, head: seq<nat>, n: nat, r: set<nat>) {
    SimpleArcs(tail, head, n) && Connected(tail, head, r) && (forall v: nat :: v in r ==> v < n) &&
    (r != {} ==> |Between(tail, head, r, r)| == 2 * (|r| - 1))
  }

  lemma {:induction false} AllArcs(tail: seq<nat>, head: seq<nat>, n: nat)
    requires SimpleArcs(tail, head, n)
    ensures |Between(tail, head, Range(n), Range(n))| == |tail|
  {
    assert Between(tail, head, Range(n), Range(n)) == Range(|tail|);
  }

  lemma WholeTree(tail: seq<nat>, head: seq<nat>, n: nat)
    requires Tree(tail, head, n)
    ensures SubTree(tail, head, n, Range(n))
  {
    AllArcs(tail, head, n);
  }

  /** In a connected remainder every node but a lone one has a neighbour. */
  lemma HasNeighbor(tail: seq<nat>, head: seq<nat>, r: set<nat>, x: nat)
    requires |tail| == |head| && Connected(tail, head, r) && x in r && |r| >= 2
    ensures Out(tail, head, x, r) != {}
  {
    var t := {x};
    assert t != r by { assert |t| == 1; }
    assert Leaves(tail, head, r, t);
    var a: nat :| a < |tail| && tail[a] in t && head[a] in r && head[a] !in t;
    assert a in Out(tail, head, x, r);
  }

  lemma {:induction false} TwoEach(tail: seq<nat>, head: seq<nat>, q: set<nat>, r: set<nat>)
    requires |tail| == |head| && forall y: nat :: y in q ==> |Out(tail, head, y, r)| >= 2
    ensures |Between(tail, head, q, r)| >= 2 * |q|
  {
    if q != {} {
      var y: nat :| y in q;
      TwoEach(tail, head, q - {y}, r);
      assert Between(tail, head, q, r) == Between(tail, head, q - {y}, r) + Out(tail, head, y, r);
      assert Between(tail, head, q - {y}, r) !! Out(tail, head, y, r);
    }
  }

  /** A tree has a node with at most one neighbour. */
  lemma LeafExists(tail: seq<nat>, head: seq<nat>, n: nat, r: set<nat>)
    requires SubTree(tail, head, n, r) && r != {}
    ensures exists y: nat :: y in r && |Out(tail, head, y, r)| <= 1
  {
    if forall y: nat :: y in r ==> |Out(tail, head, y, r)| >= 2 {
      TwoEach(tail, head, r, r);
      assert false;
    }
  }

  lemma OneArc(s: set<nat>, a: nat, b: nat)
    requires |s| <= 1 && a in s && b in s
    ensures a == b && s == {a}
  {
    if a != b {
      assert |{a, b}| == 2;
      SubsetSize({a, b}, s);
    }
    if s != {a} {
      var c: nat :| c in s && c != a;
      assert |{a, c}| == 2;
      SubsetSize({a, c}, s);
    }
  }

  /** Taking off a node with at most one remaining neighbour keeps the remainder connected. */
  lemma LeafConnected(tail: seq<nat>, head: seq<nat>, n: nat, r: set<nat>, x: nat)
    requires SimpleArcs(tail, head, n) && Connected(tail, head, r) && x in r && |Out(tail, head, x, r)| <= 1
    ensures Connected(tail, head, r - {x})
  {
    forall t: set<nat> | t <= r - {x} && t != {} && t != r - {x} ensures Leaves(tail, head, r - {x}, t) {
      if b: nat :| b in Out(tail, head, x, r) && head[b] in t {
        LeavesBeside(tail, head, r, x, t, b);
      } else {
        LeavesApart(tail, head, n, r, x, t);
      }
    }
  }

  lemma LeavesBeside(tail: seq<nat>, head: seq<nat>, r: set<nat>, x: nat, t: set<nat>, b: nat)
    requires |tail| == |head| && Connected(tail, head, r) && x in r && |Out(tail, head, x, r)| <= 1
    requires t <= r - {x} && t != r - {x} && b in Out(tail, head, x, r) && head[b] in t
    ensures Leaves(tail, head, r - {x}, t)
  {
    var bigger := t + {x};
    var y: nat :| y in r - {x} && y !in t;
    assert bigger <= r && bigger != r;
    assert Leaves(tail, head, r, bigger);
    var a: nat :| a < |tail| && tail[a] in bigger && head[a] in r && head[a] !in bigger;
    LoneArc(tail, head, r, x, a, b);
  }

  lemma LoneArc(tail: seq<nat>, head: seq<nat>, r: set<nat>, x: nat, a: nat, b: nat)
    requires |tail| == |head| && |Out(tail, head, x, r)| <= 1 && b in Out(tail, head, x, r) && a < |tail| && head[a] in r
    ensures tail[a] == x ==> a == b
  {
    if tail[a] == x {
      OneArc(Out(tail, head, x, r), a, b);
    }
  }

  lemma LeavesApart(tail: seq<nat>, head: seq<nat>, n: nat, r: set<nat>, x: nat, t: set<nat>)
    requires SimpleArcs(tail, head, n) && Connected(tail, head, r) && x in r
    requires t <= r - {x} && t != {} && forall b: nat :: b in Out(tail, head, x, r) ==> head[b] !in t
    ensures Leaves(tail, head, r - {x}, t)
  {
    assert t <= r && t != r;
    assert Leaves(tail, head, r, t);
    var a: nat :| a < |tail| && tail[a] in t && head[a] in r && head[a] !in t;
    assert HasArc(tail, head, head[a], tail[a]);
    var c: nat :| c < |tail| && tail[c] == head[a] && head[c] == tail[a];
    assert c in Out(tail, head, x, r) <==> head[a] == x;
  }

  /** The arcs into `x` are as many as those out of it. */
  lemma InIsOut(tail: seq<nat>, head: seq<nat>, n: nat, r: set<nat>, x: nat)
    requires SimpleArcs(tail, head, n) && x in r
    ensures |Between(tail, head, r, {x})| == |Out(tail, head, x, r)|
  {
    var ins, outs := Between(tail, head, r, {x}), Out(tail, head, x, r);
    var f := (a: nat) => if a < |tail| && HasArc(tail, head, head[a], tail[a]) then Back(tail, head, a) else 0;
    forall a: nat | a in ins ensures f(a) in outs {
      assert HasArc(tail, head, head[a], tail[a]);
    }
    forall a: nat, b: nat | a in ins && b in ins && f(a) == f(b) ensures a == b {
      assert HasArc(tail, head, head[a], tail[a]) && HasArc(tail, head, head[b], tail[b]);
    }
    forall b: nat | b in outs ensures Reaches(ins, f, b) {
      assert HasArc(tail, head, head[b], tail[b]);
      var a := Back(tail, head, b);
      assert a in ins;
      assert HasArc(tail, head, head[a], tail[a]);
      assert f(a) == b;
    }
    SameSize(ins, outs, f);
  }

  ghost function Back(tail: seq<nat>, head: seq<nat>, a: nat): (b: nat)
    requires |tail| == |head| && a < |tail| && HasArc(tail, head, head[a], tail[a])
    ensures b < |tail| && tail[b] == head[a] && head[b] == tail[a]
  {
    var b: nat :| b < |tail| && tail[b] == head[a] && head[b] == tail[a];
    b
  }

  lemma LeafArcs(tail: seq<nat>, head: seq<nat>, n: nat, r: set<nat>, x: nat)
    requires SimpleArcs(tail, head, n) && x in r
    ensures |Between(tail, head, r, r)| == |Between(tail, head, r - {x}, r - {x})| + 2 * |Out(tail, head, x, r)|
  {
    InIsOut(tail, head, n, r, x);
    var inner, ins, outs := Between(tail, head, r - {x}, r - {x}), Between(tail, head, r, {x}), Out(tail, head, x, r);
    ThreeParts(tail, head, n, r, x, inner, ins, outs);
    hide *;
    assert |ins + outs| == |ins| + |outs|;
    assert |inner + (ins + outs)| == |inner| + |ins + outs|;
  }

  lemma ThreeParts(tail: seq<nat>, head: seq<nat>, n: nat, r: set<nat>, x: nat, inner: set<nat>, ins: set<nat>, outs: set<nat>)
    requires SimpleArcs(tail, head, n) && x in r
    requires inner == Between(tail, head, r - {x}, r - {x}) && ins == Between(tail, head, r, {x}) && outs == Out(tail, head, x, r)
    ensures Between(tail, head, r, r) == inner + (ins + outs) && ins !! outs && inner !! ins + outs
  {
    hide HasArc;
    forall a: nat ensures a in Between(tail, head, r, r) <==> a in inner || a in ins || a in outs {
    }
  }

  lemma NoLoops(tail: seq<nat>, head: seq<nat>, n: nat, x: nat)
    requires SimpleArcs(tail, head, n)
    ensures Between(tail, head, {x}, {x}) == {}
  {
  }

  /** Taking a leaf off a tree leaves a tree, and the leaf had exactly one neighbour unless it was alone. */
  lemma TakeLeaf(tail: seq<nat>, head: seq<nat>, n: nat, r: set<nat>, x: nat)
    requires SubTree(tail, head, n, r) && x in r && |Out(tail, head, x, r)| <= 1
    ensures SubTree(tail, head, n, r - {x})
    ensures |Out(tail, head, x, r)| == if r == {x} then 0 else 1
  {
    LeafConnected(tail, head, n, r, x);
    LeafArcs(tail, head, n, r, x);
    if r == {x} {
      NoLoops(tail, head, n, x);
    } else {
      assert |r - {x}| == |r| - 1 >= 1;
      HasNeighbor(tail, head, r, x);
    }
  }

  // ---- the algorithm ----

  ghost predicate DegreesAre(tail: seq<nat>, head: seq<nat>, deg: seq<nat>, r: set<nat>)
    requires |tail| == |head|
  {
    forall y: nat :: y < |deg| ==> deg[y] == |Out(tail, head, y, r)|
  }

  /** The stack holds exactly the remaining nodes with at most one remaining neighbour; placed nodes have no more than that. */
  ghost predicate StackOk(deg: seq<nat>, r: set<nat>, stack: seq<nat>) {
    NoDup(stack) && (forall y: nat :: y in stack ==> y in r) &&
    (forall y: nat :: y < |deg| && y in r ==> (y in stack <==> deg[y] <= 1)) &&
    (forall y: nat :: y < |deg| && y !in r ==> deg[y] <= 1)
  }

  /** Arcs leaving `x`, by increasing number. */
  function OutArcs(tail: seq<nat>, x: nat, k: nat): seq<nat>
    requires k <= |tail|
  {
    if k == 0 then [] else OutArcs(tail, x, k - 1) + (if tail[k - 1] == x then [k - 1] else [])
  }

  lemma {:induction false} OutArcsHold(tail: seq<nat>, x: nat, k: nat)
    requires k <= |tail|
    ensures forall a: nat :: a in OutArcs(tail, x, k) <==> a < k && tail[a] == x
    ensures NoDup(OutArcs(tail, x, k))
  {
    if k > 0 {
      OutArcsHold(tail, x, k - 1);
    }
  }

  /** The neighbours reached by the first `i` arcs. */
  predicate Reached(head: seq<nat>, arcs: seq<nat>, i: nat, y: nat) {
    exists j: nat :: j < i && j < |arcs| && arcs[j] < |head| && head[arcs[j]] == y
  }

  lemma ReachedNext(head: seq<nat>, arcs: seq<nat>, i: nat, y: nat)
    requires i < |arcs| && arcs[i] < |head|
    ensures Reached(head, arcs, i + 1, y) <==> Reached(head, arcs, i, y) || head[arcs[i]] == y
  {
    if head[arcs[i]] == y {
      assert i < i + 1;
    }
  }

  /** What the counters hold once `i` of the arcs out of `x` are processed. */
  ghost predicate Partly(tail: seq<nat>, head: seq<nat>, deg: seq<nat>, r: set<nat>, arcs: seq<nat>, i: nat)
    requires |tail| == |head|
  {
    forall y: nat :: y < |deg| ==> deg[y] == |Out(tail, head, y, r)| - (if Reached(head, arcs, i, y) then 1 else 0)
  }

  lemma OutSplit(tail: seq<nat>, head: seq<nat>, n: nat, r: set<nat>, x: nat, y: nat, b: nat)
    requires SimpleArcs(tail, head, n) && x in r && b < |tail| && tail[b] == y && head[b] == x
    ensures Out(tail, head, y, r) == Out(tail, head, y, r - {x}) + {b} && b !in Out(tail, head, y, r - {x})
  {
    hide HasArc;
  }

  lemma OutWithout(tail: seq<nat>, head: seq<nat>, n: nat, r: set<nat>, x: nat, y: nat)
    requires SimpleArcs(tail, head, n) && x in r
    ensures |Out(tail, head, y, r)| == |Out(tail, head, y, r - {x})| + (if HasArc(tail, head, x, y) then 1 else 0)
  {
    hide HasArc;
    if HasArc(tail, head, x, y) {
      var b := Reversing(tail, head, n, x, y);
      OutSplit(tail, head, n, r, x, y, b);
    } else {
      forall b: nat | b < |tail| && tail[b] == y ensures head[b] != x {
        assert HasArc(tail, head, head[b], tail[b]);
      }
      assert Out(tail, head, y, r) == Out(tail, head, y, r - {x});
    }
  }

  lemma Reversing(tail: seq<nat>, head: seq<nat>, n: nat, x: nat, y: nat) returns (b: nat)
    requires SimpleArcs(tail, head, n) && HasArc(tail, head, x, y)
    ensures b < |tail| && tail[b] == y && head[b] == x
  {
    var a: nat :| a < |tail| && tail[a] == x && head[a] == y;
    assert HasArc(tail, head, head[a], tail[a]);
    b :| b < |tail| && tail[b] == y && head[b] == x;
  }

  lemma AllReached(tail: seq<nat>, head: seq<nat>, x: nat, y: nat)
    requires |tail| == |head|
    ensures var arcs := OutArcs(tail, x, |tail|); Reached(head, arcs, |arcs|, y) <==> HasArc(tail, head, x, y)
  {
    var arcs := OutArcs(tail, x, |tail|);
    OutArcsHold(tail, x, |tail|);
    if HasArc(tail, head, x, y) {
      var a: nat :| a < |tail| && tail[a] == x && head[a] == y;
      assert a in arcs;
      var j: nat :| j < |arcs| && arcs[j] == a;
    }
    if Reached(head, arcs, |arcs|, y) {
      var j: nat :| j < |arcs| && arcs[j] < |head| && head[arcs[j]] == y;
      assert arcs[j] in arcs;
    }
  }

  lemma PartlyStart(tail: seq<nat>, head: seq<nat>, deg: seq<nat>, r: set<nat>, arcs: seq<nat>)
    requires |tail| == |head| && DegreesAre(tail, head, deg, r)
    ensures Partly(tail, head, deg, r, arcs, 0)
  {
  }

  lemma PartlyNext(tail: seq<nat>, head: seq<nat>, n: nat, deg: seq<nat>, r: set<nat>, x: nat, i: nat)
    requires SimpleArcs(tail, head, n) && |deg| == n && x in r
    requires i < |OutArcs(tail, x, |tail|)| && Partly(tail, head, deg, r, OutArcs(tail, x, |tail|), i)
    ensures var arcs := OutArcs(tail, x, |tail|);
      arcs[i] < |tail| && tail[arcs[i]] == x && head[arcs[i]] < n && head[arcs[i]] != x && deg[head[arcs[i]]] >= 1 &&
      Partly(tail, head, deg[head[arcs[i]] := deg[head[arcs[i]]] - 1], r, arcs, i + 1)
  {
    hide HasArc, Out;
    var arcs := OutArcs(tail, x, |tail|);
    OutArcsHold(tail, x, |tail|);
    assert arcs[i] in arcs;
    var y := head[arcs[i]];
    forall j: nat | j < i ensures arcs[j] < |head| && head[arcs[j]] != y {
      assert arcs[j] in arcs;
    }
    ArcThere(tail, head, arcs[i]);
    OutWithout(tail, head, n, r, x, y);
    forall z: nat | z < n
      ensures deg[y := deg[y] - 1][z] == |Out(tail, head, z, r)| - (if Reached(head, arcs, i + 1, z) then 1 else 0)
    {
      ReachedNext(head, arcs, i, z);
    }
  }

  lemma ArcThere(tail: seq<nat>, head: seq<nat>, a: nat)
    requires a < |tail| == |head|
    ensures HasArc(tail, head, tail[a], head[a])
  {
  }

  lemma PartlyEnd(tail: seq<nat>, head: seq<nat>, n: nat, deg: seq<nat>, r: set<nat>, x: nat)
    requires SimpleArcs(tail, head, n) && |deg| == n && x in r
    requires Partly(tail, head, deg, r, OutArcs(tail, x, |tail|), |OutArcs(tail, x, |tail|)|)
    ensures DegreesAre(tail, head, deg, r - {x})
  {
    forall y: nat | y < n ensures deg[y] == |Out(tail, head, y, r - {x})| {
      AllReached(tail, head, x, y);
      OutWithout(tail, head, n, r, x, y);
    }
  }

  lemma StackStep(deg: seq<nat>, r: set<nat>, stack: seq<nat>, y: nat)
    requires StackOk(deg, r, stack) && y < |deg| && deg[y] >= 1
    ensures deg[y] - 1 == 1 ==> StackOk(deg[y := deg[y] - 1], r, stack + [y])
    ensures deg[y] - 1 != 1 ==> StackOk(deg[y := deg[y] - 1], r, stack)
  {
  }

  lemma StackPop(deg: seq<nat>, r: set<nat>, stack: seq<nat>, n: nat)
    requires StackOk(deg, r, stack) && stack != [] && |deg| == n && forall v: nat :: v in r ==> v < n
    ensures var x := stack[|stack| - 1]; x in r && x < n && deg[x] <= 1 && StackOk(deg, r - {x}, stack[..|stack| - 1])
  {
    var x := stack[|stack| - 1];
    assert x in stack;
    var rest := stack[..|stack| - 1];
    assert stack == rest + [x];
  }

  lemma StackFits(deg: seq<nat>, r: set<nat>, stack: seq<nat>, n: nat)
    requires StackOk(deg, r, stack) && forall v: nat :: v in r ==> v < n
    ensures |stack| <= n
  {
    ElementsSize(stack);
    SubsetSize(Elements(stack), Range(n));
  }

  /** The nodes not placed by the first `k` positions. */
  ghost function Rest(n: nat, order: seq<nat>, k: nat): set<nat>
    requires k <= |order|
  {
    Range(n) - Elements(order[..k])
  }

  /** Node `k` has one neighbour later in the order, the last node none. */
  ghost predicate OneLater(tail: seq<nat>, head: seq<nat>, n: nat, order: seq<nat>, k: nat)
    requires |tail| == |head| && k < |order|
  {
    |Out(tail, head, order[k], Rest(n, order, k + 1))| == if k == n - 1 then 0 else 1
  }

  /** Places `x` and lowers the degrees of its neighbours, pushing those that become leaves. */
  method Lower(tail: seq<nat>, head: seq<nat>, n: nat, deg: array<nat>, stack: array<nat>, end0: nat, x: nat, ghost r: set<nat>)
    returns (end: nat)
    requires |tail| == |head| && SimpleArcs(tail, head, n) && deg.Length == n == stack.Length && deg != stack && x in r && x < n && end0 <= n
    requires forall v: nat :: v in r ==> v < n
    requires DegreesAre(tail, head, deg[..], r) && StackOk(deg[..], r - {x}, stack[..end0])
    modifies deg, stack
    ensures end <= n && DegreesAre(tail, head, deg[..], r - {x}) && StackOk(deg[..], r - {x}, stack[..end])
  {
    hide SimpleArcs, DegreesAre, StackOk, Partly, OutArcs;
    var arcs := OutArcs(tail, x, |tail|);
    end := end0;
    PartlyStart(tail, head, deg[..], r, arcs);
    for i := 0 to |arcs|
      invariant end <= n && Partly(tail, head, deg[..], r, arcs, i) && StackOk(deg[..], r - {x}, stack[..end])
    {
      ghost var before, kept := deg[..], stack[..end];
      PartlyNext(tail, head, n, before, r, x, i);
      var y := head[arcs[i]];
      StackStep(before, r - {x}, kept, y);
      deg[y] := deg[y] - 1;
      assert deg[..] == before[y := before[y] - 1];
      if deg[y] == 1 {
        StackFits(deg[..], r - {x}, kept + [y], n);
        stack[end] := y;
        end := end + 1;
        assert stack[..end] == kept + [y];
        assert deg[..] == before[y := before[y] - 1];
      } else {
        assert stack[..end] == kept;
      }
    }
    PartlyEnd(tail, head, n, deg[..], r, x);
  }

  /** Every node once, each but the last with exactly one neighbour after it. */
  ghost predicate LeafOrder(tail: seq<nat>, head: seq<nat>, n: nat, placed: seq<nat>) {
    |tail| == |head| && |placed| == n && NoDup(placed) && (forall v: nat :: v in placed <==> v < n) &&
    forall k: nat :: k < n ==> OneLater(tail, head, n, placed, k)
  }

  /** `order` is a leaf order with the nodes renamed. */
  ghost predicate RenamedLeafOrder(tail: seq<nat>, head: seq<nat>, n: nat, inputNodeId: seq<nat>, order: seq<nat>, placed: seq<nat>) {
    LeafOrder(tail, head, n, placed) && |order| == n &&
    forall k: nat :: k < n ==> placed[k] < |inputNodeId| && order[k] == inputNodeId[placed[k]]
  }

  method ComputeTreeGraphOrder(tail: seq<nat>, head: seq<nat>, n: nat, inputNodeId: seq<nat>) returns (order: array<nat>)
    requires Tree(tail, head, n) && n >= 2 && |inputNodeId| == n
    ensures exists placed: seq<nat> :: RenamedLeafOrder(tail, head, n, inputNodeId, order[..], placed)
  {
    hide Tree, NoDup, OneLater;
    order := PlaceLeaves(tail, head, n);
    ghost var placed := order[..];
    forall k: nat | k < n ensures placed[k] < n {
      assert placed[k] in placed;
    }
    Rename(order, inputNodeId);
    assert RenamedLeafOrder(tail, head, n, inputNodeId, order[..], placed);
  }

  /** Takes leaves off a stack and places them; a node whose degree drops to one is pushed. */
  method PlaceLeaves(tail: seq<nat>, head: seq<nat>, n: nat) returns (order: array<nat>)
    requires Tree(tail, head, n) && n >= 2
    ensures fresh(order) && LeafOrder(tail, head, n, order[..])
  {
    hide Placing, Tree, NoDup, OneLater, SimpleArcs, SubTree, PlacedSo, DegreesAre, StackOk, Elements, LeafOrder;
    TreeParts(tail, head, n);
    var deg := CountDegrees(tail, head, n);
    order := new nat[n](_ => 0);
    var stack := new nat[n](_ => 0);
    var orderEnd, stackEnd := 0, 0;
    stackEnd := FindLeaves(tail, head, n, deg, stack);
    ghost var r := Range(n);
    ghost var placed: seq<nat> := [];
    StartPlacing(tail, head, n, deg[..], stack[..stackEnd]);
    while stackEnd != 0
      invariant deg.Length == n && stack.Length == n && order.Length == n && stackEnd <= n
      invariant Placing(tail, head, n, deg[..], stack[..stackEnd], placed, r)
      invariant orderEnd == |placed| <= n && order[..orderEnd] == placed
      decreases |r|
    {
      ghost var before := stack[..stackEnd];
      LeafPlaced(tail, head, n, deg[..], before, placed, r);
      stackEnd := stackEnd - 1;
      var x := stack[stackEnd];
      assert stack[..stackEnd] == before[..stackEnd];
      ghost var longer := placed + [x];
      order[orderEnd] := x;
      orderEnd := orderEnd + 1;
      stackEnd := Lower(tail, head, n, deg, stack, stackEnd, x, r);
      placed := longer;
      r := r - {x};
      MakePlacing(tail, head, n, deg[..], stack[..stackEnd], placed, r);
      assert order[..orderEnd] == longer;
    }
    assert stack[..0] == [];
    NothingLeft(tail, head, n, deg[..], placed, r);
    assert order[..] == placed;
  }

  /** Replaces the node numbers by those of the enclosing graph. */
  method Rename(order: array<nat>, inputNodeId: seq<nat>)
    requires |inputNodeId| == order.Length && forall k: nat :: k < order.Length ==> order[k] < |inputNodeId|
    modifies order
    ensures forall k: nat :: k < order.Length ==> old(order[k]) < |inputNodeId| && order[k] == inputNodeId[old(order[k])]
  {
    for i := 0 to order.Length
      invariant forall k: nat :: k < order.Length ==> order[k] == if k < i then inputNodeId[old(order[k])] else old(order[k])
    {
      order[i] := inputNodeId[order[i]];
    }
  }

  /** The state between two placements. */
  ghost predicate Placing(tail: seq<nat>, head: seq<nat>, n: nat, deg: seq<nat>, stack: seq<nat>, placed: seq<nat>, r: set<nat>) {
    |deg| == n && SubTree(tail, head, n, r) && DegreesAre(tail, head, deg, r) && StackOk(deg, r, stack) &&
    PlacedSo(tail, head, n, placed, r)
  }

  /** What is known of the order so far, `r` being the nodes still to place. */
  ghost predicate PlacedSo(tail: seq<nat>, head: seq<nat>, n: nat, placed: seq<nat>, r: set<nat>) {
    |tail| == |head| && |placed| + |r| == n && NoDup(placed) && r == Range(n) - Elements(placed) &&
    (forall v: nat :: v in placed ==> v < n) &&
    forall k: nat :: k < |placed| ==> OneLater(tail, head, n, placed, k)
  }

  lemma TreeParts(tail: seq<nat>, head: seq<nat>, n: nat)
    requires Tree(tail, head, n)
    ensures |tail| == |head| && SimpleArcs(tail, head, n) && SubTree(tail, head, n, Range(n))
  {
    WholeTree(tail, head, n);
  }

  lemma StartPlacing(tail: seq<nat>, head: seq<nat>, n: nat, deg: seq<nat>, stack: seq<nat>)
    requires |deg| == n && SubTree(tail, head, n, Range(n)) && DegreesAre(tail, head, deg, Range(n)) && StackOk(deg, Range(n), stack)
    ensures Placing(tail, head, n, deg, stack, [], Range(n))
  {
    assert Elements<nat>([]) == {};
  }

  lemma MakePlacing(tail: seq<nat>, head: seq<nat>, n: nat, deg: seq<nat>, stack: seq<nat>, placed: seq<nat>, r: set<nat>)
    requires |deg| == n && SubTree(tail, head, n, r) && DegreesAre(tail, head, deg, r) && StackOk(deg, r, stack)
    requires PlacedSo(tail, head, n, placed, r)
    ensures Placing(tail, head, n, deg, stack, placed, r)
  {
  }

  /** The top of the stack is a leaf of what remains. */
  lemma LeafPlaced(tail: seq<nat>, head: seq<nat>, n: nat, deg: seq<nat>, stack: seq<nat>, placed: seq<nat>, r: set<nat>)
    requires Placing(tail, head, n, deg, stack, placed, r) && stack != []
    ensures var x := stack[|stack| - 1];
      x in r && x < n && SubTree(tail, head, n, r - {x}) && PlacedSo(tail, head, n, placed + [x], r - {x}) &&
      DegreesAre(tail, head, deg, r) && StackOk(deg, r - {x}, stack[..|stack| - 1])
    ensures |placed| < n && (forall v: nat :: v in r ==> v < n) && |r - {stack[|stack| - 1]}| < |r|
  {
    hide Connected, Out, Between, SimpleArcs, NoDup, OneLater, Elements, PlacedSo;
    var x := stack[|stack| - 1];
    StackPop(deg, r, stack, n);
    TakeLeaf(tail, head, n, r, x);
    PlaceNext(tail, head, n, placed, r, x);
    LastOne(r, x);
  }

  /** Placing a leaf keeps what is known of the order so far. */
  lemma PlaceNext(tail: seq<nat>, head: seq<nat>, n: nat, placed: seq<nat>, r: set<nat>, x: nat)
    requires SimpleArcs(tail, head, n) && x in r && x < n && PlacedSo(tail, head, n, placed, r)
    requires |Out(tail, head, x, r)| == if r == {x} then 0 else 1
    ensures |placed| < n && PlacedSo(tail, head, n, placed + [x], r - {x})
  {
    hide SimpleArcs, Out, Range, OneLater, HasArc, Elements, NoDup;
    var longer := placed + [x];
    ElementsNext(placed, x);
    LastOne(r, x);
    assert r - {x} == Range(n) - Elements(longer);
    forall k: nat | k < |longer| ensures OneLater(tail, head, n, longer, k) {
      if k < |placed| {
        LaterKept(tail, head, n, placed, x, k);
      } else {
        LaterNew(tail, head, n, placed, r, x);
      }
    }
  }

  lemma ElementsNext(s: seq<nat>, x: nat)
    ensures Elements(s + [x]) == Elements(s) + {x}
    ensures NoDup(s) && x !in Elements(s) ==> NoDup(s + [x])
    ensures forall y: nat :: y in Elements(s) <==> y in s
  {
  }

  lemma LaterKept(tail: seq<nat>, head: seq<nat>, n: nat, placed: seq<nat>, x: nat, k: nat)
    requires |tail| == |head| && k < |placed| && OneLater(tail, head, n, placed, k)
    ensures OneLater(tail, head, n, placed + [x], k)
  {
    assert (placed + [x])[..k + 1] == placed[..k + 1];
  }

  lemma LaterNew(tail: seq<nat>, head: seq<nat>, n: nat, placed: seq<nat>, r: set<nat>, x: nat)
    requires SimpleArcs(tail, head, n) && x in r && r - {x} == Range(n) - Elements(placed + [x]) && |placed| + |r| == n
    requires |Out(tail, head, x, r)| == if r == {x} then 0 else 1
    ensures OneLater(tail, head, n, placed + [x], |placed|)
  {
    var longer := placed + [x];
    assert longer[..|placed| + 1] == longer;
    LastOne(r, x);
    assert Out(tail, head, x, r - {x}) == Out(tail, head, x, r);
  }

  lemma LastOne(r: set<nat>, x: nat)
    requires x in r
    ensures r == {x} <==> |r| == 1
  {
    assert r == (r - {x}) + {x};
    assert |r| == |r - {x}| + 1;
  }

  lemma NothingLeft(tail: seq<nat>, head: seq<nat>, n: nat, deg: seq<nat>, placed: seq<nat>, r: set<nat>)
    requires Placing(tail, head, n, deg, [], placed, r)
    ensures |placed| == n && LeafOrder(tail, head, n, placed)
  {
    hide OneLater, NoDup, Out, Connected, Between, SimpleArcs;
    if r != {} {
      LeafExists(tail, head, n, r);
    }
    assert r == {};
    forall k: nat | k < n ensures placed[k] < n && OneLater(tail, head, n, placed, k) {
      assert placed[k] in placed;
    }
    forall v: nat ensures v in placed <==> v < n {
      assert v in Range(n) <==> v < n;
    }
  }

  method CountDegrees(tail: seq<nat>, head: seq<nat>, n: nat) returns (deg: array<nat>)
    requires SimpleArcs(tail, head, n)
    ensures fresh(deg) && deg.Length == n && DegreesAre(tail, head, deg[..], Range(n))
  {
    hide HasArc;
    deg := new nat[n](_ => 0);
    for a := 0 to |tail|
      invariant forall y: nat :: y < n ==> deg[y] == |OutArcs(tail, y, a)|
    {
      deg[tail[a]] := deg[tail[a]] + 1;
    }
    forall y: nat | y < n ensures deg[y] == |Out(tail, head, y, Range(n))| {
      OutArcsHold(tail, y, |tail|);
      ElementsSize(OutArcs(tail, y, |tail|));
      assert Elements(OutArcs(tail, y, |tail|)) == Out(tail, head, y, Range(n));
    }
  }

  /** The initial leaves. */
  method FindLeaves(tail: seq<nat>, head: seq<nat>, n: nat, deg: array<nat>, stack: array<nat>) returns (end: nat)
    requires |tail| == |head| && SubTree(tail, head, n, Range(n)) && n >= 2 && deg.Length == n == stack.Length && deg != stack
    requires DegreesAre(tail, head, deg[..], Range(n))
    modifies stack
    ensures end <= n && StackOk(deg[..], Range(n), stack[..end])
  {
    hide SubTree, DegreesAre, Out;
    TreeDegrees(tail, head, n, deg[..]);
    end := 0;
    for x := 0 to n
      invariant end <= x && NoDup(stack[..end])
      invariant forall y: nat :: y in stack[..end] <==> y < x && deg[y] == 1
    {
      if deg[x] == 1 {
        ghost var kept := stack[..end];
        stack[end] := x;
        end := end + 1;
        assert stack[..end] == kept + [x];
      }
    }
  }

  /** In a tree of two or more nodes every node has a neighbour. */
  lemma TreeDegrees(tail: seq<nat>, head: seq<nat>, n: nat, deg: seq<nat>)
    requires SubTree(tail, head, n, Range(n)) && n >= 2 && |deg| == n && DegreesAre(tail, head, deg, Range(n))
    ensures forall y: nat :: y < n ==> deg[y] >= 1
  {
    hide HasArc, Connected, Between;
    forall y: nat | y < n ensures deg[y] >= 1 {
      HasNeighbor(tail, head, Range(n), y);
    }
  }
}
