/** Graph search over residual arcs: depth first with a stack, or breadth first with a queue. */
module FlowSearch {
  import opened FiniteSets
  import opened Wrappers
  import opened FlowNetwork

  /** An arc that can still take flow in direction `d` (1 from the source, -1 from the target). */
  predicate Residual(f: seq<int>, d: int, a: nat) {
    a < |f| && 0 <= f[a] + d <= 2
  }

  /** Every residual arc that leaves a node of `s` ends in `t`. */
  ghost predicate ClosedIn(g: Graph, f: seq<int>, d: int, s: set<nat>, t: set<nat>)
    requires g.Valid()
  {
    forall a: nat :: a < g.ArcCount() && g.tail[a] in s && Residual(f, d, a) ==> g.ArcOk(a) && g.head[a] in t
  }

  ghost predicate Above(g: Graph, f: seq<int>, d: int, s: set<nat>, c: set<nat>)
    requires g.Valid()
  {
    s <= c && ClosedIn(g, f, d, c, c)
  }

  /** `r` is the least closed set around `s`: the nodes reachable from `s`. */
  ghost predicate IsReach(g: Graph, f: seq<int>, d: int, s: set<nat>, r: set<nat>)
    requires g.Valid()
  {
    Above(g, f, d, s, r) && forall c: set<nat> :: Above(g, f, d, s, c) ==> r <= c
  }

  /** Nodes inside; `extraNode` is inside but its arcs have not been followed. */
  datatype NodeSet = NodeSet(nodeCountInside: nat, inside: set<nat>, extraNode: Option<nat>) {
    ghost predicate Valid(n: nat) {
      && nodeCountInside == |inside|
      && (forall x :: x in inside ==> x < n)
      && (extraNode.Some? ==> extraNode.value in inside)
    }

    predicate CanGrow() { extraNode.Some? }

    /** The nodes whose arcs have been followed. */
    ghost function Explored(): set<nat> {
      if extraNode.Some? then inside - {extraNode.value} else inside
    }

    function SetExtraNode(x: nat): NodeSet
      requires x !in inside && extraNode.None?
    {
      NodeSet(nodeCountInside + 1, inside + {x}, Some(x))
    }
  }

  function EmptySet(): NodeSet { NodeSet(0, {}, None) }

  // ---------- The search tree ----------

  /** New nodes hang below `start`: each was reached by a residual arc from an earlier one. */
  ghost predicate Tree(g: Graph, f: seq<int>, d: int, base: set<nat>, start: nat, inside: set<nat>, pred: seq<nat>, rank: map<nat, nat>)
    requires g.Valid()
  {
    && base <= inside && start in base && |pred| == g.nodeCount
    && (forall x :: x in inside ==> x < g.nodeCount)
    && rank.Keys == inside - base + {start}
    && (forall y :: y in rank && y != start ==> TreeArc(g, f, d, y, pred, rank))
  }

  /** The predecessor of `y` is a residual arc from an earlier node. */
  ghost predicate TreeArc(g: Graph, f: seq<int>, d: int, y: nat, pred: seq<nat>, rank: map<nat, nat>) {
    && |pred| == g.nodeCount && |g.head| == |g.tail| && y < |pred| && pred[y] < g.ArcCount()
    && g.head[pred[y]] == y && Residual(f, d, pred[y])
    && y in rank && g.tail[pred[y]] in rank && rank[g.tail[pred[y]]] < rank[y]
  }

  ghost predicate Least(g: Graph, f: seq<int>, d: int, base: set<nat>, inside: set<nat>)
    requires g.Valid()
  {
    forall c: set<nat> :: Above(g, f, d, base, c) ==> inside <= c
  }

  lemma TreeGrows(g: Graph, f: seq<int>, d: int, base: set<nat>, start: nat, inside: set<nat>, pred: seq<nat>, rank: map<nat, nat>, a: nat, clock: nat)
    requires g.Valid() && Tree(g, f, d, base, start, inside, pred, rank) && Least(g, f, d, base, inside)
    requires a < g.ArcCount() && Residual(f, d, a) && g.tail[a] in rank && g.ArcOk(a) && g.head[a] !in inside
    requires forall x :: x in rank ==> rank[x] < clock
    ensures Tree(g, f, d, base, start, inside + {g.head[a]}, pred[g.head[a] := a], rank[g.head[a] := clock])
    ensures Least(g, f, d, base, inside + {g.head[a]})
  {
    var y := g.head[a];
    var inside', pred', rank' := inside + {y}, pred[y := a], rank[y := clock];
    assert rank'.Keys == inside' - base + {start};
    forall z | z in rank' && z != start
      ensures TreeArc(g, f, d, z, pred', rank')
    {
      if z != y {
        assert TreeArc(g, f, d, z, pred, rank);
      }
    }
    LeastGrows(g, f, d, base, inside, a);
  }

  lemma LeastGrows(g: Graph, f: seq<int>, d: int, base: set<nat>, inside: set<nat>, a: nat)
    requires g.Valid() && Least(g, f, d, base, inside) && a < g.ArcCount() && Residual(f, d, a) && g.ArcOk(a) && g.tail[a] in inside
    ensures Least(g, f, d, base, inside + {g.head[a]})
  {
    forall c: set<nat> | Above(g, f, d, base, c)
      ensures inside + {g.head[a]} <= c
    {
      assert inside <= c;
      assert g.tail[a] in c;
    }
  }

  /** Changing the predecessor of a node that is still outside does not affect the tree. */
  lemma TreeIgnores(g: Graph, f: seq<int>, d: int, base: set<nat>, start: nat, inside: set<nat>, pred: seq<nat>, rank: map<nat, nat>, y: nat, a: nat)
    requires g.Valid() && Tree(g, f, d, base, start, inside, pred, rank) && y !in inside && y < g.nodeCount
    ensures Tree(g, f, d, base, start, inside, pred[y := a], rank)
  {
    forall z | z in rank && z != start
      ensures TreeArc(g, f, d, z, pred[y := a], rank)
    {
      assert TreeArc(g, f, d, z, pred, rank);
    }
  }

  /** `arcs` lists the arcs out of the explored nodes, once each. */
  ghost predicate Listed(g: Graph, explored: set<nat>, arcs: seq<nat>)
    requires g.Valid()
  {
    NoDup(arcs) && forall a: nat :: a in arcs <==> a < g.ArcCount() && g.tail[a] in explored
  }

  /** The search so far: a tree of new nodes, none of them a target, within everything reachable. */
  ghost predicate Searching(g: Graph, f: seq<int>, d: int, base: set<nat>, start: nat, target: set<nat>, nodes: NodeSet, pred: seq<nat>, rank: map<nat, nat>)
    requires g.Valid()
  {
    && Tree(g, f, d, base, start, nodes.inside, pred, rank) && Least(g, f, d, base, nodes.inside)
    && nodes.nodeCountInside == |nodes.inside|
    && (nodes.inside - base) !! target
  }

  /** A search that stopped at a target: the other new nodes are no targets. */
  ghost predicate Hit(g: Graph, f: seq<int>, d: int, base: set<nat>, start: nat, target: set<nat>, nodes: NodeSet, pred: seq<nat>, rank: map<nat, nat>, hit: nat)
    requires g.Valid()
  {
    && Tree(g, f, d, base, start, nodes.inside, pred, rank) && Least(g, f, d, base, nodes.inside)
    && hit in rank && hit != start && hit in target
    && (nodes.inside - base - {hit}) !! target
  }

  ghost predicate Ranked(rank: map<nat, nat>, clock: nat) {
    forall x :: x in rank ==> rank[x] < clock
  }

  /** The first `i` arcs out of `x` have been looked at. */
  ghost predicate Followed(g: Graph, f: seq<int>, d: int, x: nat, i: nat, inside: set<nat>)
    requires g.Valid() && x < g.nodeCount && i <= |g.outArc[x]|
  {
    forall k :: 0 <= k < i && Residual(f, d, g.outArc[x][k]) ==> g.outArc[x][k] < g.ArcCount() && g.head[g.outArc[x][k]] in inside
  }

  /** Looks at every arc out of `x`; new nodes go to the end of the space.  Stops at a target. */
  method Expand(g: Graph, space: array<nat>, x: nat, end0: nat, f: seq<int>, d: int, target: set<nat>, nodes0: NodeSet, pred0: seq<nat>,
      ghost base: set<nat>, ghost start: nat, ghost rank0: map<nat, nat>, ghost clock0: nat)
    returns (end: nat, hit: Option<nat>, nodes: NodeSet, pred: seq<nat>, ghost rank: map<nat, nat>, ghost clock: nat)
    requires g.Valid() && |f| == g.ArcCount() && Searching(g, f, d, base, start, target, nodes0, pred0, rank0) && Ranked(rank0, clock0)
    requires x in rank0 && end0 <= space.Length == g.nodeCount
    requires NoDup(space[..end0]) && forall k :: 0 <= k < end0 ==> space[k] in rank0
    modifies space
    ensures nodes0.inside <= nodes.inside && x < g.nodeCount && nodes.extraNode == nodes0.extraNode
    ensures hit.None? ==> end0 <= end <= space.Length && space[..end0] == old(space[..end0])
    ensures hit.None? ==> Appended(rank0, rank, space[..end], end0)
    ensures hit.None? ==> Searching(g, f, d, base, start, target, nodes, pred, rank) && Ranked(rank, clock)
    ensures hit.None? ==> Followed(g, f, d, x, |g.outArc[x]|, nodes.inside)
    ensures hit.Some? ==> Hit(g, f, d, base, start, target, nodes, pred, rank, hit.value)
  {
    hide *;
    end, hit, nodes, pred, rank, clock := end0, None, nodes0, pred0, rank0, clock0;
    RankedNode(g, f, d, base, start, target, nodes, pred, rank, x);
    NothingFollowed(g, f, d, x, nodes.inside);
    NothingAppended(rank0, space[..end0], end0);
    for i := 0 to |g.outArc[x]|
      invariant end0 <= end <= space.Length == g.nodeCount && space[..end0] == old(space[..end0])
      invariant Appended(rank0, rank, space[..end], end0)
      invariant Searching(g, f, d, base, start, target, nodes, pred, rank) && Ranked(rank, clock)
      invariant nodes0.inside <= nodes.inside && x in rank && nodes.extraNode == nodes0.extraNode
      invariant Followed(g, f, d, x, i, nodes.inside)
    {
      var xy := g.outArc[x][i];
      OutArcFacts(g, x, i);
      var y := g.head[xy];
      if y !in nodes.inside {
        ghost var spaceBefore := space[..end];
        IgnorePred(g, f, d, base, start, target, nodes, pred, rank, y, xy);
        pred := pred[y := xy];
        if Residual(f, d, xy) {
          NewNode(g, f, d, base, start, target, nodes, pred, rank, clock, xy);
          FitsSpace(g, f, d, base, start, target, nodes, pred, rank0, rank, spaceBefore, end0, y, clock);
          FollowedMore(g, f, d, x, i, nodes.inside, nodes.inside + {y});
          nodes := NodeSet(nodes.nodeCountInside + 1, nodes.inside + {y}, nodes.extraNode);
          rank := rank[y := clock];
          clock := clock + 1;
          if y in target {
            hit := Some(y);
            return;
          }
          space[end] := y;
          end := end + 1;
          assert space[..end] == spaceBefore + [y];
        } else {
          FollowedMore(g, f, d, x, i, nodes.inside, nodes.inside);
        }
      } else {
        FollowedMore(g, f, d, x, i, nodes.inside, nodes.inside);
      }
    }
  }

  /** The nodes ranked since `rank0` are those appended to the space from `end0` on. */
  ghost predicate Appended(rank0: map<nat, nat>, rank: map<nat, nat>, space: seq<nat>, end0: nat) {
    && end0 <= |space| && NoDup(space) && rank0.Keys <= rank.Keys
    && (forall k :: 0 <= k < |space| ==> space[k] in rank)
    && (forall y :: y in rank <==> y in rank0 || y in space[end0..])
    && (forall y :: y in space[end0..] ==> y !in rank0)
  }

  lemma NothingAppended(rank: map<nat, nat>, space: seq<nat>, end: nat)
    requires end == |space| && NoDup(space) && forall k :: 0 <= k < |space| ==> space[k] in rank
    ensures Appended(rank, rank, space, end)
  {
  }

  lemma RankedNode(g: Graph, f: seq<int>, d: int, base: set<nat>, start: nat, target: set<nat>, nodes: NodeSet, pred: seq<nat>, rank: map<nat, nat>, x: nat)
    requires g.Valid() && Searching(g, f, d, base, start, target, nodes, pred, rank) && x in rank
    ensures x in nodes.inside && x < g.nodeCount == |g.outArc|
  {
  }

  lemma NothingFollowed(g: Graph, f: seq<int>, d: int, x: nat, inside: set<nat>)
    requires g.Valid() && x < g.nodeCount
    ensures Followed(g, f, d, x, 0, inside)
  {
  }

  lemma OutArcFacts(g: Graph, x: nat, i: nat)
    requires g.Valid() && x < g.nodeCount && i < |g.outArc[x]|
    ensures g.outArc[x][i] < g.ArcCount() == |g.head| && g.tail[g.outArc[x][i]] == x && g.ArcOk(g.outArc[x][i])
    ensures g.head[g.outArc[x][i]] < g.nodeCount
  {
    assert g.OutOk(x);
    var a := g.outArc[x][i];
    assert a in g.outArc[x];
    assert g.ArcOk(a);
  }

  lemma IgnorePred(g: Graph, f: seq<int>, d: int, base: set<nat>, start: nat, target: set<nat>, nodes: NodeSet, pred: seq<nat>, rank: map<nat, nat>, y: nat, a: nat)
    requires g.Valid() && Searching(g, f, d, base, start, target, nodes, pred, rank) && y !in nodes.inside && y < g.nodeCount
    ensures y < |pred| && Searching(g, f, d, base, start, target, nodes, pred[y := a], rank)
  {
    assert |pred| == g.nodeCount;
    hide Tree, Least;
    TreeIgnores(g, f, d, base, start, nodes.inside, pred, rank, y, a);
  }

  lemma NewNode(g: Graph, f: seq<int>, d: int, base: set<nat>, start: nat, target: set<nat>, nodes: NodeSet, pred: seq<nat>, rank: map<nat, nat>,
      clock: nat, xy: nat)
    requires g.Valid() && Searching(g, f, d, base, start, target, nodes, pred, rank) && Ranked(rank, clock)
    requires xy < g.ArcCount() && Residual(f, d, xy) && g.ArcOk(xy) && g.tail[xy] in rank && g.head[xy] !in nodes.inside
    requires g.head[xy] < |pred| && pred[g.head[xy]] == xy
    ensures var y, more, rank' := g.head[xy], NodeSet(nodes.nodeCountInside + 1, nodes.inside + {g.head[xy]}, nodes.extraNode), rank[g.head[xy] := clock];
            && y !in rank && Ranked(rank', clock + 1)
            && (y !in target ==> Searching(g, f, d, base, start, target, more, pred, rank'))
            && (y in target ==> Hit(g, f, d, base, start, target, more, pred, rank', y))
  {
    var y := g.head[xy];
    assert pred[y := xy] == pred;
    assert y !in rank && start in nodes.inside;
    hide Tree, Least, Residual;
    TreeGrows(g, f, d, base, start, nodes.inside, pred, rank, xy, clock);
  }

  lemma FitsSpace(g: Graph, f: seq<int>, d: int, base: set<nat>, start: nat, target: set<nat>, nodes: NodeSet, pred: seq<nat>, rank0: map<nat, nat>, rank: map<nat, nat>,
      space: seq<nat>, end0: nat, y: nat, clock: nat)
    requires g.Valid() && Searching(g, f, d, base, start, target, nodes, pred, rank) && Appended(rank0, rank, space, end0)
    requires y !in rank && y < g.nodeCount
    ensures |space| < g.nodeCount
    ensures Appended(rank0, rank[y := clock], space + [y], end0)
  {
    hide *;
    RankBelow(g, f, d, base, start, target, nodes, pred, rank);
    AppendedMore(rank0, rank, space, end0, y, clock, g.nodeCount);
    NoDupFits(space + [y], g.nodeCount);
  }

  lemma RankBelow(g: Graph, f: seq<int>, d: int, base: set<nat>, start: nat, target: set<nat>, nodes: NodeSet, pred: seq<nat>, rank: map<nat, nat>)
    requires g.Valid() && Searching(g, f, d, base, start, target, nodes, pred, rank)
    ensures forall x :: x in rank ==> x < g.nodeCount
  {
    hide Least;
  }

  lemma AppendedMore(rank0: map<nat, nat>, rank: map<nat, nat>, space: seq<nat>, end0: nat, y: nat, clock: nat, n: nat)
    requires Appended(rank0, rank, space, end0) && y !in rank && y < n && forall x :: x in rank ==> x < n
    ensures Appended(rank0, rank[y := clock], space + [y], end0)
    ensures NoDup(space + [y]) && forall k :: 0 <= k < |space + [y]| ==> (space + [y])[k] < n
  {
    assert (space + [y])[end0..] == space[end0..] + [y];
  }

  lemma FollowedMore(g: Graph, f: seq<int>, d: int, x: nat, i: nat, inside: set<nat>, more: set<nat>)
    requires g.Valid() && x < g.nodeCount && i < |g.outArc[x]| && Followed(g, f, d, x, i, inside) && inside <= more
    requires g.outArc[x][i] < g.ArcCount() == |g.head|
    requires Residual(f, d, g.outArc[x][i]) ==> g.head[g.outArc[x][i]] in more
    ensures Followed(g, f, d, x, i + 1, more)
  {
    hide Residual;
  }

  // ---------- Whole searches ----------

  /** Every ranked node is either explored or waiting. */
  ghost predicate Frontier(rank: map<nat, nat>, explored: set<nat>, waiting: seq<nat>) {
    && (forall x :: x in rank <==> x in explored || x in waiting)
    && (forall x :: x in waiting ==> x !in explored)
  }

  ghost predicate AllFollowed(g: Graph, f: seq<int>, d: int, explored: set<nat>, inside: set<nat>)
    requires g.Valid()
  {
    forall x :: x in explored ==> x < g.nodeCount && Followed(g, f, d, x, |g.outArc[x]|, inside)
  }

  /** A search that ran to its end: everything reachable is inside, no new node is a target. */
  ghost predicate Complete(g: Graph, f: seq<int>, d: int, base: set<nat>, start: nat, target: set<nat>, nodes: NodeSet, pred: seq<nat>, rank: map<nat, nat>, arcs: seq<nat>)
    requires g.Valid()
  {
    && Searching(g, f, d, base, start, target, nodes, pred, rank)
    && AllFollowed(g, f, d, rank.Keys, nodes.inside)
    && Listed(g, rank.Keys, arcs)
  }

  /** The state of a search between two expansions. */
  ghost predicate Running(g: Graph, f: seq<int>, d: int, base: set<nat>, start: nat, target: set<nat>, nodes: NodeSet, pred: seq<nat>, rank: map<nat, nat>,
      explored: set<nat>, arcs: seq<nat>, clock: nat)
    requires g.Valid()
  {
    && Searching(g, f, d, base, start, target, nodes, pred, rank) && Ranked(rank, clock)
    && explored <= rank.Keys
    && AllFollowed(g, f, d, explored, nodes.inside)
    && Listed(g, explored, arcs)
  }

  lemma StartRunning(g: Graph, f: seq<int>, d: int, nodes: NodeSet, target: set<nat>, pred: seq<nat>)
    requires g.Valid() && nodes.Valid(g.nodeCount) && nodes.CanGrow() && |pred| == g.nodeCount
    ensures Running(g, f, d, nodes.inside, nodes.extraNode.value, target, nodes, pred, map[nodes.extraNode.value := 0], {}, [], 1)
  {
  }

  lemma RunningStep(g: Graph, f: seq<int>, d: int, base: set<nat>, start: nat, target: set<nat>, nodes0: NodeSet, pred0: seq<nat>, rank0: map<nat, nat>,
      explored: set<nat>, arcs: seq<nat>, clock0: nat, x: nat, nodes: NodeSet, pred: seq<nat>, rank: map<nat, nat>, clock: nat)
    requires g.Valid() && Running(g, f, d, base, start, target, nodes0, pred0, rank0, explored, arcs, clock0)
    requires x in rank && x !in explored && rank0.Keys <= rank.Keys && nodes0.inside <= nodes.inside && x < g.nodeCount
    requires Searching(g, f, d, base, start, target, nodes, pred, rank) && Ranked(rank, clock) && Followed(g, f, d, x, |g.outArc[x]|, nodes.inside)
    ensures Running(g, f, d, base, start, target, nodes, pred, rank, explored + {x}, arcs + g.outArc[x], clock)
    ensures x < |g.outArc| && |explored| < |explored + {x}| <= g.nodeCount
  {
    hide Searching, Ranked;
    RankBelow(g, f, d, base, start, target, nodes, pred, rank);
    SubsetSize(explored + {x}, Range(g.nodeCount));
    FollowedGrows(g, f, d, explored, nodes0.inside, nodes.inside);
    assert g.OutOk(x);
    hide AllFollowed, Followed;
    ListedMore(g, explored, arcs, x);
    MoreFollowed(g, f, d, explored, x, nodes.inside);
  }

  lemma FollowedGrows(g: Graph, f: seq<int>, d: int, explored: set<nat>, inside: set<nat>, more: set<nat>)
    requires g.Valid() && AllFollowed(g, f, d, explored, inside) && inside <= more
    ensures AllFollowed(g, f, d, explored, more)
  {
    hide Residual;
  }

  lemma MoreFollowed(g: Graph, f: seq<int>, d: int, explored: set<nat>, x: nat, inside: set<nat>)
    requires g.Valid() && AllFollowed(g, f, d, explored, inside) && x < g.nodeCount && Followed(g, f, d, x, |g.outArc[x]|, inside)
    ensures AllFollowed(g, f, d, explored + {x}, inside)
  {
    hide Followed;
  }

  lemma ListedMore(g: Graph, explored: set<nat>, arcs: seq<nat>, x: nat)
    requires g.Valid() && Listed(g, explored, arcs) && x !in explored && x < g.nodeCount
    ensures Listed(g, explored + {x}, arcs + g.outArc[x])
  {
    assert g.OutOk(x);
    var more := arcs + g.outArc[x];
    forall i, j | 0 <= i < |arcs| && 0 <= j < |g.outArc[x]|
      ensures arcs[i] != g.outArc[x][j]
    {
      assert arcs[i] in arcs && g.outArc[x][j] in g.outArc[x];
    }
    forall i, j | 0 <= i < j < |more|
      ensures more[i] != more[j]
    {
    }
  }

  lemma FrontierStep(rank0: map<nat, nat>, rank: map<nat, nat>, explored: set<nat>, waiting: seq<nat>, x: nat, rest: seq<nat>, space: seq<nat>, end0: nat)
    requires Frontier(rank0, explored, waiting) && Appended(rank0, rank, space, end0) && x !in rest
    requires forall y :: y in waiting <==> y in rest || y == x
    ensures Frontier(rank, explored + {x}, rest + space[end0..])
  {
  }

  lemma RunningDone(g: Graph, f: seq<int>, d: int, base: set<nat>, start: nat, target: set<nat>, nodes: NodeSet, pred: seq<nat>, rank: map<nat, nat>,
      explored: set<nat>, arcs: seq<nat>, clock: nat)
    requires g.Valid() && Running(g, f, d, base, start, target, nodes, pred, rank, explored, arcs, clock) && Frontier(rank, explored, [])
    ensures Complete(g, f, d, base, start, target, nodes, pred, rank, arcs)
  {
    assert rank.Keys == explored;
    hide Searching, AllFollowed, Listed;
  }

  lemma WaitingNode(g: Graph, f: seq<int>, d: int, base: set<nat>, start: nat, target: set<nat>, nodes: NodeSet, pred: seq<nat>, rank: map<nat, nat>,
      explored: set<nat>, arcs: seq<nat>, clock: nat, waiting: seq<nat>, x: nat)
    requires g.Valid() && Running(g, f, d, base, start, target, nodes, pred, rank, explored, arcs, clock) && Frontier(rank, explored, waiting) && x in waiting
    ensures Searching(g, f, d, base, start, target, nodes, pred, rank) && Ranked(rank, clock) && x in rank && x !in explored
  {
    hide Searching, AllFollowed, Listed;
  }

  method PseudoDepthFirstSearch(g: Graph, stack: array<nat>, nodes0: NodeSet, f: seq<int>, d: int, target: set<nat>, pred0: seq<nat>)
    returns (hit: Option<nat>, nodes: NodeSet, pred: seq<nat>, arcs: seq<nat>, ghost rank: map<nat, nat>)
    requires g.Valid() && nodes0.Valid(g.nodeCount) && nodes0.CanGrow() && |f| == g.ArcCount()
    requires stack.Length == |pred0| == g.nodeCount
    modifies stack
    ensures nodes.extraNode == nodes0.extraNode
    ensures hit.None? ==> Complete(g, f, d, nodes0.inside, nodes0.extraNode.value, target, nodes, pred, rank, arcs)
    ensures hit.Some? ==> Hit(g, f, d, nodes0.inside, nodes0.extraNode.value, target, nodes, pred, rank, hit.value)
  {
    hide *;
    SourceBelow(g, nodes0);
    var source := nodes0.extraNode.value;
    hit, nodes, pred, arcs, rank := None, nodes0, pred0, [], map[source := 0];
    ghost var explored: set<nat>, clock: nat := {}, 1;
    StartRunning(g, f, d, nodes0, target, pred0);
    var stackEnd := 1;
    stack[0] := source;
    StartSpace(stack[..1], rank, source);
    while stackEnd != 0
      invariant hit.None? && stackEnd <= stack.Length && nodes.extraNode == nodes0.extraNode
      invariant Running(g, f, d, nodes0.inside, source, target, nodes, pred, rank, explored, arcs, clock)
      invariant Frontier(rank, explored, stack[..stackEnd]) && SpaceOk(rank, stack[..stackEnd]) && |explored| <= g.nodeCount
      decreases g.nodeCount - |explored|
    {
      stackEnd := stackEnd - 1;
      var x := stack[stackEnd];
      ghost var waiting, rest := stack[..stackEnd + 1], stack[..stackEnd];
      assert waiting == rest + [x];
      WaitingNode(g, f, d, nodes0.inside, source, target, nodes, pred, rank, explored, arcs, clock, waiting, x);
      SpaceShorter(rank, rest, x);
      ghost var rank0, nodes1, pred1, clock1, end0 := rank, nodes, pred, clock, stackEnd;
      stackEnd, hit, nodes, pred, rank, clock := Expand(g, stack, x, stackEnd, f, d, target, nodes, pred, nodes0.inside, source, rank, clock);
      if hit.Some? { return; }
      AfterExpand(g, f, d, nodes0.inside, source, target, nodes1, pred1, rank0, explored, arcs, clock1, waiting, x, rest,
                  nodes, pred, rank, clock, stack[..stackEnd], end0);
      assert stack[..stackEnd] == rest + stack[..stackEnd][end0..];
      explored := explored + {x};
      arcs := arcs + g.outArc[x];
    }
    assert stack[..0] == [];
    RunningDone(g, f, d, nodes0.inside, source, target, nodes, pred, rank, explored, arcs, clock);
  }

  method BreadthFirstSearch(g: Graph, queue: array<nat>, nodes0: NodeSet, f: seq<int>, d: int, target: set<nat>, pred0: seq<nat>)
    returns (hit: Option<nat>, nodes: NodeSet, pred: seq<nat>, arcs: seq<nat>, ghost rank: map<nat, nat>)
    requires g.Valid() && nodes0.Valid(g.nodeCount) && nodes0.CanGrow() && |f| == g.ArcCount()
    requires queue.Length == |pred0| == g.nodeCount
    modifies queue
    ensures nodes.extraNode == nodes0.extraNode
    ensures hit.None? ==> Complete(g, f, d, nodes0.inside, nodes0.extraNode.value, target, nodes, pred, rank, arcs)
    ensures hit.Some? ==> Hit(g, f, d, nodes0.inside, nodes0.extraNode.value, target, nodes, pred, rank, hit.value)
  {
    hide *;
    SourceBelow(g, nodes0);
    var source := nodes0.extraNode.value;
    hit, nodes, pred, arcs, rank := None, nodes0, pred0, [], map[source := 0];
    ghost var explored: set<nat>, clock: nat := {}, 1;
    StartRunning(g, f, d, nodes0, target, pred0);
    var queueBegin, queueEnd := 0, 1;
    queue[0] := source;
    StartSpace(queue[..1], rank, source);
    assert queue[0..1] == queue[..1];
    while queueBegin != queueEnd
      invariant hit.None? && queueBegin <= queueEnd <= queue.Length && nodes.extraNode == nodes0.extraNode
      invariant Running(g, f, d, nodes0.inside, source, target, nodes, pred, rank, explored, arcs, clock)
      invariant Frontier(rank, explored, queue[queueBegin..queueEnd]) && SpaceOk(rank, queue[..queueEnd]) && |explored| <= g.nodeCount
      decreases g.nodeCount - |explored|
    {
      var x := queue[queueBegin];
      ghost var waiting, rest := queue[queueBegin..queueEnd], queue[queueBegin + 1..queueEnd];
      assert waiting == [x] + rest;
      WaitingNode(g, f, d, nodes0.inside, source, target, nodes, pred, rank, explored, arcs, clock, waiting, x);
      SpaceParts(rank, queue[..queueEnd], queueBegin);
      queueBegin := queueBegin + 1;
      ghost var rank0, nodes1, pred1, clock1, end0, before := rank, nodes, pred, clock, queueEnd, queue[..queueEnd];
      queueEnd, hit, nodes, pred, rank, clock := Expand(g, queue, x, queueEnd, f, d, target, nodes, pred, nodes0.inside, source, rank, clock);
      if hit.Some? { return; }
      AfterExpand(g, f, d, nodes0.inside, source, target, nodes1, pred1, rank0, explored, arcs, clock1, waiting, x, rest,
                  nodes, pred, rank, clock, queue[..queueEnd], end0);
      assert before[queueBegin..] == rest;
      assert queue[queueBegin..queueEnd] == rest + queue[..queueEnd][end0..];
      explored := explored + {x};
      arcs := arcs + g.outArc[x];
    }
    assert queue[queueBegin..queueEnd] == [];
    RunningDone(g, f, d, nodes0.inside, source, target, nodes, pred, rank, explored, arcs, clock);
  }

  ghost predicate SpaceOk(rank: map<nat, nat>, space: seq<nat>) {
    NoDup(space) && forall k :: 0 <= k < |space| ==> space[k] in rank
  }

  lemma SourceBelow(g: Graph, nodes: NodeSet)
    requires g.Valid() && nodes.Valid(g.nodeCount) && nodes.CanGrow()
    ensures nodes.extraNode.Some? && nodes.extraNode.value < g.nodeCount == |g.outArc|
  {
  }

  /** Everything one round of a search establishes. */
  lemma AfterExpand(g: Graph, f: seq<int>, d: int, base: set<nat>, start: nat, target: set<nat>, nodes0: NodeSet, pred0: seq<nat>, rank0: map<nat, nat>,
      explored: set<nat>, arcs: seq<nat>, clock0: nat, waiting: seq<nat>, x: nat, rest: seq<nat>,
      nodes: NodeSet, pred: seq<nat>, rank: map<nat, nat>, clock: nat, space: seq<nat>, end0: nat)
    requires g.Valid() && Running(g, f, d, base, start, target, nodes0, pred0, rank0, explored, arcs, clock0)
    requires Frontier(rank0, explored, waiting) && x in waiting && x !in rest && (forall y :: y in waiting <==> y in rest || y == x)
    requires Appended(rank0, rank, space, end0) && nodes0.inside <= nodes.inside && x < g.nodeCount
    requires Searching(g, f, d, base, start, target, nodes, pred, rank) && Ranked(rank, clock) && Followed(g, f, d, x, |g.outArc[x]|, nodes.inside)
    ensures x < |g.outArc|
    ensures Running(g, f, d, base, start, target, nodes, pred, rank, explored + {x}, arcs + g.outArc[x], clock)
    ensures Frontier(rank, explored + {x}, rest + space[end0..]) && SpaceOk(rank, space)
    ensures |explored| < |explored + {x}| <= g.nodeCount
  {
    hide *;
    WaitingNode(g, f, d, base, start, target, nodes0, pred0, rank0, explored, arcs, clock0, waiting, x);
    AppendedSpace(rank0, rank, space, end0);
    RunningStep(g, f, d, base, start, target, nodes0, pred0, rank0, explored, arcs, clock0, x, nodes, pred, rank, clock);
    FrontierStep(rank0, rank, explored, waiting, x, rest, space, end0);
  }

  lemma StartSpace(space: seq<nat>, rank: map<nat, nat>, source: nat)
    requires space == [source] && rank == map[source := 0]
    ensures Frontier(rank, {}, space) && SpaceOk(rank, space)
  {
  }

  lemma SpaceShorter(rank: map<nat, nat>, rest: seq<nat>, x: nat)
    requires SpaceOk(rank, rest + [x])
    ensures NoDup(rest) && x !in rest && forall k :: 0 <= k < |rest| ==> rest[k] in rank
    ensures forall y :: y in rest + [x] <==> y in rest || y == x
  {
    assert forall k :: 0 <= k < |rest| ==> (rest + [x])[k] == rest[k];
    assert (rest + [x])[|rest|] == x;
  }

  lemma SpaceParts(rank: map<nat, nat>, space: seq<nat>, begin: nat)
    requires SpaceOk(rank, space) && begin < |space|
    ensures NoDup(space) && space[begin] !in space[begin + 1..] && forall k :: 0 <= k < |space| ==> space[k] in rank
  {
  }

  lemma AppendedSpace(rank0: map<nat, nat>, rank: map<nat, nat>, space: seq<nat>, end0: nat)
    requires Appended(rank0, rank, space, end0)
    ensures SpaceOk(rank, space) && rank0.Keys <= rank.Keys
  {
  }
}
