/**
  FlowCutter: a unit maximum flow between two growing sides.  Every time the growth stops,
  the cut around the smaller side is a minimum cut between the two sides.
*/
module FlowCutter {
  import opened FiniteSets
  import opened Wrappers
  import opened FlowNetwork
  import opened FlowSearch

  /** One side: the nodes it owns, the arcs of its cut, and the nodes it can reach. */
  datatype Side = Side(assimilated: NodeSet, front: seq<nat>, reachable: NodeSet)

  function Dir(side: nat): int {
    if side == 0 then 1 else -1
  }

  /** The arcs from the explored nodes to the others, once each. */
  ghost predicate FrontOk(g: Graph, explored: set<nat>, front: seq<nat>)
    requires g.Valid()
  {
    NoDup(front) && forall a: nat :: a in front <==> a < g.ArcCount() && g.tail[a] in explored && g.head[a] !in explored
  }

  /** No residual arc leaves the explored part of a side, except to nodes of the side. */
  ghost predicate SideOk(g: Graph, f: seq<int>, d: int, s: Side)
    requires g.Valid()
  {
    && s.assimilated.Valid(g.nodeCount) && s.assimilated.inside != {}
    && s.reachable.nodeCountInside == |s.reachable.inside|
    && ClosedIn(g, f, d, s.assimilated.Explored(), s.assimilated.inside)
    && FrontOk(g, s.assimilated.Explored(), s.front)
  }

  ghost predicate Reached(g: Graph, f: seq<int>, d: int, s: Side)
    requires g.Valid()
  {
    IsReach(g, f, d, s.assimilated.inside, s.reachable.inside) && s.reachable.extraNode.None?
  }

  /** What holds throughout: a conserved unit flow between two disjoint sides. */
  ghost predicate Sound(g: Graph, f: seq<int>, s0: Side, s1: Side)
    requires g.Valid()
  {
    && IsFlow(g, f)
    && SideOk(g, f, 1, s0) && SideOk(g, f, -1, s1)
    && s0.assimilated.inside !! s1.assimilated.inside
    && Conserved(g, f, s0.assimilated.inside + s1.assimilated.inside)
  }

  /** The flow that leaves the source side. */
  ghost function FlowValue(g: Graph, f: seq<int>, s0: Side): int
    requires g.Valid()
  {
    Surplus(g, f, s0.assimilated.inside)
  }

  // ---------- Residual arcs and their reversals ----------

  lemma ResidualBack(g: Graph, f: seq<int>, d: int, a: nat)
    requires g.Valid() && IsFlow(g, f) && a < g.ArcCount() && (d == 1 || d == -1)
    ensures g.ArcOk(a) && (Residual(f, d, a) <==> Residual(f, -d, g.backArc[a]))
  {
    assert g.ArcOk(a);
  }

  /** Outside a set closed in one direction, the other direction is closed. */
  lemma ComplementClosed(g: Graph, f: seq<int>, d: int, r: set<nat>, c: set<nat>)
    requires g.Valid() && IsFlow(g, f) && (d == 1 || d == -1) && ClosedIn(g, f, d, r, r)
    requires forall x: nat :: x in c <==> x < g.nodeCount && x !in r
    ensures ClosedIn(g, f, -d, c, c)
  {
    forall a: nat | a < g.ArcCount() && g.tail[a] in c && Residual(f, -d, a)
      ensures g.ArcOk(a) && g.head[a] in c
    {
      ResidualBack(g, f, -d, a);
      var b := g.backArc[a];
      assert g.ArcOk(b) by { assert g.ArcOk(a); }
      assert g.tail[b] == g.head[a] && g.head[b] == g.tail[a];
    }
  }

  /** When one side cannot reach the other, neither can the other. */
  lemma ReachesApart(g: Graph, f: seq<int>, d: int, a: set<nat>, r: set<nat>, b: set<nat>, t: set<nat>)
    requires g.Valid() && IsFlow(g, f) && (d == 1 || d == -1)
    requires IsReach(g, f, d, a, r) && IsReach(g, f, -d, b, t) && r !! b
    requires forall x :: x in b ==> x < g.nodeCount
    ensures r !! t
  {
    var c := Range(g.nodeCount) - r;
    ComplementClosed(g, f, d, r, c);
    assert Above(g, f, -d, b, c);
  }

  // ---------- Augmenting along a path ----------

  ghost predicate SurplusMoved(g: Graph, f0: seq<int>, f: seq<int>, d: int, x: nat, y: nat)
    requires g.Valid()
  {
    forall s: set<nat> :: Surplus(g, f, s) == Surplus(g, f0, s) + d * (In(s, x) - In(s, y))
  }

  /** Only arcs between ranked nodes differ. */
  ghost predicate OnlyRanked(g: Graph, f0: seq<int>, f: seq<int>, rank: map<nat, nat>)
    requires g.Valid()
  {
    |f| == |f0| == g.ArcCount() && forall a: nat :: a < |f| && (g.tail[a] !in rank || g.head[a] !in rank) ==> f[a] == f0[a]
  }

  /** Arcs among the nodes ranked up to `x` are as they were. */
  ghost predicate Untouched(g: Graph, f0: seq<int>, f: seq<int>, rank: map<nat, nat>, x: nat)
    requires g.Valid()
  {
    && |f| == |f0| == g.ArcCount() && x in rank
    && forall a: nat :: a < |f| && g.tail[a] in rank && g.head[a] in rank && rank[g.tail[a]] <= rank[x] && rank[g.head[a]] <= rank[x] ==> f[a] == f0[a]
  }

  lemma AugmentStep(g: Graph, f0: seq<int>, f: seq<int>, d: int, rank: map<nat, nat>, x: nat, hit: nat, a: nat)
    requires g.Valid() && IsFlow(g, f) && a < g.ArcCount() && (d == 1 || d == -1)
    requires SurplusMoved(g, f0, f, d, x, hit) && OnlyRanked(g, f0, f, rank) && Untouched(g, f0, f, rank, x)
    requires g.head[a] == x && x in rank && g.tail[a] in rank && rank[g.tail[a]] < rank[x] && Residual(f0, d, a)
    ensures 0 <= f[a] + d <= 2
    ensures IsFlow(g, Changed(g, f, a, d)) && SurplusMoved(g, f0, Changed(g, f, a, d), d, g.tail[a], hit)
    ensures OnlyRanked(g, f0, Changed(g, f, a, d), rank) && Untouched(g, f0, Changed(g, f, a, d), rank, g.tail[a])
  {
    assert g.ArcOk(a);
    assert f[a] == f0[a];
    ChangedIsFlow(g, f, a, d);
    SurplusStep(g, f0, f, d, x, hit, a);
  }

  lemma SurplusStep(g: Graph, f0: seq<int>, f: seq<int>, d: int, x: nat, hit: nat, a: nat)
    requires g.Valid() && IsFlow(g, f) && a < |f| && 0 <= f[a] + d <= 2 && g.head[a] == x && SurplusMoved(g, f0, f, d, x, hit)
    ensures SurplusMoved(g, f0, Changed(g, f, a, d), d, g.tail[a], hit)
  {
    var h, y := Changed(g, f, a, d), g.tail[a];
    hide Surplus, Changed;
    forall s: set<nat>
      ensures Surplus(g, h, s) == Surplus(g, f0, s) + d * (In(s, y) - In(s, hit))
    {
      ChangedSurplus(g, f, a, d, s);
      assert Surplus(g, f, s) == Surplus(g, f0, s) + d * (In(s, x) - In(s, hit));
    }
  }

  /** The nodes whose arcs changed avoid the explored parts of both sides. */
  lemma ExploredKept(g: Graph, f0: seq<int>, f: seq<int>, d: int, rank: map<nat, nat>, explored: set<nat>, inside: set<nat>)
    requires g.Valid() && OnlyRanked(g, f0, f, rank) && explored !! rank.Keys && ClosedIn(g, f0, d, explored, inside)
    ensures ClosedIn(g, f, d, explored, inside)
  {
  }

  /** A search enters the other side through its unexplored node. */
  lemma HitIsPending(g: Graph, f: seq<int>, d: int, base: set<nat>, start: nat, other: NodeSet, nodes: NodeSet, pred: seq<nat>, rank: map<nat, nat>, hit: nat)
    requires g.Valid() && IsFlow(g, f) && (d == 1 || d == -1)
    requires Hit(g, f, d, base, start, other.inside, nodes, pred, rank, hit) && base !! other.inside
    requires ClosedIn(g, f, -d, other.Explored(), other.inside)
    ensures hit !in other.Explored() && other.Explored() !! rank.Keys
  {
    hide Least;
    assert TreeArc(g, f, d, hit, pred, rank);
    var a := pred[hit];
    ResidualBack(g, f, d, a);
    assert g.tail[a] in rank && g.tail[a] != hit;
    assert g.tail[a] !in other.inside;
    assert g.tail[g.backArc[a]] == hit && g.head[g.backArc[a]] == g.tail[a];
    assert g.ArcOk(g.backArc[a]);
    assert forall x :: x in rank && x in other.inside ==> x == hit;
  }

  /** Moving surplus between the sides keeps every other node conserved. */
  lemma ConservedKept(g: Graph, f0: seq<int>, f: seq<int>, d: int, x: nat, y: nat, sides: set<nat>)
    requires g.Valid() && Conserved(g, f0, sides) && SurplusMoved(g, f0, f, d, x, y) && x in sides && y in sides
    ensures Conserved(g, f, sides)
  {
    hide Surplus;
    forall z | 0 <= z < g.nodeCount && z !in sides
      ensures Surplus(g, f, {z}) == 0
    {
      assert Surplus(g, f, {z}) == Surplus(g, f0, {z}) + d * (In({z}, x) - In({z}, y));
    }
  }

  /** A search without a hit finds exactly the reachable nodes. */
  lemma CompleteIsReach(g: Graph, f: seq<int>, d: int, nodes0: NodeSet, target: set<nat>, nodes: NodeSet, pred: seq<nat>, rank: map<nat, nat>, arcs: seq<nat>)
    requires g.Valid() && nodes0.CanGrow() && |f| == g.ArcCount()
    requires Complete(g, f, d, nodes0.inside, nodes0.extraNode.value, target, nodes, pred, rank, arcs)
    requires ClosedIn(g, f, d, nodes0.Explored(), nodes0.inside)
    ensures IsReach(g, f, d, nodes0.inside, nodes.inside)
  {
    forall a: nat | a < g.ArcCount() && g.tail[a] in nodes.inside && Residual(f, d, a)
      ensures g.ArcOk(a) && g.head[a] in nodes.inside
    {
      var x := g.tail[a];
      if x in rank {
        FollowedArc(g, f, d, x, nodes.inside, a);
      } else {
        assert x in nodes0.Explored();
      }
    }
    hide AllFollowed, Listed;
  }

  lemma FollowedArc(g: Graph, f: seq<int>, d: int, x: nat, inside: set<nat>, a: nat)
    requires g.Valid() && x < g.nodeCount && Followed(g, f, d, x, |g.outArc[x]|, inside)
    requires a < g.ArcCount() && g.tail[a] == x && Residual(f, d, a)
    ensures g.ArcOk(a) && g.head[a] in inside
  {
    assert g.OutOk(x) && g.ArcOk(a);
    var k :| 0 <= k < |g.outArc[x]| && g.outArc[x][k] == a;
  }

  class UnitFlow {
    const flow: array<int>

    constructor (arcCount: nat)
      ensures flow.Length == arcCount && fresh(flow)
    {
      flow := new int[arcCount](_ => 1);
    }

    method Clear()
      modifies flow
      ensures forall a :: 0 <= a < flow.Length ==> flow[a] == 1
    {
      for a := 0 to flow.Length
        invariant forall b :: 0 <= b < a ==> flow[b] == 1
      {
        flow[a] := 1;
      }
    }

    /** One more unit along an arc, one less along its back arc. */
    method Increase(g: Graph, a: nat)
      requires g.Valid() && IsFlow(g, flow[..]) && a < flow.Length && flow[a] + 1 <= 2
      modifies flow
      ensures flow[..] == Changed(g, old(flow[..]), a, 1)
    {
      assert g.ArcOk(a) && flow[..][a] == flow[a];
      flow[a] := flow[a] + 1;
      flow[g.backArc[a]] := 2 - flow[a];
    }

    method Decrease(g: Graph, a: nat)
      requires g.Valid() && IsFlow(g, flow[..]) && a < flow.Length && 0 <= flow[a] - 1
      modifies flow
      ensures flow[..] == Changed(g, old(flow[..]), a, -1)
    {
      assert g.ArcOk(a) && flow[..][a] == flow[a];
      flow[a] := flow[a] - 1;
      flow[g.backArc[a]] := 2 - flow[a];
    }
  }

  /** The smaller reachable set; its side has just been grown and is closed. */
  function GrownSide(s0: Side, s1: Side): (r: nat)
    ensures r < 2
  {
    if s0.reachable.nodeCountInside <= s1.reachable.nodeCountInside then 0 else 1
  }

  ghost predicate Grown(s: Side) {
    s.assimilated.extraNode.None? && s.assimilated.inside == s.reachable.inside
  }

  /** The state between two calls: both sides know what they reach, and the smaller one owns it. */
  ghost predicate Stable(g: Graph, f: seq<int>, s0: Side, s1: Side)
    requires g.Valid()
  {
    && Sound(g, f, s0, s1)
    && Reached(g, f, 1, s0) && Reached(g, f, -1, s1)
    && s0.reachable.inside !! s1.reachable.inside
    && (if GrownSide(s0, s1) == 0 then Grown(s0) && s1.assimilated.CanGrow() else Grown(s1) && s0.assimilated.CanGrow())
  }

  /** Residual arcs lead from `s` to `t`: no closed set around `s` misses `t`. */
  ghost predicate Leads(g: Graph, f: seq<int>, d: int, s: set<nat>, t: set<nat>)
    requires g.Valid()
  {
    forall c: set<nat> :: Above(g, f, d, s, c) ==> !(c !! t)
  }

  lemma HitLeads(g: Graph, f: seq<int>, d: int, base: set<nat>, start: nat, target: set<nat>, nodes: NodeSet, pred: seq<nat>, rank: map<nat, nat>, hit: nat)
    requires g.Valid() && Hit(g, f, d, base, start, target, nodes, pred, rank, hit)
    ensures Leads(g, f, d, base, target)
  {
    hide TreeArc, ClosedIn;
    forall c: set<nat> | Above(g, f, d, base, c)
      ensures !(c !! target)
    {
      assert nodes.inside <= c && hit in c;
    }
  }

  /** A side was just pierced: its reachable set is its own nodes, the new one among them still to be explored. */
  ghost predicate Pierced(s: Side) {
    s.assimilated.CanGrow() && s.reachable == s.assimilated
  }

  class BasicCutter {
    const g: Graph
    const space: array<nat>
    const breadthFirst: bool
    const unitFlow: UnitFlow

    var sides: seq<Side>
    var predecessor: seq<seq<nat>>
    var cutAvailable: bool

    ghost predicate Shaped()
      reads this`sides, this`predecessor
      ensures Shaped() ==> g.Valid() && space.Length == g.nodeCount && unitFlow.flow.Length == g.ArcCount()
      ensures Shaped() ==> |sides| == 2 && |predecessor| == 2 && |predecessor[0]| == |predecessor[1]| == g.nodeCount
    {
      && g.Valid() && space.Length == g.nodeCount && unitFlow.flow.Length == g.ArcCount()
      && |sides| == 2 && |predecessor| == 2 && |predecessor[0]| == |predecessor[1]| == g.nodeCount
    }

    ghost predicate Ready()
      reads this`sides, this`predecessor, unitFlow.flow
    {
      Shaped() && Stable(g, unitFlow.flow[..], sides[0], sides[1])
    }

    constructor (g: Graph, breadthFirst: bool)
      requires g.Valid()
      ensures Shaped() && this.g == g && fresh(space) && fresh(unitFlow) && fresh(unitFlow.flow) && !cutAvailable
    {
      this.g, this.breadthFirst := g, breadthFirst;
      space := new nat[g.nodeCount](_ => 0);
      unitFlow := new UnitFlow(g.ArcCount());
      sides := [Side(EmptySet(), [], EmptySet()), Side(EmptySet(), [], EmptySet())];
      predecessor := [seq(g.nodeCount, _ => 0), seq(g.nodeCount, _ => 0)];
      cutAvailable := false;
    }

    lemma Reshape()
      requires g.Valid() && space.Length == g.nodeCount && unitFlow.flow.Length == g.ArcCount()
      requires |sides| == 2 && |predecessor| == 2 && |predecessor[0]| == |predecessor[1]| == g.nodeCount
      ensures Shaped()
    {
    }

    method Search(nodes0: NodeSet, d: int, target: set<nat>, pred0: seq<nat>)
      returns (hit: Option<nat>, nodes: NodeSet, pred: seq<nat>, arcs: seq<nat>, ghost rank: map<nat, nat>)
      requires Shaped() && nodes0.Valid(g.nodeCount) && nodes0.CanGrow() && |pred0| == g.nodeCount
      modifies space
      ensures hit.None? ==> Complete(g, unitFlow.flow[..], d, nodes0.inside, nodes0.extraNode.value, target, nodes, pred, rank, arcs)
      ensures hit.Some? ==> Hit(g, unitFlow.flow[..], d, nodes0.inside, nodes0.extraNode.value, target, nodes, pred, rank, hit.value)
      ensures |pred| == g.nodeCount
    {
      hide Complete, Hit, Graph.Valid;
      if breadthFirst {
        hit, nodes, pred, arcs, rank := BreadthFirstSearch(g, space, nodes0, unitFlow.flow[..], d, target, pred0);
      } else {
        hit, nodes, pred, arcs, rank := PseudoDepthFirstSearch(g, space, nodes0, unitFlow.flow[..], d, target, pred0);
      }
      PredSize(g, unitFlow.flow[..], d, nodes0.inside, nodes0.extraNode.value, target, nodes, pred, rank, arcs, hit);
    }

    /** Pushes one unit along the search tree, from the start to the node that was hit. */
    method AugmentPath(base: set<nat>, ghost start: nat, hit: nat, d: int, pred: seq<nat>, target: set<nat>, ghost nodes: NodeSet, ghost rank: map<nat, nat>)
      requires Shaped() && (d == 1 || d == -1) && IsFlow(g, unitFlow.flow[..]) && base !! target
      requires Hit(g, unitFlow.flow[..], d, base, start, target, nodes, pred, rank, hit)
      modifies unitFlow.flow
      ensures IsFlow(g, unitFlow.flow[..]) && SurplusMoved(g, old(unitFlow.flow[..]), unitFlow.flow[..], d, start, hit)
      ensures OnlyRanked(g, old(unitFlow.flow[..]), unitFlow.flow[..], rank)
    {
      hide *;
      ghost var f0 := unitFlow.flow[..];
      var x := hit;
      StartAugment(g, f0, d, base, start, target, nodes, pred, rank, hit);
      while x !in base
        invariant IsFlow(g, unitFlow.flow[..]) && SurplusMoved(g, f0, unitFlow.flow[..], d, x, hit)
        invariant OnlyRanked(g, f0, unitFlow.flow[..], rank) && Untouched(g, f0, unitFlow.flow[..], rank, x) && x in rank
        decreases rank[x]
      {
        TreeStep(g, f0, d, base, start, target, nodes, pred, rank, hit, x);
        var xy := pred[x];
        AugmentStep(g, f0, unitFlow.flow[..], d, rank, x, hit, xy);
        FlowLength(g, unitFlow.flow[..]);
        assert unitFlow.flow[..][xy] == unitFlow.flow[xy];
        if d == 1 {
          unitFlow.Increase(g, xy);
        } else {
          unitFlow.Decrease(g, xy);
        }
        x := g.tail[xy];
      }
      OnlyStartInBase(g, f0, d, base, start, target, nodes, pred, rank, hit, x);
    }

    /**
      Augments the flow until the pierced side no longer reaches the other one; its reachable
      set is then up to date, and so is the other one's if the flow changed.
    */
    method GrowReachableSets(piercedSide: nat) returns (wasFlowAugmented: bool)
      requires Shaped() && piercedSide < 2 && Sound(g, unitFlow.flow[..], sides[0], sides[1])
      requires Pierced(sides[piercedSide]) && sides[1 - piercedSide].assimilated.CanGrow()
      modifies this`sides, this`predecessor, space, unitFlow.flow
      ensures Shaped() && Sound(g, unitFlow.flow[..], sides[0], sides[1])
      ensures SameSides(old(sides), sides)
      ensures Reached(g, unitFlow.flow[..], Dir(piercedSide), sides[piercedSide])
      ensures sides[piercedSide].reachable.inside !! sides[1 - piercedSide].assimilated.inside
      ensures wasFlowAugmented ==> Reached(g, unitFlow.flow[..], Dir(1 - piercedSide), sides[1 - piercedSide])
      ensures !wasFlowAugmented ==> unitFlow.flow[..] == old(unitFlow.flow[..]) && sides[1 - piercedSide] == old(sides[1 - piercedSide])
      ensures wasFlowAugmented ==>
        Leads(g, old(unitFlow.flow[..]), Dir(piercedSide), old(sides)[piercedSide].assimilated.inside, sides[1 - piercedSide].assimilated.inside)
      ensures FlowValue(g, unitFlow.flow[..], sides[0]) >= FlowValue(g, old(unitFlow.flow[..]), old(sides[0])) + if wasFlowAugmented then 1 else 0
    {
      hide *;
      var d, other := Dir(piercedSide), 1 - piercedSide;
      DirFacts(piercedSide);
      wasFlowAugmented := false;
      var targetHit := true;
      ghost var value0 := FlowValue(g, unitFlow.flow[..], sides[0]);
      SameSidesRefl(sides);
      SoundIsFlow(g, unitFlow.flow[..], sides[0], sides[1]);
      ValueBounded(g, unitFlow.flow[..], sides[0]);
      while targetHit
        invariant Shaped() && Sound(g, unitFlow.flow[..], sides[0], sides[1]) && SameSides(old(sides), sides)
        invariant targetHit ==> Pierced(sides[piercedSide])
        invariant !targetHit ==> Reached(g, unitFlow.flow[..], d, sides[piercedSide])
        invariant !targetHit ==> sides[piercedSide].reachable.inside !! sides[other].assimilated.inside
        invariant sides[other] == old(sides[other])
        invariant !wasFlowAugmented ==> unitFlow.flow[..] == old(unitFlow.flow[..])
        invariant sides[piercedSide].assimilated == old(sides)[piercedSide].assimilated
        invariant wasFlowAugmented ==>
          Leads(g, old(unitFlow.flow[..]), d, old(sides)[piercedSide].assimilated.inside, sides[other].assimilated.inside)
        invariant value0 + (if wasFlowAugmented then 1 else 0) <= FlowValue(g, unitFlow.flow[..], sides[0]) <= g.ArcCount()
        decreases g.ArcCount() - FlowValue(g, unitFlow.flow[..], sides[0]), if targetHit then 1 else 0
      {
        ghost var f0, sides0 := unitFlow.flow[..], sides;
        var mine, target := sides[piercedSide], sides[other].assimilated.inside;
        MakePair(sides[0], sides[1], piercedSide, mine, sides[other]);
        PiercedFacts(g, f0, sides[0], sides[1], piercedSide, mine, sides[other]);
        var hit, nodes, pred, arcs;
        ghost var rank;
        hit, nodes, pred, arcs, rank := Search(mine.reachable, d, target, predecessor[piercedSide]);
        predecessor := predecessor[piercedSide := pred];
        Reshape();
        if hit.Some? {
          ghost var start := mine.assimilated.extraNode.value;
          HitLeads(g, f0, d, mine.assimilated.inside, start, target, nodes, pred, rank, hit.value);
          AugmentPath(mine.assimilated.inside, start, hit.value, d, pred, target, nodes, rank);
          AugmentKeeps(g, f0, unitFlow.flow[..], sides[0], sides[1], piercedSide, mine, sides[other], nodes, pred, rank, hit.value);
          sides := sides[piercedSide := mine.(reachable := mine.assimilated)];
          SameSidesReset(sides0, piercedSide, sides);
          Reshape();
          wasFlowAugmented := true;
        } else {
          SearchedReach(g, unitFlow.flow[..], sides[0], sides[1], piercedSide, mine, sides[other], nodes, pred, rank, arcs);
          sides := sides[piercedSide := mine.(reachable := nodes.(extraNode := None))];
          SameSidesReset(sides0, piercedSide, sides);
          Reshape();
          targetHit := false;
        }
      }
      if wasFlowAugmented {
        ghost var sides0 := sides;
        var theirs := sides[other];
        OtherFacts(g, unitFlow.flow[..], sides[0], sides[1], other, theirs);
        var hit, nodes, pred, arcs;
        ghost var rank;
        hit, nodes, pred, arcs, rank := Search(theirs.assimilated, Dir(other), {}, predecessor[other]);
        predecessor := predecessor[other := pred];
        Reshape();
        NoTargetNoHit(g, unitFlow.flow[..], Dir(other), theirs.assimilated.inside, theirs.assimilated.extraNode.value, nodes, pred, rank, hit);
        MakePair(sides[0], sides[1], other, theirs, sides[piercedSide]);
        SearchedReach(g, unitFlow.flow[..], sides[0], sides[1], other, theirs, sides[piercedSide], nodes, pred, rank, arcs);
        sides := sides[other := theirs.(reachable := nodes.(extraNode := None))];
        SameSidesReset(sides0, other, sides);
        Reshape();
      }
    }

    /** The side with the smaller reachable set takes over everything it reaches; its cut front follows. */
    method GrowAssimilatedSets()
      requires Shaped() && Sound(g, unitFlow.flow[..], sides[0], sides[1])
      requires sides[0].assimilated.CanGrow() && sides[1].assimilated.CanGrow()
      modifies this`sides, this`predecessor, space
      ensures Shaped() && Taken(g, unitFlow.flow[..], old(sides), sides, GrownSide(old(sides)[0], old(sides)[1]))
      ensures if old(sides)[0].reachable.nodeCountInside <= old(sides)[1].reachable.nodeCountInside then sides[1] == old(sides)[1] else sides[0] == old(sides)[0]
      ensures forall i :: 0 <= i < 2 ==> old(sides)[i].assimilated.inside <= sides[i].assimilated.inside
      ensures Known(g, unitFlow.flow[..], old(sides)[0], old(sides)[1]) ==>
        Ready() && FlowValue(g, unitFlow.flow[..], sides[0]) == FlowValue(g, unitFlow.flow[..], old(sides)[0])
    {
      hide *;
      var k := GrownSide(sides[0], sides[1]);
      SmallerSide(sides[0], sides[1]);
      var mine, other := sides[k], sides[1 - k];
      ghost var f := unitFlow.flow[..];
      DirFacts(k);
      MakePair(sides[0], sides[1], k, mine, other);
      OtherFacts(g, f, sides[0], sides[1], k, mine);
      SoundFor(g, f, sides[0], sides[1], k, mine, other);
      var hit, nodes, pred, arcs;
      ghost var rank;
      hit, nodes, pred, arcs, rank := Search(mine.assimilated, Dir(k), {}, predecessor[k]);
      NoTargetNoHit(g, f, Dir(k), mine.assimilated.inside, mine.assimilated.extraNode.value, nodes, pred, rank, hit);
      FrontArcs(g, unitFlow.flow[..], mine, other, k, nodes, pred, rank, arcs);
      var flowing := HasFlow(arcs);
      var front := ShrinkCutFront(mine.front + flowing, nodes.inside);
      var grown := Side(nodes.(extraNode := None), front, mine.reachable);
      GrownReach(g, f, Dir(k), mine, nodes, pred, rank, arcs);
      if Known(g, f, sides[0], sides[1]) {
        KnownParts(g, f, sides[0], sides[1]);
        GrowsSide(g, f, sides[0], sides[1], k, mine, other, nodes, pred, rank, arcs, grown);
      }
      ghost var before := sides;
      sides := sides[k := grown];
      MakeTaken(g, f, before, sides, k);
      Reshape();
      if Known(g, f, before[0], before[1]) {
        MakeReady();
      }
    }

    lemma NotReady()
      requires Shaped() && !Stable(g, unitFlow.flow[..], sides[0], sides[1])
      ensures !Ready()
    {
    }

    lemma MakeReady()
      requires Shaped() && Stable(g, unitFlow.flow[..], sides[0], sides[1])
      ensures Ready()
    {
    }

    /** The arcs that carry flow. */
    method HasFlow(arcs: seq<nat>) returns (flowing: seq<nat>)
      requires forall a :: a in arcs ==> a < unitFlow.flow.Length
      ensures flowing == WithFlow(unitFlow.flow[..], arcs)
    {
      flowing := [];
      for i := 0 to |arcs|
        invariant flowing == WithFlow(unitFlow.flow[..], arcs[..i])
      {
        assert arcs[i] in arcs && arcs[..i + 1][..i] == arcs[..i];
        if unitFlow.flow[arcs[i]] != 1 {
          flowing := flowing + [arcs[i]];
        }
      }
      assert arcs[..|arcs|] == arcs;
    }

    /** Drops the arcs whose head is inside by now. */
    method ShrinkCutFront(front0: seq<nat>, inside: set<nat>) returns (front: seq<nat>)
      requires g.Valid() && forall a :: a in front0 ==> a < g.ArcCount()
      ensures front == Leaving(g, inside, front0)
    {
      front := front0;
      var j := 0;
      for i := 0 to |front|
        invariant 0 <= j <= i <= |front| == |front0|
        invariant front[..j] == Leaving(g, inside, front0[..i])
        invariant forall t :: i <= t < |front| ==> front[t] == front0[t]
      {
        assert front0[i] in front0 && front0[..i + 1][..i] == front0[..i];
        if g.head[front[i]] !in inside {
          front := front[j := front[i]];
          j := j + 1;
        }
      }
      assert front0[..|front|] == front0;
      front := front[..j];
    }

    /**
      A maximum flow between source and target, and the minimum cut around the smaller side, exactly when a path leads
      from the source to the target. Otherwise no flow is found and the target's reachable set is never grown.
    */
    method Init(source: nat, target: nat)
      requires Shaped() && source < g.nodeCount && target < g.nodeCount && source != target
      modifies this, space, unitFlow.flow
      ensures Shaped() && cutAvailable
      ensures Ready() <==> Connected(g, source, target)
      ensures source in sides[0].assimilated.inside && target in sides[1].assimilated.inside
      ensures !Connected(g, source, target) ==> Apart(g, unitFlow.flow[..], sides, source, target)
    {
      hide *;
      unitFlow.Clear();
      var s, t := EmptySet(), EmptySet();
      EmptyIs();
      s, t := s.SetExtraNode(source), t.SetExtraNode(target);
      sides := [Side(s, [], s), Side(t, [], t)];
      Reshape();
      ZeroIs(g, unitFlow.flow[..]);
      ghost var pierced := sides;
      InitSound(g, unitFlow.flow[..], source, target, sides[0], sides[1]);
      ghost var zero := unitFlow.flow[..];
      var augmented := GrowReachableSets(0);
      DirValues();
      StillPending(pierced, sides, 0);
      AugmentedIfConnected(g, zero, unitFlow.flow[..], source, target, pierced[0], sides[0], sides[1], augmented);
      if augmented {
        BothReached(g, unitFlow.flow[..], sides[0], sides[1], 0);
        MakeKnown(g, unitFlow.flow[..], sides[0], sides[1]);
      }
      ghost var grown := sides;
      GrowAssimilatedSets();
      cutAvailable := true;
      if !augmented {
        TargetPending(g, unitFlow.flow[..], grown, sides, source, target);
        NotReady();
      }
    }

    /** The side whose reachable nodes are all its own; the smaller one if both are. */
    method GetCurrentCutSide() returns (side: nat)
      requires Ready()
      ensures side < 2 && side == GrownSide(sides[0], sides[1]) && Grown(sides[side])
      ensures side == 0 <==> sides[0].reachable.nodeCountInside <= sides[1].reachable.nodeCountInside
    {
      if sides[0].reachable.nodeCountInside == sides[0].assimilated.nodeCountInside
        && (sides[1].reachable.nodeCountInside != sides[1].assimilated.nodeCountInside
            || sides[0].assimilated.nodeCountInside <= sides[1].assimilated.nodeCountInside) {
        side := 0;
      } else {
        side := 1;
      }
      CurrentSide(g, unitFlow.flow[..], sides[0], sides[1]);
    }

    /**
      The first best scored node behind the cut front that the other side does not own; none if no such node scores
      more than the smallest 32-bit number.
    */
    method SelectPierceNode(side: nat, score: (nat, nat, bool) -> int) returns (pierceNode: Option<nat>)
      requires Shaped() && side < 2 && FrontOk(g, sides[side].assimilated.Explored(), sides[side].front)
      ensures pierceNode.Some? ==> FirstBest(g, sides, side, score, pierceNode.value)
      ensures pierceNode.None? <==> forall y :: Pierceable(g, sides, side, y) ==> NodeScore(sides, side, score, y) <= -0x8000_0000
      ensures (forall y: nat, b: bool :: score(y, side, b) > -0x8000_0000) ==> (pierceNode.None? <==> forall y :: !Pierceable(g, sides, side, y))
    {
      pierceNode := None;
      var maxScore := MIN_SCORE;
      var front := sides[side].front;
      ghost var at: nat := 0;
      for i := 0 to |front|
        invariant pierceNode.Some? ==> at < i && OutsideArc(g, sides, side, front[at]) && pierceNode.value == g.head[front[at]]
        invariant pierceNode.Some? ==> maxScore == NodeScore(sides, side, score, pierceNode.value) > -0x8000_0000
        invariant pierceNode.None? ==> maxScore == MIN_SCORE == -0x8000_0000
        invariant forall k: nat :: k < i && OutsideArc(g, sides, side, front[k]) ==> NodeScore(sides, side, score, g.head[front[k]]) <= maxScore
        invariant pierceNode.Some? ==>
          forall k: nat :: k < at && OutsideArc(g, sides, side, front[k]) ==> NodeScore(sides, side, score, g.head[front[k]]) < maxScore
      {
        assert front[i] in front;
        assert g.ArcOk(front[i]);
        var y := g.head[front[i]];
        if y !in sides[1 - side].assimilated.inside {
          var s := score(y, side, y in sides[1 - side].reachable.inside);
          if s > maxScore {
            maxScore := s;
            pierceNode := Some(y);
            at := i;
          }
        }
      }
      PiercedArc(g, sides, side, score, pierceNode, at, maxScore);
    }

    /** Whether the next step finds a larger cut, or none at all. */
    method DoesNextAdvanceIncreaseCut(score: (nat, nat, bool) -> int) returns (increases: bool)
      requires Ready()
      ensures increases <==>
        var side := GrownSide(sides[0], sides[1]);
        !CanPierce(g, sides, side, score) || exists p: nat :: FirstBest(g, sides, side, score, p) && p in sides[1 - side].reachable.inside
    {
      hide *;
      ReadyParts();
      var side := GetCurrentCutSide();
      CanPierceIs(g, sides, side, score);
      if sides[side].assimilated.nodeCountInside >= g.nodeCount / 2 { return true; }
      StableFront(g, unitFlow.flow[..], sides[0], sides[1], side);
      var pierceNode := SelectPierceNode(side, score);
      if pierceNode.Some? {
        BestPierceable(g, sides, side, score, pierceNode.value);
        OneBest(g, sides, side, score, pierceNode.value);
      }
      return pierceNode.None? || pierceNode.value in sides[1 - side].reachable.inside;
    }

    /**
      Pierces the cut and grows on: each step adds a node to the sides, and the cut grows exactly when the
      other side reaches the pierced node.
    */
    method Advance(score: (nat, nat, bool) -> int) returns (found: bool)
      requires Ready() && cutAvailable
      modifies this, space, unitFlow.flow
      ensures Ready() && cutAvailable == found
      ensures !found ==> sides == old(sides) && unitFlow.flow[..] == old(unitFlow.flow[..])
      ensures found <==> CanPierce(g, old(sides), GrownSide(old(sides)[0], old(sides)[1]), score)
      ensures (forall y: nat, k: nat, b: bool :: score(y, k, b) > -0x8000_0000) ==>
        var side := GrownSide(old(sides)[0], old(sides)[1]);
        !found <==> old(sides)[side].assimilated.nodeCountInside >= g.nodeCount / 2 || forall y :: !Pierceable(g, old(sides), side, y)
      ensures FlowValue(g, unitFlow.flow[..], sides[0]) >= FlowValue(g, old(unitFlow.flow[..]), old(sides)[0])
      ensures found ==>
        var side := GrownSide(old(sides)[0], old(sides)[1]);
        exists p: nat :: FirstBest(g, old(sides), side, score, p) && p in sides[side].assimilated.inside &&
          (FlowValue(g, unitFlow.flow[..], sides[0]) > FlowValue(g, old(unitFlow.flow[..]), old(sides)[0]) <==> p in old(sides)[1 - side].reachable.inside)
      ensures forall i :: 0 <= i < 2 ==> old(sides)[i].assimilated.inside <= sides[i].assimilated.inside
      ensures found ==> exists i :: 0 <= i < 2 && old(sides)[i].assimilated.inside != sides[i].assimilated.inside
    {
      hide *;
      ReadyParts();
      var side := GetCurrentCutSide();
      CanPierceIs(g, sides, side, score);
      ScoresAbove(g, sides, side, score);
      if sides[side].assimilated.nodeCountInside >= g.nodeCount / 2 {
        cutAvailable := false;
        return false;
      }
      StableFront(g, unitFlow.flow[..], sides[0], sides[1], side);
      var pierceNode := SelectPierceNode(side, score);
      if pierceNode.None? {
        cutAvailable := false;
        return false;
      }
      ghost var before, f0 := sides, unitFlow.flow[..];
      var p := pierceNode.value;
      BestPierceable(g, sides, side, score, p);
      PierceFacts(g, f0, sides, side, p);
      var mine := sides[side];
      sides := sides[side := Side(mine.assimilated.SetExtraNode(p), mine.front, mine.reachable.SetExtraNode(p))];
      Reshape();
      PierceSound(g, f0, before, sides, side, p);
      ghost var pierced := sides;
      var augmented := GrowReachableSets(side);
      OtherStillReached(g, f0, unitFlow.flow[..], before, pierced, sides, side, augmented);
      DirValues();
      PierceAugments(g, f0, unitFlow.flow[..], before, pierced, sides, side, p, augmented);
      BothReached(g, unitFlow.flow[..], sides[0], sides[1], side);
      MakeKnown(g, unitFlow.flow[..], sides[0], sides[1]);
      GrowsSince(before, pierced, sides, side, p);
      StillPending(pierced, sides, side);
      if !augmented { SameValue(g, f0, pierced[0], sides[0]); }
      GrowAssimilatedSets();
      cutAvailable := true;
      found := true;
    }

    lemma ReadyParts()
      requires Ready()
      ensures Shaped() && Stable(g, unitFlow.flow[..], sides[0], sides[1])
    {
    }
  }

  const MIN_SCORE: int := -0x8000_0000

  lemma SmallerSide(s0: Side, s1: Side)
    ensures GrownSide(s0, s1) == 0 <==> s0.reachable.nodeCountInside <= s1.reachable.nodeCountInside
  {
  }

  /** The score of a node, given whether the other side reaches it. */
  function NodeScore(sides: seq<Side>, side: nat, score: (nat, nat, bool) -> int, y: nat): int
    requires |sides| == 2 && side < 2
  {
    score(y, side, y in sides[1 - side].reachable.inside)
  }

  /** The arc ends at a node that the other side does not own. */
  predicate OutsideArc(g: Graph, sides: seq<Side>, side: nat, a: nat)
    requires |sides| == 2 && side < 2
  {
    a < |g.head| && g.head[a] !in sides[1 - side].assimilated.inside
  }

  /** `p` is the head of the first arc of the front whose node scores best, and more than the smallest 32-bit number. */
  ghost predicate FirstBest(g: Graph, sides: seq<Side>, side: nat, score: (nat, nat, bool) -> int, p: nat)
    requires |sides| == 2 && side < 2
  {
    NodeScore(sides, side, score, p) > -0x8000_0000 &&
    exists i: nat :: i < |sides[side].front| && BestAt(g, sides, side, score, p, i)
  }

  ghost predicate BestAt(g: Graph, sides: seq<Side>, side: nat, score: (nat, nat, bool) -> int, p: nat, i: nat)
    requires |sides| == 2 && side < 2 && i < |sides[side].front|
  {
    var front := sides[side].front;
    && OutsideArc(g, sides, side, front[i]) && g.head[front[i]] == p
    && (forall k: nat :: k < |front| && OutsideArc(g, sides, side, front[k]) ==>
          NodeScore(sides, side, score, g.head[front[k]]) <= NodeScore(sides, side, score, p))
    && (forall k: nat :: k < i && OutsideArc(g, sides, side, front[k]) ==>
          NodeScore(sides, side, score, g.head[front[k]]) < NodeScore(sides, side, score, p))
  }

  /** The side owns less than half of the nodes, and some node behind its front scores more than the smallest 32-bit number. */
  ghost predicate CanPierce(g: Graph, sides: seq<Side>, side: nat, score: (nat, nat, bool) -> int)
    requires g.Valid() && |sides| == 2 && side < 2
  {
    sides[side].assimilated.nodeCountInside < g.nodeCount / 2 &&
    exists y :: Pierceable(g, sides, side, y) && NodeScore(sides, side, score, y) > -0x8000_0000
  }

  lemma CanPierceIs(g: Graph, sides: seq<Side>, side: nat, score: (nat, nat, bool) -> int)
    requires g.Valid() && |sides| == 2 && side < 2
    ensures CanPierce(g, sides, side, score) <==>
      sides[side].assimilated.nodeCountInside < g.nodeCount / 2 &&
      !(forall y :: Pierceable(g, sides, side, y) ==> NodeScore(sides, side, score, y) <= -0x8000_0000)
  {
    hide Pierceable, NodeScore;
  }

  lemma ScoresAbove(g: Graph, sides: seq<Side>, side: nat, score: (nat, nat, bool) -> int)
    requires g.Valid() && |sides| == 2 && side < 2
    ensures (forall y: nat, k: nat, b: bool :: score(y, k, b) > -0x8000_0000) ==>
      (CanPierce(g, sides, side, score) <==>
        sides[side].assimilated.nodeCountInside < g.nodeCount / 2 && exists y :: Pierceable(g, sides, side, y))
  {
    hide Pierceable;
  }

  lemma BestPierceable(g: Graph, sides: seq<Side>, side: nat, score: (nat, nat, bool) -> int, p: nat)
    requires g.Valid() && |sides| == 2 && side < 2 && FirstBest(g, sides, side, score, p)
    ensures Pierceable(g, sides, side, p)
  {
  }

  /** The choice is unique. */
  lemma OneBest(g: Graph, sides: seq<Side>, side: nat, score: (nat, nat, bool) -> int, p: nat)
    requires |sides| == 2 && side < 2 && FirstBest(g, sides, side, score, p)
    ensures forall q: nat :: FirstBest(g, sides, side, score, q) ==> q == p
  {
    hide NodeScore, OutsideArc;
    forall q: nat | FirstBest(g, sides, side, score, q)
      ensures q == p
    {
      var i: nat :| i < |sides[side].front| && BestAt(g, sides, side, score, p, i);
      var j: nat :| j < |sides[side].front| && BestAt(g, sides, side, score, q, j);
    }
  }

  lemma PiercedArc(g: Graph, sides: seq<Side>, side: nat, score: (nat, nat, bool) -> int, pierceNode: Option<nat>, at: nat, maxScore: int)
    requires g.Valid() && |sides| == 2 && side < 2
    requires var front := sides[side].front;
      && (pierceNode.Some? ==> at < |front| && OutsideArc(g, sides, side, front[at]) && pierceNode.value == g.head[front[at]])
      && (pierceNode.Some? ==> maxScore == NodeScore(sides, side, score, pierceNode.value) > -0x8000_0000)
      && (pierceNode.None? ==> maxScore == -0x8000_0000)
      && (forall k: nat :: k < |front| && OutsideArc(g, sides, side, front[k]) ==> NodeScore(sides, side, score, g.head[front[k]]) <= maxScore)
      && (pierceNode.Some? ==> forall k: nat :: k < at && OutsideArc(g, sides, side, front[k]) ==> NodeScore(sides, side, score, g.head[front[k]]) < maxScore)
    ensures pierceNode.Some? ==> FirstBest(g, sides, side, score, pierceNode.value) && Pierceable(g, sides, side, pierceNode.value)
    ensures pierceNode.None? <==> forall y :: Pierceable(g, sides, side, y) ==> NodeScore(sides, side, score, y) <= -0x8000_0000
  {
    var front := sides[side].front;
    if pierceNode.Some? {
      assert BestAt(g, sides, side, score, pierceNode.value, at);
      assert Pierceable(g, sides, side, pierceNode.value);
    }
    forall y | Pierceable(g, sides, side, y)
      ensures NodeScore(sides, side, score, y) <= maxScore
    {
      var a: nat :| a in front && a < g.ArcCount() && g.head[a] == y;
      var k: nat :| k < |front| && front[k] == a;
      assert OutsideArc(g, sides, side, front[k]);
    }
  }

  /** The flow grows exactly when the other side reached the pierced node. */
  lemma PierceAugments(g: Graph, f0: seq<int>, f: seq<int>, before: seq<Side>, pierced: seq<Side>, sides: seq<Side>, side: nat, p: nat, augmented: bool)
    requires g.Valid() && |before| == |pierced| == |sides| == 2 && side < 2 && Stable(g, f0, before[0], before[1])
    requires side == GrownSide(before[0], before[1]) && p !in before[side].assimilated.inside && p < g.nodeCount
    requires before[side].assimilated.extraNode.None? && pierced[side].assimilated == before[side].assimilated.SetExtraNode(p)
    requires pierced[1 - side] == before[1 - side] && SameSides(pierced, sides)
    requires Reached(g, f, Dir(side), sides[side]) && sides[side].reachable.inside !! sides[1 - side].assimilated.inside
    requires augmented ==> Leads(g, f0, Dir(side), pierced[side].assimilated.inside, sides[1 - side].assimilated.inside)
    requires !augmented ==> f == f0
    ensures augmented <==> p in before[1 - side].reachable.inside
  {
    hide *;
    DirFacts(side);
    PiercedReach(g, f0, before, pierced, sides, side, p);
    var d, base, r, b, t := Dir(side), pierced[side].assimilated.inside, sides[side].reachable.inside, before[1 - side].assimilated.inside, before[1 - side].reachable.inside;
    if augmented && p !in t {
      MissedApart(g, f0, d, base, b, t);
      assert false;
    }
    if !augmented {
      InReach(g, f, d, sides[side], p);
      ReachesApart(g, f0, d, base, r, b, t);
    }
  }

  lemma PiercedReach(g: Graph, f0: seq<int>, before: seq<Side>, pierced: seq<Side>, sides: seq<Side>, side: nat, p: nat)
    requires g.Valid() && |before| == |pierced| == |sides| == 2 && side < 2 && Stable(g, f0, before[0], before[1])
    requires p !in before[side].assimilated.inside && p < g.nodeCount
    requires before[side].assimilated.extraNode.None? && pierced[side].assimilated == before[side].assimilated.SetExtraNode(p)
    requires pierced[1 - side] == before[1 - side] && SameSides(pierced, sides)
    ensures IsFlow(g, f0) && IsReach(g, f0, -Dir(side), before[1 - side].assimilated.inside, before[1 - side].reachable.inside)
    ensures sides[1 - side].assimilated == before[1 - side].assimilated && sides[side].assimilated == pierced[side].assimilated
    ensures p in sides[side].assimilated.inside
    ensures var b := before[1 - side].assimilated.inside; forall x :: x in b ==> x < g.nodeCount
    ensures forall x :: x in pierced[side].assimilated.inside ==> x < g.nodeCount
    ensures p !in before[1 - side].reachable.inside ==> pierced[side].assimilated.inside !! before[1 - side].reachable.inside
  {
    hide IsReach, ClosedIn, FrontOk, Conserved, IsFlow, GrownSide;
    ReachCovers(g, f0, 1, before[0]);
    ReachCovers(g, f0, -1, before[1]);
  }

  lemma ReachCovers(g: Graph, f: seq<int>, d: int, s: Side)
    requires g.Valid() && Reached(g, f, d, s)
    ensures s.assimilated.inside <= s.reachable.inside
  {
    hide ClosedIn;
  }

  lemma InReach(g: Graph, f: seq<int>, d: int, s: Side, p: nat)
    requires g.Valid() && Reached(g, f, d, s)
    ensures IsReach(g, f, d, s.assimilated.inside, s.reachable.inside)
    ensures p in s.assimilated.inside ==> p in s.reachable.inside
  {
    hide ClosedIn;
  }

  /** From outside of what reaches `b` no residual arc leads there. */
  lemma MissedApart(g: Graph, f: seq<int>, d: int, base: set<nat>, b: set<nat>, t: set<nat>)
    requires g.Valid() && IsFlow(g, f) && (d == 1 || d == -1) && IsReach(g, f, -d, b, t)
    requires base !! t && forall x :: x in base ==> x < g.nodeCount
    ensures !Leads(g, f, d, base, b)
  {
    hide IsFlow, ClosedIn;
    var c := Range(g.nodeCount) - t;
    ComplementClosed(g, f, -d, t, c);
    assert Above(g, f, d, base, c) && c !! b;
  }

  /** A node behind the cut front of `side` that the other side does not own. */
  ghost predicate Pierceable(g: Graph, sides: seq<Side>, side: nat, y: nat)
    requires g.Valid() && |sides| == 2 && side < 2
  {
    && y !in sides[1 - side].assimilated.inside
    && exists a: nat :: a in sides[side].front && a < g.ArcCount() && g.head[a] == y
  }

  /** A path of arcs leads from the source to the target: every set closed under arcs that holds one holds the other. */
  ghost predicate Connected(g: Graph, source: nat, target: nat)
    requires g.Valid()
  {
    forall c: set<nat> :: source in c && ArcClosed(g, c) ==> target in c
  }

  ghost predicate ArcClosed(g: Graph, c: set<nat>)
    requires g.Valid()
  {
    forall a: nat :: a < g.ArcCount() && g.tail[a] in c ==> g.ArcOk(a) && g.head[a] in c
  }

  function WithFlow(f: seq<int>, arcs: seq<nat>): seq<nat> {
    if arcs == [] then []
    else
      var a := arcs[|arcs| - 1];
      WithFlow(f, arcs[..|arcs| - 1]) + if a < |f| && f[a] != 1 then [a] else []
  }

  function Leaving(g: Graph, inside: set<nat>, arcs: seq<nat>): seq<nat> {
    if arcs == [] then []
    else
      var a := arcs[|arcs| - 1];
      Leaving(g, inside, arcs[..|arcs| - 1]) + if a < |g.head| && g.head[a] !in inside then [a] else []
  }

  /** Only the reachable sets differ. */
  ghost predicate SameSides(a: seq<Side>, b: seq<Side>) {
    && |a| == |b| == 2
    && (forall i :: 0 <= i < 2 ==> a[i].assimilated == b[i].assimilated && a[i].front == b[i].front)
  }

  lemma SameSidesRefl(a: seq<Side>)
    requires |a| == 2
    ensures SameSides(a, a)
  {
  }

  lemma SameSidesReset(a: seq<Side>, i: nat, b: seq<Side>)
    requires |a| == 2 && i < 2 && |b| == 2 && b[1 - i] == a[1 - i]
    requires b[i].assimilated == a[i].assimilated && b[i].front == a[i].front
    ensures SameSides(a, b) && forall c: seq<Side> :: SameSides(c, a) ==> SameSides(c, b)
  {
    if i == 0 {
      assert b[1] == a[1];
    } else {
      assert i == 1 && b[0] == a[0];
    }
  }

  ghost predicate Pair(s0: Side, s1: Side, p: nat, mine: Side, other: Side) {
    p < 2 && mine == (if p == 0 then s0 else s1) && other == (if p == 0 then s1 else s0)
  }

  lemma MakePair(s0: Side, s1: Side, p: nat, mine: Side, other: Side)
    requires p < 2 && mine == (if p == 0 then s0 else s1) && other == (if p == 0 then s1 else s0)
    ensures Pair(s0, s1, p, mine, other)
  {
  }

  /** `Sound`, seen from either side. */
  lemma SoundFor(g: Graph, f: seq<int>, s0: Side, s1: Side, p: nat, mine: Side, other: Side)
    requires g.Valid() && Pair(s0, s1, p, mine, other)
    ensures Sound(g, f, s0, s1) <==>
      && IsFlow(g, f) && SideOk(g, f, Dir(p), mine) && SideOk(g, f, -Dir(p), other)
      && mine.assimilated.inside !! other.assimilated.inside
      && Conserved(g, f, mine.assimilated.inside + other.assimilated.inside)
  {
    hide IsFlow, SideOk;
    var a, b := s0.assimilated.inside, s1.assimilated.inside;
    assert a + b == b + a;
  }

  lemma SideFacts(g: Graph, f: seq<int>, d: int, s: Side)
    requires g.Valid() && SideOk(g, f, d, s)
    ensures s.assimilated.Valid(g.nodeCount) && ClosedIn(g, f, d, s.assimilated.Explored(), s.assimilated.inside)
    ensures forall r: NodeSet :: r.nodeCountInside == |r.inside| ==> SideOk(g, f, d, s.(reachable := r))
  {
    hide ClosedIn, FrontOk;
  }

  lemma PiercedFacts(g: Graph, f: seq<int>, s0: Side, s1: Side, p: nat, mine: Side, other: Side)
    requires g.Valid() && Sound(g, f, s0, s1) && Pair(s0, s1, p, mine, other) && Pierced(mine)
    ensures mine.reachable == mine.assimilated && mine.assimilated.Valid(g.nodeCount) && mine.assimilated.CanGrow() && mine.assimilated.extraNode.Some?
    ensures mine.assimilated.inside !! other.assimilated.inside && IsFlow(g, f)
  {
    hide IsFlow, ClosedIn, FrontOk, Conserved;
  }

  lemma ValueBounded(g: Graph, f: seq<int>, s0: Side)
    requires g.Valid() && IsFlow(g, f)
    ensures FlowValue(g, f, s0) <= g.ArcCount()
  {
    SurplusIsCutFlow(g, f, s0.assimilated.inside);
    SubsetSize(g.Cut(s0.assimilated.inside), Range(g.ArcCount()));
  }

  lemma SoundIsFlow(g: Graph, f: seq<int>, s0: Side, s1: Side)
    requires g.Valid() && Sound(g, f, s0, s1)
    ensures IsFlow(g, f)
  {
    hide IsFlow, SideOk, Conserved;
  }

  /** An augmentation keeps the state sound and raises the flow value by one. */
  lemma AugmentKeeps(g: Graph, f0: seq<int>, f: seq<int>, s0: Side, s1: Side, p: nat, mine: Side, other: Side, nodes: NodeSet, pred: seq<nat>, rank: map<nat, nat>, hit: nat)
    requires g.Valid() && Sound(g, f0, s0, s1) && Pair(s0, s1, p, mine, other) && Pierced(mine) && mine.assimilated.extraNode.Some?
    requires Hit(g, f0, Dir(p), mine.assimilated.inside, mine.assimilated.extraNode.value, other.assimilated.inside, nodes, pred, rank, hit)
    requires IsFlow(g, f) && OnlyRanked(g, f0, f, rank) && SurplusMoved(g, f0, f, Dir(p), mine.assimilated.extraNode.value, hit)
    ensures var mine' := mine.(reachable := mine.assimilated);
            Pierced(mine') && Sound(g, f, if p == 0 then mine' else s0, if p == 0 then s1 else mine')
    ensures FlowValue(g, f, if p == 0 then mine.(reachable := mine.assimilated) else s0) == FlowValue(g, f0, s0) + 1 <= g.ArcCount()
  {
    hide *;
    PairBound(s0, s1, p, mine, other);
    DirFacts(p);
    var start, base, d := mine.assimilated.extraNode.value, mine.assimilated.inside, Dir(p);
    SoundFor(g, f0, s0, s1, p, mine, other);
    SideFacts(g, f0, d, mine);
    SideFacts(g, f0, -d, other);
    HitIsPending(g, f0, d, base, start, other.assimilated, nodes, pred, rank, hit);
    HitEnds(g, f0, d, mine.assimilated, other.assimilated, nodes, pred, rank, hit);
    ExploredKept(g, f0, f, d, rank, mine.assimilated.Explored(), base);
    ExploredKept(g, f0, f, -d, rank, other.assimilated.Explored(), other.assimilated.inside);
    SideKept(g, f0, f, d, mine);
    SideKept(g, f0, f, -d, other);
    SideFacts(g, f, d, mine);
    ConservedKept(g, f0, f, d, start, hit, base + other.assimilated.inside);
    var mine' := mine.(reachable := mine.assimilated);
    ResetPierced(g, mine);
    var t0, t1 := if p == 0 then mine' else s0, if p == 0 then s1 else mine';
    PairAgain(s0, s1, t0, t1, p, mine, other, mine');
    SoundFor(g, f, t0, t1, p, mine', other);
    ValueMoved(g, f0, f, s0, s1, p, mine, other, start, hit);
    ValueBounded(g, f, t0);
    SameValue(g, f, s0, t0);
  }

  lemma PairBound(s0: Side, s1: Side, p: nat, mine: Side, other: Side)
    requires Pair(s0, s1, p, mine, other)
    ensures p < 2
  {
  }

  lemma SameValue(g: Graph, f: seq<int>, s0: Side, t0: Side)
    requires g.Valid() && s0.assimilated == t0.assimilated
    ensures FlowValue(g, f, s0) == FlowValue(g, f, t0)
  {
    hide Surplus;
  }

  lemma HitEnds(g: Graph, f: seq<int>, d: int, mine: NodeSet, other: NodeSet, nodes: NodeSet, pred: seq<nat>, rank: map<nat, nat>, hit: nat)
    requires g.Valid() && mine.extraNode.Some? && Hit(g, f, d, mine.inside, mine.extraNode.value, other.inside, nodes, pred, rank, hit)
    ensures mine.extraNode.value in mine.inside + other.inside && hit in mine.inside + other.inside && hit in other.inside
    ensures mine.Explored() !! rank.Keys && mine.extraNode.value in mine.inside
  {
    hide Least;
  }

  lemma SideKept(g: Graph, f0: seq<int>, f: seq<int>, d: int, s: Side)
    requires g.Valid() && SideOk(g, f0, d, s) && ClosedIn(g, f, d, s.assimilated.Explored(), s.assimilated.inside)
    ensures SideOk(g, f, d, s)
  {
    hide ClosedIn, FrontOk;
  }

  lemma ResetPierced(g: Graph, s: Side)
    requires Pierced(s) && s.assimilated.Valid(g.nodeCount)
    ensures Pierced(s.(reachable := s.assimilated)) && s.assimilated.nodeCountInside == |s.assimilated.inside|
  {
  }

  lemma PairAgain(s0: Side, s1: Side, t0: Side, t1: Side, p: nat, mine: Side, other: Side, mine': Side)
    requires Pair(s0, s1, p, mine, other) && t0 == (if p == 0 then mine' else s0) && t1 == (if p == 0 then s1 else mine')
    requires mine'.assimilated == mine.assimilated
    ensures Pair(t0, t1, p, mine', other) && t0.assimilated == s0.assimilated && t1.assimilated == s1.assimilated
  {
  }

  lemma ValueMoved(g: Graph, f0: seq<int>, f: seq<int>, s0: Side, s1: Side, p: nat, mine: Side, other: Side, start: nat, hit: nat)
    requires g.Valid() && Pair(s0, s1, p, mine, other) && SurplusMoved(g, f0, f, Dir(p), start, hit)
    requires start in mine.assimilated.inside && hit in other.assimilated.inside && mine.assimilated.inside !! other.assimilated.inside
    ensures FlowValue(g, f, s0) == FlowValue(g, f0, s0) + 1
  {
    hide Surplus;
    var a := s0.assimilated.inside;
    assert Surplus(g, f, a) == Surplus(g, f0, a) + Dir(p) * (In(a, start) - In(a, hit));
  }

  /** A search that ran out leaves the pierced side with what it reaches, apart from the other side. */
  lemma SearchedReach(g: Graph, f: seq<int>, s0: Side, s1: Side, p: nat, mine: Side, other: Side, nodes: NodeSet, pred: seq<nat>, rank: map<nat, nat>, arcs: seq<nat>)
    requires g.Valid() && Sound(g, f, s0, s1) && Pair(s0, s1, p, mine, other) && mine.assimilated.CanGrow()
    requires exists target: set<nat> ::
      (target == other.assimilated.inside || target == {})
      && Complete(g, f, Dir(p), mine.assimilated.inside, mine.assimilated.extraNode.value, target, nodes, pred, rank, arcs)
    ensures var mine' := mine.(reachable := nodes.(extraNode := None));
            && Reached(g, f, Dir(p), mine') && Sound(g, f, if p == 0 then mine' else s0, if p == 0 then s1 else mine')
            && FlowValue(g, f, if p == 0 then mine' else s0) == FlowValue(g, f, s0)
    ensures Complete(g, f, Dir(p), mine.assimilated.inside, mine.assimilated.extraNode.value, other.assimilated.inside, nodes, pred, rank, arcs) ==>
      nodes.inside !! other.assimilated.inside
  {
    var target :| (target == other.assimilated.inside || target == {})
      && Complete(g, f, Dir(p), mine.assimilated.inside, mine.assimilated.extraNode.value, target, nodes, pred, rank, arcs);
    hide *;
    PairBound(s0, s1, p, mine, other);
    DirFacts(p);
    SoundFor(g, f, s0, s1, p, mine, other);
    SideFacts(g, f, Dir(p), mine);
    FlowLength(g, f);
    CompleteIsReach(g, f, Dir(p), mine.assimilated, target, nodes, pred, rank, arcs);
    CompleteCount(g, f, Dir(p), mine.assimilated, target, nodes, pred, rank, arcs);
    var mine' := mine.(reachable := nodes.(extraNode := None));
    MakeReached(g, f, Dir(p), mine');
    var t0, t1 := if p == 0 then mine' else s0, if p == 0 then s1 else mine';
    PairAgain(s0, s1, t0, t1, p, mine, other, mine');
    SoundFor(g, f, t0, t1, p, mine', other);
    SameValue(g, f, s0, t0);
    CompleteApart(g, f, Dir(p), mine.assimilated, other.assimilated.inside, nodes, pred, rank, arcs);
  }

  lemma MakeReached(g: Graph, f: seq<int>, d: int, s: Side)
    requires g.Valid() && IsReach(g, f, d, s.assimilated.inside, s.reachable.inside) && s.reachable.extraNode == None
    ensures Reached(g, f, d, s)
  {
    hide IsReach;
  }

  lemma CompleteCount(g: Graph, f: seq<int>, d: int, nodes0: NodeSet, target: set<nat>, nodes: NodeSet, pred: seq<nat>, rank: map<nat, nat>, arcs: seq<nat>)
    requires g.Valid() && nodes0.CanGrow() && Complete(g, f, d, nodes0.inside, nodes0.extraNode.value, target, nodes, pred, rank, arcs)
    ensures nodes.nodeCountInside == |nodes.inside| && forall x :: x in nodes.inside ==> x < g.nodeCount
    ensures rank.Keys == nodes.inside - nodes0.inside + {nodes0.extraNode.value} && nodes0.inside <= nodes.inside
    ensures Listed(g, rank.Keys, arcs)
  {
    hide Least, AllFollowed, Listed;
  }

  lemma CompleteApart(g: Graph, f: seq<int>, d: int, nodes0: NodeSet, target: set<nat>, nodes: NodeSet, pred: seq<nat>, rank: map<nat, nat>, arcs: seq<nat>)
    requires g.Valid() && nodes0.CanGrow() && nodes0.inside !! target
    ensures Complete(g, f, d, nodes0.inside, nodes0.extraNode.value, target, nodes, pred, rank, arcs) ==> nodes.inside !! target
  {
    hide Least, AllFollowed, Listed, Tree;
  }

  lemma NoTargetNoHit(g: Graph, f: seq<int>, d: int, base: set<nat>, start: nat, nodes: NodeSet, pred: seq<nat>, rank: map<nat, nat>, hit: Option<nat>)
    requires g.Valid() && (hit.Some? ==> Hit(g, f, d, base, start, {}, nodes, pred, rank, hit.value))
    ensures hit.None?
  {
    hide Least, Tree;
  }

  lemma OtherFacts(g: Graph, f: seq<int>, s0: Side, s1: Side, p: nat, mine: Side)
    requires g.Valid() && Sound(g, f, s0, s1) && p < 2 && mine == (if p == 0 then s0 else s1) && mine.assimilated.CanGrow()
    ensures mine.assimilated.Valid(g.nodeCount) && mine.assimilated.extraNode.Some?
  {
    hide ClosedIn, FrontOk;
  }

  lemma DirFacts(side: nat)
    requires side < 2
    ensures (Dir(side) == 1 || Dir(side) == -1) && Dir(1 - side) == -Dir(side) && (side == 0 <==> Dir(side) == 1)
  {
  }

  lemma PredSize(g: Graph, f: seq<int>, d: int, base: set<nat>, start: nat, target: set<nat>, nodes: NodeSet, pred: seq<nat>, rank: map<nat, nat>, arcs: seq<nat>, hit: Option<nat>)
    requires g.Valid()
    requires hit.None? ==> Complete(g, f, d, base, start, target, nodes, pred, rank, arcs)
    requires hit.Some? ==> Hit(g, f, d, base, start, target, nodes, pred, rank, hit.value)
    ensures |pred| == g.nodeCount
  {
    hide Least, AllFollowed, Listed;
  }

  lemma FlowLength(g: Graph, f: seq<int>)
    requires g.Valid() && IsFlow(g, f)
    ensures |f| == g.ArcCount() == |g.tail| == |g.head|
  {
  }

  lemma StartAugment(g: Graph, f: seq<int>, d: int, base: set<nat>, start: nat, target: set<nat>, nodes: NodeSet, pred: seq<nat>, rank: map<nat, nat>, hit: nat)
    requires g.Valid() && IsFlow(g, f) && Hit(g, f, d, base, start, target, nodes, pred, rank, hit)
    ensures SurplusMoved(g, f, f, d, hit, hit) && OnlyRanked(g, f, f, rank) && Untouched(g, f, f, rank, hit) && hit in rank
  {
    hide Surplus, Tree, Least;
  }

  lemma TreeStep(g: Graph, f: seq<int>, d: int, base: set<nat>, start: nat, target: set<nat>, nodes: NodeSet, pred: seq<nat>, rank: map<nat, nat>, hit: nat, x: nat)
    requires g.Valid() && Hit(g, f, d, base, start, target, nodes, pred, rank, hit) && x in rank && x !in base
    ensures x < |pred| && pred[x] < g.ArcCount() == |g.tail| == |g.head| && g.head[pred[x]] == x && Residual(f, d, pred[x])
    ensures g.tail[pred[x]] in rank && rank[g.tail[pred[x]]] < rank[x]
  {
    hide Least, Residual;
    assert TreeArc(g, f, d, x, pred, rank);
  }

  lemma OnlyStartInBase(g: Graph, f: seq<int>, d: int, base: set<nat>, start: nat, target: set<nat>, nodes: NodeSet, pred: seq<nat>, rank: map<nat, nat>, hit: nat, x: nat)
    requires g.Valid() && Hit(g, f, d, base, start, target, nodes, pred, rank, hit) && x in rank && x in base
    ensures x == start
  {
    hide Least;
  }

  // ---------- Growing the smaller side ----------

  lemma ReachUnique(g: Graph, f: seq<int>, d: int, s: set<nat>, r: set<nat>, t: set<nat>)
    requires g.Valid() && IsReach(g, f, d, s, r) && IsReach(g, f, d, s, t)
    ensures r == t
  {
  }

  lemma {:induction false} WithFlowHolds(f: seq<int>, arcs: seq<nat>)
    requires forall a :: a in arcs ==> a < |f|
    ensures forall a: nat :: a in WithFlow(f, arcs) <==> a in arcs && f[a] != 1
    ensures NoDup(arcs) ==> NoDup(WithFlow(f, arcs))
  {
    if arcs != [] {
      var init, x := arcs[..|arcs| - 1], arcs[|arcs| - 1];
      assert arcs == init + [x];
      assert forall a :: a in init ==> a in arcs;
      WithFlowHolds(f, init);
    }
  }

  lemma {:induction false} LeavingHolds(g: Graph, inside: set<nat>, arcs: seq<nat>)
    requires forall a :: a in arcs ==> a < |g.head|
    ensures forall a: nat :: a in Leaving(g, inside, arcs) <==> a in arcs && g.head[a] !in inside
    ensures NoDup(arcs) ==> NoDup(Leaving(g, inside, arcs))
  {
    if arcs != [] {
      var init, x := arcs[..|arcs| - 1], arcs[|arcs| - 1];
      assert arcs == init + [x];
      assert forall a :: a in init ==> a in arcs;
      LeavingHolds(g, inside, init);
    }
  }

  lemma DistinctConcat(s: seq<nat>, t: seq<nat>)
    requires NoDup(s) && NoDup(t) && forall x: nat :: x in s ==> x !in t
    ensures NoDup(s + t)
  {
    forall i, j | 0 <= i < |s| && 0 <= j < |t|
      ensures s[i] != t[j]
    {
      assert s[i] in s && t[j] in t;
    }
  }

  lemma FrontArcs(g: Graph, f: seq<int>, mine: Side, other: Side, k: nat, nodes: NodeSet, pred: seq<nat>, rank: map<nat, nat>, arcs: seq<nat>)
    requires g.Valid() && IsFlow(g, f) && SideOk(g, f, Dir(k), mine) && mine.assimilated.CanGrow()
    requires Complete(g, f, Dir(k), mine.assimilated.inside, mine.assimilated.extraNode.value, {}, nodes, pred, rank, arcs)
    ensures forall a :: a in arcs ==> a < |f| == g.ArcCount()
    ensures forall a :: a in mine.front + WithFlow(f, arcs) ==> a < g.ArcCount() == |g.head|
  {
    CompleteCount(g, f, Dir(k), mine.assimilated, {}, nodes, pred, rank, arcs);
    FlowLength(g, f);
    assert forall a :: a in arcs ==> a < |f|;
    WithFlowHolds(f, arcs);
    hide ClosedIn, Complete, IsFlow, Graph.Valid;
  }

  /** Growing a closed side gives exactly the arcs of its cut. */
  lemma GrownFront(g: Graph, f: seq<int>, d: int, mine: Side, inside: set<nat>, arcs: seq<nat>, front: seq<nat>)
    requires g.Valid() && IsFlow(g, f) && (d == 1 || d == -1) && ClosedIn(g, f, d, inside, inside)
    requires FrontOk(g, mine.assimilated.Explored(), mine.front) && mine.assimilated.Explored() <= inside
    requires Listed(g, inside - mine.assimilated.Explored(), arcs)
    requires (forall a :: a in arcs ==> a < |f|) && forall a :: a in mine.front + WithFlow(f, arcs) ==> a < |g.head|
    requires front == Leaving(g, inside, mine.front + WithFlow(f, arcs))
    ensures FrontOk(g, inside, front)
  {
    var e, all := mine.assimilated.Explored(), mine.front + WithFlow(f, arcs);
    WithFlowHolds(f, arcs);
    DistinctConcat(mine.front, WithFlow(f, arcs));
    LeavingHolds(g, inside, all);
    forall a: nat
      ensures a in front <==> a < g.ArcCount() && g.tail[a] in inside && g.head[a] !in inside
    {
      if a < g.ArcCount() && g.tail[a] in inside && g.head[a] !in inside {
        assert !Residual(f, d, a) && g.ArcOk(a);
        assert f[a] != 1;
      }
    }
  }

  lemma ExploredRank(s: NodeSet, inside: set<nat>, rank: map<nat, nat>)
    requires s.extraNode.Some? && s.extraNode.value in s.inside && s.inside <= inside
    requires rank.Keys == inside - s.inside + {s.extraNode.value}
    ensures rank.Keys == inside - s.Explored() && s.Explored() <= inside
  {
  }

  lemma GrownSideOk(g: Graph, f: seq<int>, d: int, mine: Side, nodes: NodeSet, pred: seq<nat>, rank: map<nat, nat>, arcs: seq<nat>, grown: Side)
    requires g.Valid() && IsFlow(g, f) && (d == 1 || d == -1) && SideOk(g, f, d, mine) && Reached(g, f, d, mine) && mine.assimilated.CanGrow()
    requires Complete(g, f, d, mine.assimilated.inside, mine.assimilated.extraNode.value, {}, nodes, pred, rank, arcs)
    requires (forall a :: a in arcs ==> a < |f|) && forall a :: a in mine.front + WithFlow(f, arcs) ==> a < |g.head|
    requires grown == Side(nodes.(extraNode := None), Leaving(g, nodes.inside, mine.front + WithFlow(f, arcs)), mine.reachable)
    ensures SideOk(g, f, d, grown) && Reached(g, f, d, grown) && Grown(grown)
    ensures mine.assimilated.inside <= grown.assimilated.inside
  {
    hide *;
    SideFacts(g, f, d, mine);
    FlowLength(g, f);
    CompleteIsReach(g, f, d, mine.assimilated, {}, nodes, pred, rank, arcs);
    CompleteCount(g, f, d, mine.assimilated, {}, nodes, pred, rank, arcs);
    ReachedFacts(g, f, d, mine, nodes.inside);
    ReachUnique(g, f, d, mine.assimilated.inside, nodes.inside, mine.reachable.inside);
    PendingFacts(g, f, d, mine);
    ExploredRank(mine.assimilated, nodes.inside, rank);
    GrownFront(g, f, d, mine, nodes.inside, arcs, grown.front);
    GrownFacts(g, f, d, mine, nodes, grown);
  }

  lemma ReachedFacts(g: Graph, f: seq<int>, d: int, s: Side, inside: set<nat>)
    requires g.Valid() && Reached(g, f, d, s) && IsReach(g, f, d, s.assimilated.inside, inside)
    ensures IsReach(g, f, d, s.assimilated.inside, s.reachable.inside) && s.reachable.extraNode.None?
    ensures ClosedIn(g, f, d, inside, inside)
  {
    hide ClosedIn;
  }

  lemma PendingFacts(g: Graph, f: seq<int>, d: int, s: Side)
    requires g.Valid() && SideOk(g, f, d, s) && s.assimilated.CanGrow()
    ensures s.assimilated.extraNode.Some? && s.assimilated.extraNode.value in s.assimilated.inside
    ensures FrontOk(g, s.assimilated.Explored(), s.front) && s.assimilated.inside != {}
    ensures s.reachable.nodeCountInside == |s.reachable.inside|
  {
    hide ClosedIn, FrontOk;
  }

  lemma GrownFacts(g: Graph, f: seq<int>, d: int, mine: Side, nodes: NodeSet, grown: Side)
    requires g.Valid() && ClosedIn(g, f, d, nodes.inside, nodes.inside) && nodes.inside == mine.reachable.inside
    requires grown.assimilated == nodes.(extraNode := None) && grown.reachable == mine.reachable && FrontOk(g, nodes.inside, grown.front)
    requires nodes.nodeCountInside == |nodes.inside| && (forall x :: x in nodes.inside ==> x < g.nodeCount)
    requires mine.assimilated.inside != {} && mine.assimilated.inside <= nodes.inside
    requires mine.reachable.nodeCountInside == |mine.reachable.inside| && mine.reachable.extraNode.None?
    ensures SideOk(g, f, d, grown) && Reached(g, f, d, grown) && Grown(grown)
  {
    hide ClosedIn, FrontOk;
    assert Above(g, f, d, nodes.inside, nodes.inside);
  }

  lemma GrowsSide(g: Graph, f: seq<int>, s0: Side, s1: Side, k: nat, mine: Side, other: Side, nodes: NodeSet, pred: seq<nat>, rank: map<nat, nat>, arcs: seq<nat>, grown: Side)
    requires g.Valid() && Sound(g, f, s0, s1) && Reached(g, f, 1, s0) && Reached(g, f, -1, s1) && s0.reachable.inside !! s1.reachable.inside
    requires k == GrownSide(s0, s1) && Pair(s0, s1, k, mine, other) && mine.assimilated.CanGrow() && other.assimilated.CanGrow()
    requires Complete(g, f, Dir(k), mine.assimilated.inside, mine.assimilated.extraNode.value, {}, nodes, pred, rank, arcs)
    requires (forall a :: a in arcs ==> a < |f|) && forall a :: a in mine.front + WithFlow(f, arcs) ==> a < |g.head|
    requires grown == Side(nodes.(extraNode := None), Leaving(g, nodes.inside, mine.front + WithFlow(f, arcs)), mine.reachable)
    ensures var t0, t1 := if k == 0 then grown else s0, if k == 0 then s1 else grown;
            Stable(g, f, t0, t1) && FlowValue(g, f, t0) == FlowValue(g, f, s0)
            && s0.assimilated.inside <= t0.assimilated.inside && s1.assimilated.inside <= t1.assimilated.inside
  {
    hide *;
    var t0, t1 := if k == 0 then grown else s0, if k == 0 then s1 else grown;
    PairBound(s0, s1, k, mine, other);
    DirFacts(k);
    SoundFor(g, f, s0, s1, k, mine, other);
    PairReached(g, f, s0, s1, k, mine, other);
    GrownSideOk(g, f, Dir(k), mine, nodes, pred, rank, arcs, grown);
    GrownApart(g, f, s0, s1, k, mine, other, grown);
    ConservedMore(g, f, mine.assimilated.inside + other.assimilated.inside, grown.assimilated.inside + other.assimilated.inside);
    PairGrown(s0, s1, t0, t1, k, mine, other, grown);
    SoundFor(g, f, t0, t1, k, grown, other);
    ValueGrown(g, f, s0, s1, t0, t1);
    MakeStable(g, f, t0, t1, k, grown, other);
  }

  lemma PairReached(g: Graph, f: seq<int>, s0: Side, s1: Side, k: nat, mine: Side, other: Side)
    requires g.Valid() && Pair(s0, s1, k, mine, other) && Reached(g, f, 1, s0) && Reached(g, f, -1, s1)
    ensures Reached(g, f, Dir(k), mine) && Reached(g, f, -Dir(k), other)
  {
    hide Reached;
  }

  lemma GrownApart(g: Graph, f: seq<int>, s0: Side, s1: Side, k: nat, mine: Side, other: Side, grown: Side)
    requires g.Valid() && Pair(s0, s1, k, mine, other) && s0.reachable.inside !! s1.reachable.inside
    requires Grown(grown) && grown.reachable == mine.reachable && Reached(g, f, -Dir(k), other)
    ensures grown.assimilated.inside !! other.assimilated.inside
  {
    hide ClosedIn;
  }

  lemma ConservedMore(g: Graph, f: seq<int>, sides: set<nat>, more: set<nat>)
    requires g.Valid() && Conserved(g, f, sides) && sides <= more
    ensures Conserved(g, f, more)
  {
    hide Surplus;
  }

  lemma PairGrown(s0: Side, s1: Side, t0: Side, t1: Side, k: nat, mine: Side, other: Side, grown: Side)
    requires Pair(s0, s1, k, mine, other) && t0 == (if k == 0 then grown else s0) && t1 == (if k == 0 then s1 else grown)
    requires grown.reachable == mine.reachable && mine.assimilated.inside <= grown.assimilated.inside
    ensures Pair(t0, t1, k, grown, other) && GrownSide(t0, t1) == GrownSide(s0, s1)
    ensures s0.assimilated.inside <= t0.assimilated.inside && s1.assimilated.inside <= t1.assimilated.inside
    ensures t0.reachable == s0.reachable && t1.reachable == s1.reachable
  {
  }

  /** Taking over conserved nodes does not change the flow value. */
  lemma ValueGrown(g: Graph, f: seq<int>, s0: Side, s1: Side, t0: Side, t1: Side)
    requires g.Valid() && Sound(g, f, s0, s1) && Sound(g, f, t0, t1)
    requires s0.assimilated.inside <= t0.assimilated.inside && s1.assimilated.inside <= t1.assimilated.inside
    ensures FlowValue(g, f, t0) == FlowValue(g, f, s0)
  {
    SoundBelow(g, f, t0, t1);
    hide SideOk, Conserved, IsFlow, Surplus;
    assert t0.assimilated.inside !! s1.assimilated.inside;
    FlowBoundsCuts(g, f, s0.assimilated.inside, s1.assimilated.inside, t0.assimilated.inside);
  }

  lemma SoundBelow(g: Graph, f: seq<int>, s0: Side, s1: Side)
    requires g.Valid() && Sound(g, f, s0, s1)
    ensures forall x :: x in s0.assimilated.inside ==> x < g.nodeCount
    ensures forall x :: x in s1.assimilated.inside ==> x < g.nodeCount
  {
    hide ClosedIn, FrontOk, Conserved, IsFlow;
  }

  lemma MakeStable(g: Graph, f: seq<int>, s0: Side, s1: Side, k: nat, mine: Side, other: Side)
    requires g.Valid() && Sound(g, f, s0, s1) && Pair(s0, s1, k, mine, other) && k == GrownSide(s0, s1)
    requires Reached(g, f, Dir(k), mine) && Reached(g, f, -Dir(k), other) && s0.reachable.inside !! s1.reachable.inside
    requires Grown(mine) && other.assimilated.CanGrow()
    ensures Stable(g, f, s0, s1)
  {
    hide Sound, Reached;
  }

  lemma DirValues()
    ensures Dir(0) == 1 && Dir(1) == -1
  {
  }

  lemma BothReached(g: Graph, f: seq<int>, s0: Side, s1: Side, p: nat)
    requires g.Valid() && p < 2 && Sound(g, f, s0, s1)
    requires Reached(g, f, Dir(p), if p == 0 then s0 else s1) && Reached(g, f, Dir(1 - p), if p == 0 then s1 else s0)
    requires (if p == 0 then s0 else s1).reachable.inside !! (if p == 0 then s1 else s0).assimilated.inside
    ensures Reached(g, f, 1, s0) && Reached(g, f, -1, s1) && s0.reachable.inside !! s1.reachable.inside
  {
    SoundBelow(g, f, s0, s1);
    SoundIsFlow(g, f, s0, s1);
    hide Sound, IsReach;
    if p == 0 {
      ReachesApart(g, f, 1, s0.assimilated.inside, s0.reachable.inside, s1.assimilated.inside, s1.reachable.inside);
    } else {
      ReachesApart(g, f, -1, s1.assimilated.inside, s1.reachable.inside, s0.assimilated.inside, s0.reachable.inside);
    }
  }

  // ---------- Starting ----------

  lemma EmptyIs()
    ensures EmptySet() == NodeSet(0, {}, None)
    ensures forall x: nat :: EmptySet().SetExtraNode(x) == NodeSet(1, {x}, Some(x))
  {
    assert forall x: nat :: {} + {x} == {x};
  }

  lemma ZeroIs(g: Graph, f: seq<int>)
    requires |f| == g.ArcCount() && forall a :: 0 <= a < |f| ==> f[a] == 1
    ensures IsZero(g, f)
  {
  }

  lemma StillPending(a: seq<Side>, b: seq<Side>, p: nat)
    requires SameSides(a, b) && p < 2 && Pierced(a[p]) && a[1 - p].assimilated.CanGrow()
    ensures |b| == 2 && b[0].assimilated.CanGrow() && b[1].assimilated.CanGrow()
    ensures b[0].assimilated == a[0].assimilated && b[1].assimilated == a[1].assimilated
  {
  }

  ghost predicate IsZero(g: Graph, f: seq<int>) {
    |f| == g.ArcCount() && forall a :: 0 <= a < |f| ==> f[a] == 1
  }

  lemma {:induction false} ZeroSum(f: seq<int>, s: set<nat>)
    requires forall a :: 0 <= a < |f| ==> f[a] == 1
    ensures Sum(Value(f), s) == 0
  {
    if s != {} {
      var a :| a in s;
      SumAny(Value(f), s, a);
      ZeroSum(f, s - {a});
    }
  }

  lemma ZeroFlow(g: Graph, f: seq<int>, sides: set<nat>)
    requires g.Valid() && IsZero(g, f)
    ensures IsFlow(g, f) && Conserved(g, f, sides)
  {
    forall a | 0 <= a < |f|
      ensures g.ArcOk(a) && 0 <= f[a] <= 2 && f[g.backArc[a]] == 2 - f[a]
    {
      assert g.ArcOk(a);
    }
    forall x | 0 <= x < g.nodeCount && x !in sides
      ensures Surplus(g, f, {x}) == 0
    {
      ZeroSum(f, g.OutArcs({x}));
    }
  }

  lemma SingleSide(g: Graph, f: seq<int>, d: int, x: nat, s: Side)
    requires g.Valid() && x < g.nodeCount && s == Side(NodeSet(1, {x}, Some(x)), [], NodeSet(1, {x}, Some(x)))
    ensures SideOk(g, f, d, s) && Pierced(s)
  {
    assert s.assimilated.Explored() == {};
  }

  lemma InitSound(g: Graph, f: seq<int>, source: nat, target: nat, s0: Side, s1: Side)
    requires g.Valid() && IsZero(g, f) && source < g.nodeCount && target < g.nodeCount && source != target
    requires s0 == Side(NodeSet(1, {source}, Some(source)), [], NodeSet(1, {source}, Some(source)))
    requires s1 == Side(NodeSet(1, {target}, Some(target)), [], NodeSet(1, {target}, Some(target)))
    ensures Sound(g, f, s0, s1) && Pierced(s0) && s1.assimilated.CanGrow()
  {
    ZeroFlow(g, f, s0.assimilated.inside + s1.assimilated.inside);
    SingleSide(g, f, 1, source, s0);
    SingleSide(g, f, -1, target, s1);
    hide SideOk, Conserved, IsFlow;
  }

  /** Both sides know what they reach, and neither reaches into the other. */
  ghost predicate Known(g: Graph, f: seq<int>, s0: Side, s1: Side)
    requires g.Valid()
  {
    Reached(g, f, 1, s0) && Reached(g, f, -1, s1) && s0.reachable.inside !! s1.reachable.inside
  }

  lemma MakeKnown(g: Graph, f: seq<int>, s0: Side, s1: Side)
    requires g.Valid() && Reached(g, f, 1, s0) && Reached(g, f, -1, s1) && s0.reachable.inside !! s1.reachable.inside
    ensures Known(g, f, s0, s1)
  {
  }

  lemma KnownParts(g: Graph, f: seq<int>, s0: Side, s1: Side)
    requires g.Valid() && Known(g, f, s0, s1)
    ensures Reached(g, f, 1, s0) && Reached(g, f, -1, s1) && s0.reachable.inside !! s1.reachable.inside
  {
  }

  /** Side `k` now owns what it reaches; nothing else has changed. */
  ghost predicate Taken(g: Graph, f: seq<int>, before: seq<Side>, after: seq<Side>, k: nat)
    requires g.Valid()
  {
    && |before| == |after| == 2 && k < 2 && after[1 - k] == before[1 - k]
    && after[k].reachable == before[k].reachable && after[k].assimilated.extraNode.None?
    && before[k].assimilated.inside <= after[k].assimilated.inside
    && IsReach(g, f, Dir(k), before[k].assimilated.inside, after[k].assimilated.inside)
  }

  lemma MakeTaken(g: Graph, f: seq<int>, before: seq<Side>, after: seq<Side>, k: nat)
    requires g.Valid() && |before| == 2 && k < 2 && |after| == 2 && after == before[k := after[k]]
    requires after[k].reachable == before[k].reachable && after[k].assimilated.extraNode.None?
    requires before[k].assimilated.inside <= after[k].assimilated.inside
    requires IsReach(g, f, Dir(k), before[k].assimilated.inside, after[k].assimilated.inside)
    ensures Taken(g, f, before, after, k)
    ensures forall i :: 0 <= i < 2 ==> before[i].assimilated.inside <= after[i].assimilated.inside
  {
    hide IsReach;
  }

  lemma GrownReach(g: Graph, f: seq<int>, d: int, mine: Side, nodes: NodeSet, pred: seq<nat>, rank: map<nat, nat>, arcs: seq<nat>)
    requires g.Valid() && IsFlow(g, f) && (d == 1 || d == -1) && SideOk(g, f, d, mine) && mine.assimilated.CanGrow()
    requires Complete(g, f, d, mine.assimilated.inside, mine.assimilated.extraNode.value, {}, nodes, pred, rank, arcs)
    ensures IsReach(g, f, d, mine.assimilated.inside, nodes.inside) && mine.assimilated.inside <= nodes.inside
  {
    hide *;
    SideFacts(g, f, d, mine);
    FlowLength(g, f);
    CompleteIsReach(g, f, d, mine.assimilated, {}, nodes, pred, rank, arcs);
    ReachContains(g, f, d, mine.assimilated.inside, nodes.inside);
  }

  lemma ReachContains(g: Graph, f: seq<int>, d: int, s: set<nat>, r: set<nat>)
    requires g.Valid() && IsReach(g, f, d, s, r)
    ensures s <= r
  {
  }

  /**
    The state after starting between unconnected nodes: no flow, and the target's reachable set still waits to be
    explored. If the source reaches any other node, the target's side owns all it reaches nevertheless.
  */
  ghost predicate Apart(g: Graph, f: seq<int>, sides: seq<Side>, source: nat, target: nat)
    requires g.Valid()
  {
    && |sides| == 2 && IsZero(g, f) && IsReach(g, f, 1, {source}, sides[0].reachable.inside)
    && sides[0].reachable.nodeCountInside == |sides[0].reachable.inside|
    && sides[1].reachable == NodeSet(1, {target}, Some(target))
    && (|sides[0].reachable.inside| > 1 ==>
          sides[0].assimilated.inside == {source} && IsReach(g, f, -1, {target}, sides[1].assimilated.inside))
  }

  /** An augmentation happens exactly when source and target are connected. */
  lemma AugmentedIfConnected(g: Graph, zero: seq<int>, f: seq<int>, source: nat, target: nat, start: Side, s0: Side, s1: Side, augmented: bool)
    requires g.Valid() && IsZero(g, zero) && (!augmented ==> f == zero) && source < g.nodeCount
    requires Sound(g, f, s0, s1) && start.assimilated.inside == {source}
    requires Reached(g, f, 1, s0) && s0.assimilated.inside == {source} && s1.assimilated.inside == {target}
    requires s0.reachable.inside !! s1.assimilated.inside
    requires augmented ==> FlowValue(g, f, s0) >= FlowValue(g, zero, start) + 1
    ensures augmented <==> Connected(g, source, target)
  {
    hide Sound, Reached, FlowValue;
    if Connected(g, source, target) {
      FirstAugmented(g, zero, f, source, target, s0, s1, augmented);
    } else if augmented {
      var c: set<nat> :| source in c && ArcClosed(g, c) && target !in c;
      SoundCut(g, f, s0, s1);
      NoValue(g, zero, start);
      ClosedCut(g, f, c, source, target);
      FlowValueIs(g, f, s0);
    }
  }

  lemma NoValue(g: Graph, zero: seq<int>, s: Side)
    requires g.Valid() && IsZero(g, zero)
    ensures FlowValue(g, zero, s) == 0
  {
    ZeroSum(zero, g.OutArcs(s.assimilated.inside));
  }

  /** A set without leaving arcs that separates the sides lets no flow through. */
  lemma ClosedCut(g: Graph, f: seq<int>, c: set<nat>, source: nat, target: nat)
    requires g.Valid() && IsFlow(g, f) && Conserved(g, f, {source} + {target}) && source < g.nodeCount
    requires source in c && ArcClosed(g, c) && target !in c
    ensures Surplus(g, f, {source}) <= 0
  {
    var s := set x | x in c && x < g.nodeCount;
    forall a: nat ensures a !in g.Cut(s) {
      if a < g.ArcCount() && g.tail[a] in s {
        assert g.ArcOk(a) && g.head[a] in c;
      }
    }
    assert g.Cut(s) == {};
    FlowBoundsCuts(g, f, {source}, {target}, s);
  }

  lemma TargetPending(g: Graph, f: seq<int>, before: seq<Side>, after: seq<Side>, source: nat, target: nat)
    requires g.Valid() && |before| == 2 && Taken(g, f, before, after, GrownSide(before[0], before[1])) && IsZero(g, f)
    requires Sound(g, f, before[0], before[1]) && Reached(g, f, 1, before[0])
    requires before[0].assimilated.inside == {source} && before[1].assimilated.inside == {target}
    requires before[1].reachable == NodeSet(1, {target}, Some(target))
    ensures Apart(g, f, after, source, target) && !Stable(g, f, after[0], after[1])
  {
    hide IsReach, ClosedIn, FrontOk, Conserved, IsFlow;
  }

  /** A connected pair forces at least one augmentation. */
  lemma FirstAugmented(g: Graph, zero: seq<int>, f: seq<int>, source: nat, target: nat, s0: Side, s1: Side, augmented: bool)
    requires g.Valid() && IsZero(g, zero) && Connected(g, source, target)
    requires !augmented ==> f == zero
    requires Reached(g, f, 1, s0) && source in s0.assimilated.inside && target in s1.assimilated.inside
    requires s0.reachable.inside !! s1.assimilated.inside
    ensures augmented
  {
    if !augmented {
      var c := s0.reachable.inside;
      forall a: nat | a < g.ArcCount() && g.tail[a] in c
        ensures g.ArcOk(a) && g.head[a] in c
      {
        assert g.ArcOk(a) && Residual(f, 1, a);
      }
      assert ArcClosed(g, c) && source in c;
      assert false;
    }
  }

  // ---------- The current side ----------

  lemma CurrentSide(g: Graph, f: seq<int>, s0: Side, s1: Side)
    requires g.Valid() && Stable(g, f, s0, s1)
    ensures GrownSide(s0, s1) == 0 <==>
      (s0.reachable.nodeCountInside == s0.assimilated.nodeCountInside
       && (s1.reachable.nodeCountInside != s1.assimilated.nodeCountInside || s0.assimilated.nodeCountInside <= s1.assimilated.nodeCountInside))
    ensures GrownSide(s0, s1) < 2 && Grown(if GrownSide(s0, s1) == 0 then s0 else s1)
  {
    Counts(g, f, 1, s0);
    Counts(g, f, -1, s1);
    hide Sound, Reached;
  }

  lemma Counts(g: Graph, f: seq<int>, d: int, s: Side)
    requires g.Valid() && SideOk(g, f, d, s) && Reached(g, f, d, s)
    ensures s.assimilated.nodeCountInside <= s.reachable.nodeCountInside
    ensures Grown(s) ==> s.assimilated.nodeCountInside == s.reachable.nodeCountInside
  {
    SubsetSize(s.assimilated.inside, s.reachable.inside);
    hide ClosedIn, FrontOk;
  }

  lemma StableParts(g: Graph, f: seq<int>, s0: Side, s1: Side)
    requires g.Valid() && Stable(g, f, s0, s1)
    ensures Sound(g, f, s0, s1) && Reached(g, f, 1, s0) && Reached(g, f, -1, s1) && GrownSide(s0, s1) < 2
    ensures Grown(if GrownSide(s0, s1) == 0 then s0 else s1) && (if GrownSide(s0, s1) == 0 then s1 else s0).assimilated.CanGrow()
    ensures s0.reachable.inside !! s1.reachable.inside
  {
    hide Sound, Reached;
  }

  lemma StableFront(g: Graph, f: seq<int>, s0: Side, s1: Side, side: nat)
    requires g.Valid() && Stable(g, f, s0, s1) && side == GrownSide(s0, s1)
    ensures side < 2 && FrontOk(g, (if side == 0 then s0 else s1).assimilated.Explored(), (if side == 0 then s0 else s1).front)
  {
    hide ClosedIn, FrontOk, Reached, Conserved;
  }

  // ---------- Piercing ----------

  lemma PierceFacts(g: Graph, f: seq<int>, sides: seq<Side>, side: nat, p: nat)
    requires g.Valid() && |sides| == 2 && Stable(g, f, sides[0], sides[1]) && side == GrownSide(sides[0], sides[1]) && Pierceable(g, sides, side, p)
    ensures side < 2 && p < g.nodeCount && p !in sides[1 - side].assimilated.inside
    ensures p !in sides[side].assimilated.inside && sides[side].assimilated.extraNode.None?
    ensures sides[side].reachable.inside == sides[side].assimilated.inside && sides[side].reachable.extraNode.None?
    ensures FrontOk(g, sides[side].assimilated.inside, sides[side].front)
    ensures sides[1 - side].assimilated.CanGrow()
  {
    StableFront(g, f, sides[0], sides[1], side);
    StableParts(g, f, sides[0], sides[1]);
    hide Stable, Sound, ClosedIn;
    var a: nat :| a in sides[side].front && a < g.ArcCount() && g.head[a] == p;
    assert g.ArcOk(a);
  }

  lemma PierceSound(g: Graph, f: seq<int>, before: seq<Side>, after: seq<Side>, side: nat, p: nat)
    requires g.Valid() && |before| == |after| == 2 && Stable(g, f, before[0], before[1]) && side == GrownSide(before[0], before[1])
    requires Pierceable(g, before, side, p) && after[1 - side] == before[1 - side]
    requires p !in before[side].assimilated.inside && before[side].assimilated.extraNode.None?
    requires p !in before[side].reachable.inside && before[side].reachable.extraNode.None?
    requires after[side] == Side(before[side].assimilated.SetExtraNode(p), before[side].front, before[side].reachable.SetExtraNode(p))
    ensures Sound(g, f, after[0], after[1]) && Pierced(after[side]) && after[1 - side].assimilated.CanGrow()
    ensures FlowValue(g, f, after[0]) == FlowValue(g, f, before[0])
  {
    hide *;
    PierceFacts(g, f, before, side, p);
    StableParts(g, f, before[0], before[1]);
    DirFacts(side);
    var mine, other, mine' := before[side], before[1 - side], after[side];
    MakePair(before[0], before[1], side, mine, other);
    MakePair(after[0], after[1], side, mine', other);
    SoundFor(g, f, before[0], before[1], side, mine, other);
    PiercedSideOk(g, f, Dir(side), mine, p, mine');
    PiercedInside(mine, p, mine', other);
    ConservedMore(g, f, mine.assimilated.inside + other.assimilated.inside, mine'.assimilated.inside + other.assimilated.inside);
    SoundFor(g, f, after[0], after[1], side, mine', other);
    ValueGrown(g, f, before[0], before[1], after[0], after[1]);
  }

  lemma PiercedSideOk(g: Graph, f: seq<int>, d: int, mine: Side, p: nat, mine': Side)
    requires g.Valid() && SideOk(g, f, d, mine) && p < g.nodeCount && FrontOk(g, mine.assimilated.inside, mine.front)
    requires p !in mine.assimilated.inside && mine.assimilated.extraNode.None? && mine.reachable.inside == mine.assimilated.inside && mine.reachable.extraNode.None?
    requires mine' == Side(mine.assimilated.SetExtraNode(p), mine.front, mine.reachable.SetExtraNode(p))
    ensures SideOk(g, f, d, mine') && Pierced(mine')
  {
    assert mine'.assimilated.Explored() == mine.assimilated.inside;
    ClosedWider(g, f, d, mine.assimilated.inside, mine'.assimilated.inside);
    hide ClosedIn, FrontOk;
  }

  lemma ClosedWider(g: Graph, f: seq<int>, d: int, s: set<nat>, t: set<nat>)
    requires g.Valid() && s <= t
    ensures ClosedIn(g, f, d, s, s) ==> ClosedIn(g, f, d, s, t)
  {
    hide Residual;
  }

  lemma PiercedInside(mine: Side, p: nat, mine': Side, other: Side)
    requires p !in mine.assimilated.inside && mine.assimilated.extraNode.None? && mine.reachable.extraNode.None? && p !in mine.reachable.inside
    requires mine' == Side(mine.assimilated.SetExtraNode(p), mine.front, mine.reachable.SetExtraNode(p))
    requires mine.assimilated.inside !! other.assimilated.inside && p !in other.assimilated.inside
    ensures mine'.assimilated.inside !! other.assimilated.inside && mine.assimilated.inside <= mine'.assimilated.inside
    ensures p in mine'.assimilated.inside
  {
  }

  lemma OtherStillReached(g: Graph, f0: seq<int>, f: seq<int>, before: seq<Side>, pierced: seq<Side>, sides: seq<Side>, side: nat, augmented: bool)
    requires g.Valid() && |before| == |pierced| == |sides| == 2 && side < 2 && Stable(g, f0, before[0], before[1])
    requires pierced[1 - side] == before[1 - side]
    requires augmented ==> Reached(g, f, Dir(1 - side), sides[1 - side])
    requires !augmented ==> f == f0 && sides[1 - side] == pierced[1 - side]
    ensures Reached(g, f, Dir(1 - side), sides[1 - side])
  {
    StableParts(g, f0, before[0], before[1]);
    hide Stable, Reached;
  }

  lemma GrowsSince(before: seq<Side>, pierced: seq<Side>, sides: seq<Side>, side: nat, p: nat)
    requires |before| == |pierced| == 2 && side < 2 && SameSides(pierced, sides) && pierced[1 - side] == before[1 - side]
    requires p !in before[side].assimilated.inside && before[side].assimilated.extraNode.None?
    requires pierced[side].assimilated == before[side].assimilated.SetExtraNode(p)
    ensures |sides| == 2 && forall i :: 0 <= i < 2 ==> before[i].assimilated.inside <= sides[i].assimilated.inside
    ensures p in sides[side].assimilated.inside
  {
    forall i | 0 <= i < 2
      ensures before[i].assimilated.inside <= sides[i].assimilated.inside
    {
      assert sides[i].assimilated == pierced[i].assimilated;
    }
  }

  // ---------- The current cut ----------

  lemma FrontIsCut(g: Graph, front: seq<nat>, inside: set<nat>)
    requires g.Valid() && FrontOk(g, inside, front)
    ensures Elements(front) == g.Cut(inside) && |front| == |g.Cut(inside)|
  {
    ElementsSize(front);
  }

  lemma {:induction false} SumConstant(w: nat -> int, s: set<nat>, c: int)
    requires forall a :: a in s ==> w(a) == c
    ensures Sum(w, s) == c * |s|
  {
    if s != {} {
      var a :| a in s;
      SumAny(w, s, a);
      SumConstant(w, s - {a}, c);
    }
  }

  /** Around a closed side every arc of the cut is saturated. */
  lemma SaturatedCut(g: Graph, f: seq<int>, d: int, s: set<nat>)
    requires g.Valid() && IsFlow(g, f) && (d == 1 || d == -1) && ClosedIn(g, f, d, s, s)
    ensures Surplus(g, f, s) == d * |g.Cut(s)|
  {
    forall a | a in g.Cut(s)
      ensures Value(f)(a) == d
    {
      assert g.ArcOk(a) && !Residual(f, d, a);
    }
    SurplusIsCutFlow(g, f, s);
    SumConstant(Value(f), g.Cut(s), d);
  }

  /** What leaves one side enters the other. */
  lemma SidesBalance(g: Graph, f: seq<int>, a: set<nat>, b: set<nat>)
    requires g.Valid() && IsFlow(g, f) && Conserved(g, f, a + b) && a !! b
    requires (forall x :: x in a ==> x < g.nodeCount) && forall x :: x in b ==> x < g.nodeCount
    ensures Surplus(g, f, a) == -Surplus(g, f, b)
  {
    var rest := Range(g.nodeCount) - (a + b);
    SurplusUnion(g, f, a, b);
    SurplusUnion(g, f, a + b, rest);
    ConservedSurplus(g, f, a + b, rest);
    AllArcs(g, f, a + b + rest);
  }

  lemma AllArcs(g: Graph, f: seq<int>, s: set<nat>)
    requires g.Valid() && IsFlow(g, f) && forall x: nat :: x < g.nodeCount ==> x in s
    ensures Surplus(g, f, s) == 0
  {
    forall a | a in g.OutArcs(s)
      ensures g.backArc[a] in g.OutArcs(s)
    {
      assert g.ArcOk(a);
      assert g.ArcOk(g.backArc[a]);
    }
    BackClosedCancels(g, f, g.OutArcs(s));
  }

  lemma StableCut(g: Graph, f: seq<int>, s0: Side, s1: Side, mine: Side)
    requires g.Valid() && Stable(g, f, s0, s1) && mine == (if GrownSide(s0, s1) == 0 then s0 else s1)
    ensures ClosedIn(g, f, Dir(GrownSide(s0, s1)), mine.assimilated.inside, mine.assimilated.inside)
    ensures FrontOk(g, mine.assimilated.inside, mine.front)
  {
    StableFront(g, f, s0, s1, GrownSide(s0, s1));
    StableParts(g, f, s0, s1);
    hide Stable, Sound, FrontOk;
  }

  /** The current cut carries the whole flow, and no cut between the two sides is smaller. */
  lemma CurrentCutIsMinimum(g: Graph, f: seq<int>, s0: Side, s1: Side, mine: Side)
    requires g.Valid() && Stable(g, f, s0, s1) && mine == (if GrownSide(s0, s1) == 0 then s0 else s1)
    ensures |mine.front| == FlowValue(g, f, s0)
    ensures Elements(mine.front) == g.Cut(mine.assimilated.inside) && NoDup(mine.front)
    ensures forall s: set<nat> :: s0.assimilated.inside <= s && s !! s1.assimilated.inside && (forall x :: x in s ==> x < g.nodeCount) ==>
      |mine.front| <= |g.Cut(s)|
  {
    hide *;
    StableParts(g, f, s0, s1);
    StableCut(g, f, s0, s1, mine);
    SoundCut(g, f, s0, s1);
    FrontIsCut(g, mine.front, mine.assimilated.inside);
    FrontDistinct(g, mine.front, mine.assimilated.inside);
    DirFacts(GrownSide(s0, s1));
    SaturatedCut(g, f, Dir(GrownSide(s0, s1)), mine.assimilated.inside);
    SidesBalance(g, f, s0.assimilated.inside, s1.assimilated.inside);
    FlowValueIs(g, f, s0);
    forall s: set<nat> | s0.assimilated.inside <= s && s !! s1.assimilated.inside && (forall x :: x in s ==> x < g.nodeCount)
      ensures |mine.front| <= |g.Cut(s)|
    {
      FlowBoundsCuts(g, f, s0.assimilated.inside, s1.assimilated.inside, s);
    }
  }

  lemma FrontDistinct(g: Graph, front: seq<nat>, inside: set<nat>)
    requires g.Valid() && FrontOk(g, inside, front)
    ensures NoDup(front)
  {
  }

  lemma FlowValueIs(g: Graph, f: seq<int>, s0: Side)
    requires g.Valid()
    ensures FlowValue(g, f, s0) == Surplus(g, f, s0.assimilated.inside)
  {
    hide Surplus;
  }

  lemma SoundCut(g: Graph, f: seq<int>, s0: Side, s1: Side)
    requires g.Valid() && Sound(g, f, s0, s1)
    ensures IsFlow(g, f) && Conserved(g, f, s0.assimilated.inside + s1.assimilated.inside) && s0.assimilated.inside !! s1.assimilated.inside
    ensures forall x :: x in s0.assimilated.inside ==> x < g.nodeCount
    ensures forall x :: x in s1.assimilated.inside ==> x < g.nodeCount
  {
    SoundBelow(g, f, s0, s1);
    hide SideOk, IsFlow, Conserved;
  }

  // ---------- An unconnected pair ----------

  /** Two edges, 0-1 and 2-3. */
  function TwoEdges(): Graph { Graph(4, [0, 1, 2, 3], [1, 0, 3, 2], [1, 0, 3, 2], [[0], [1], [2], [3]]) }

  lemma TwoEdgesFacts()
    ensures TwoEdges().Valid() && !Connected(TwoEdges(), 0, 2)
  {
    var g := TwoEdges();
    assert g.Valid() by { TwoEdgesValid(); }
    var c: set<nat> := {0, 1};
    hide Graph.Valid;
    assert ArcClosed(g, c);
  }

  lemma TwoEdgesValid()
    ensures TwoEdges().Valid()
  {
    var g := TwoEdges();
    forall a: nat | a < g.ArcCount() ensures g.ArcOk(a) {
    }
    forall x: nat | x < g.nodeCount ensures g.OutOk(x) {
      assert g.outArc[x] == [x] && g.tail[x] == x;
    }
    hide Graph.ArcOk, Graph.OutOk;
  }

  /** From `x` exactly `y` can be reached, along arc `a`. */
  lemma EdgeReach(g: Graph, f: seq<int>, d: int, x: nat, y: nat, a: nat, r: set<nat>)
    requires g == TwoEdges() && g.Valid() && IsZero(g, f) && (d == 1 || d == -1) && IsReach(g, f, d, {x}, r)
    requires (x == 0 && y == 1 && a == 0) || (x == 2 && y == 3 && a == 2)
    ensures r == {x, y}
  {
    var c: set<nat> := {x, y};
    assert Above(g, f, d, {x}, c);
    assert x in r && Residual(f, d, a) && g.tail[a] == x;
  }

  /** Started between 0 and 2 the cutter gives the target a node it does not count as reachable. */
  method StartApart() returns (cutter: BasicCutter)
    ensures fresh(cutter) && cutter.g == TwoEdges() && cutter.Shaped() && !cutter.Ready()
    ensures cutter.sides[1].assimilated.inside == {2, 3} && cutter.sides[1].reachable.inside == {2}
  {
    TwoEdgesFacts();
    cutter := new BasicCutter(TwoEdges(), true);
    cutter.Init(0, 2);
    var f := cutter.unitFlow.flow[..];
    EdgeReach(TwoEdges(), f, 1, 0, 1, 0, cutter.sides[0].reachable.inside);
    EdgeReach(TwoEdges(), f, -1, 2, 3, 2, cutter.sides[1].assimilated.inside);
  }
}
