/**
  Unit-capacity networks: every arc has a back arc, flow is antisymmetric, and the flow
  leaving a set of nodes is the flow across its cut.
*/
module FlowNetwork {
  import opened FiniteSets

  datatype Graph = Graph(nodeCount: nat, tail: seq<nat>, head: seq<nat>, backArc: seq<nat>, outArc: seq<seq<nat>>) {
    function ArcCount(): nat { |tail| }

    ghost predicate Valid()
      ensures Valid() ==> |head| == |tail| == |backArc| && |outArc| == nodeCount
    {
      && |head| == |tail| == |backArc| && |outArc| == nodeCount
      && (forall a :: 0 <= a < |tail| ==> ArcOk(a))
      && (forall x :: 0 <= x < nodeCount ==> OutOk(x))
    }

    /** The arcs listed at `x` are the arcs with tail `x`, once each. */
    ghost predicate OutOk(x: nat)
      requires x < |outArc|
    {
      NoDup(outArc[x]) && forall a: nat :: a in outArc[x] <==> a < |tail| && tail[a] == x
    }

    ghost predicate ArcOk(a: nat)
      requires a < |tail| && |head| == |tail| == |backArc|
    {
      && tail[a] < nodeCount && head[a] < nodeCount
      && backArc[a] < |tail| && backArc[a] != a && backArc[backArc[a]] == a
      && tail[backArc[a]] == head[a] && head[backArc[a]] == tail[a]
    }

    /** The arcs that leave a node of `s`. */
    ghost function OutArcs(s: set<nat>): (r: set<nat>)
      requires |head| == |tail|
      ensures forall a: nat :: a in r <==> a < |tail| && tail[a] in s
    {
      set a | 0 <= a < |tail| && tail[a] in s
    }

    /** The arcs from `s` to the other nodes. */
    ghost function Cut(s: set<nat>): (r: set<nat>)
      requires |head| == |tail|
      ensures forall a: nat :: a in r <==> a < |tail| && tail[a] in s && head[a] !in s
    {
      set a | 0 <= a < |tail| && tail[a] in s && head[a] !in s
    }

    ghost function Inner(s: set<nat>): (r: set<nat>)
      requires |head| == |tail|
      ensures forall a: nat :: a in r <==> a < |tail| && tail[a] in s && head[a] in s
    {
      set a | 0 <= a < |tail| && tail[a] in s && head[a] in s
    }
  }

  // ---------- Sums over arcs ----------

  ghost function Sum(w: nat -> int, s: set<nat>): int {
    if s == {} then 0
    else
      var a :| a in s;
      w(a) + Sum(w, s - {a})
  }

  lemma {:induction false} SumAny(w: nat -> int, s: set<nat>, b: nat)
    requires b in s
    ensures Sum(w, s) == w(b) + Sum(w, s - {b})
  {
    var a :| a in s && Sum(w, s) == w(a) + Sum(w, s - {a});
    if a != b {
      SumAny(w, s - {a}, b);
      SumAny(w, s - {b}, a);
      assert s - {a} - {b} == s - {b} - {a};
    }
  }

  lemma {:induction false} SumUnion(w: nat -> int, s: set<nat>, t: set<nat>)
    requires s !! t
    ensures Sum(w, s + t) == Sum(w, s) + Sum(w, t)
  {
    if s == {} {
      assert s + t == t;
    } else {
      var a :| a in s;
      SumAny(w, s, a);
      SumAny(w, s + t, a);
      assert s + t - {a} == (s - {a}) + t;
      SumUnion(w, s - {a}, t);
    }
  }

  lemma {:induction false} SumSame(w: nat -> int, v: nat -> int, s: set<nat>)
    requires forall a :: a in s ==> w(a) == v(a)
    ensures Sum(w, s) == Sum(v, s)
  {
    if s != {} {
      var a :| a in s;
      SumAny(w, s, a);
      SumAny(v, s, a);
      SumSame(w, v, s - {a});
    }
  }

  lemma {:induction false} SumAtMost(w: nat -> int, s: set<nat>)
    requires forall a :: a in s ==> w(a) <= 1
    ensures Sum(w, s) <= |s|
    ensures (forall a :: a in s ==> w(a) == 1) ==> Sum(w, s) == |s|
  {
    if s != {} {
      var a :| a in s;
      SumAny(w, s, a);
      SumAtMost(w, s - {a});
    }
  }

  // ---------- Unit flows ----------

  /** Stored flow: 0, 1 and 2 stand for -1, 0 and 1; a back arc carries the opposite. */
  ghost predicate IsFlow(g: Graph, f: seq<int>)
    requires g.Valid()
  {
    |f| == g.ArcCount() && forall a :: 0 <= a < |f| ==> g.ArcOk(a) && 0 <= f[a] <= 2 && f[g.backArc[a]] == 2 - f[a]
  }

  ghost function Value(f: seq<int>): nat -> int {
    (a: nat) => if a < |f| then f[a] - 1 else 0
  }

  /** The net flow out of the nodes of `s`. */
  ghost function Surplus(g: Graph, f: seq<int>, s: set<nat>): int
    requires g.Valid()
  {
    Sum(Value(f), g.OutArcs(s))
  }

  /** Arcs inside a set cancel out with their back arcs. */
  lemma {:induction false} BackClosedCancels(g: Graph, f: seq<int>, s: set<nat>)
    requires g.Valid() && IsFlow(g, f)
    requires forall a :: a in s ==> a < g.ArcCount() && g.backArc[a] in s
    ensures Sum(Value(f), s) == 0
  {
    if s != {} {
      var a :| a in s;
      assert g.ArcOk(a);
      var b := g.backArc[a];
      SumAny(Value(f), s, a);
      SumAny(Value(f), s - {a}, b);
      var r := s - {a} - {b};
      forall c | c in r
        ensures g.backArc[c] in r
      {
        assert g.ArcOk(c);
      }
      BackClosedCancels(g, f, r);
    }
  }

  lemma InnerCancels(g: Graph, f: seq<int>, s: set<nat>)
    requires g.Valid() && IsFlow(g, f)
    ensures Sum(Value(f), g.Inner(s)) == 0
  {
    forall a | a in g.Inner(s)
      ensures g.backArc[a] in g.Inner(s)
    {
      assert g.ArcOk(a);
    }
    BackClosedCancels(g, f, g.Inner(s));
  }

  /** The net flow out of a set is the flow across its cut. */
  lemma SurplusIsCutFlow(g: Graph, f: seq<int>, s: set<nat>)
    requires g.Valid() && IsFlow(g, f)
    ensures Surplus(g, f, s) == Sum(Value(f), g.Cut(s))
    ensures Surplus(g, f, s) <= |g.Cut(s)|
    ensures (forall a :: a in g.Cut(s) ==> f[a] == 2) ==> Surplus(g, f, s) == |g.Cut(s)|
  {
    InnerCancels(g, f, s);
    OutIsCutAndInner(g, s);
    CutFlow(g, f, s);
    hide *;
    SumUnion(Value(f), g.Cut(s), g.Inner(s));
  }

  lemma OutIsCutAndInner(g: Graph, s: set<nat>)
    requires g.Valid()
    ensures g.OutArcs(s) == g.Cut(s) + g.Inner(s) && g.Cut(s) !! g.Inner(s)
  {
  }

  lemma CutFlow(g: Graph, f: seq<int>, s: set<nat>)
    requires g.Valid() && IsFlow(g, f)
    ensures Sum(Value(f), g.Cut(s)) <= |g.Cut(s)|
    ensures (forall a :: a in g.Cut(s) ==> f[a] == 2) ==> Sum(Value(f), g.Cut(s)) == |g.Cut(s)|
  {
    SumAtMost(Value(f), g.Cut(s));
  }

  /** Flow is conserved at every node outside the two sides. */
  ghost predicate Conserved(g: Graph, f: seq<int>, sides: set<nat>)
    requires g.Valid()
  {
    forall x :: 0 <= x < g.nodeCount && x !in sides ==> Surplus(g, f, {x}) == 0
  }

  lemma SurplusUnion(g: Graph, f: seq<int>, s: set<nat>, t: set<nat>)
    requires g.Valid() && s !! t
    ensures Surplus(g, f, s + t) == Surplus(g, f, s) + Surplus(g, f, t)
  {
    assert g.OutArcs(s + t) == g.OutArcs(s) + g.OutArcs(t);
    SumUnion(Value(f), g.OutArcs(s), g.OutArcs(t));
  }

  lemma {:induction false} ConservedSurplus(g: Graph, f: seq<int>, sides: set<nat>, t: set<nat>)
    requires g.Valid() && Conserved(g, f, sides) && t !! sides
    requires forall x :: x in t ==> x < g.nodeCount
    ensures Surplus(g, f, t) == 0
  {
    if t == {} {
      assert g.OutArcs(t) == {};
    } else {
      var x :| x in t;
      SurplusUnion(g, f, {x}, t - {x});
      assert {x} + (t - {x}) == t;
      ConservedSurplus(g, f, sides, t - {x});
    }
  }

  /** Weak duality: the flow value is at most the size of any cut between the sides. */
  lemma FlowBoundsCuts(g: Graph, f: seq<int>, src: set<nat>, tgt: set<nat>, s: set<nat>)
    requires g.Valid() && IsFlow(g, f) && Conserved(g, f, src + tgt)
    requires src <= s && s !! tgt && forall x :: x in s ==> x < g.nodeCount
    ensures Surplus(g, f, s) == Surplus(g, f, src)
    ensures Surplus(g, f, src) <= |g.Cut(s)|
  {
    SurplusUnion(g, f, src, s - src);
    assert src + (s - src) == s;
    ConservedSurplus(g, f, src + tgt, s - src);
    SurplusIsCutFlow(g, f, s);
  }

  // ---------- Changing one arc ----------

  /** The flow with arc `a` changed by `d` and its back arc by `-d`. */
  function Changed(g: Graph, f: seq<int>, a: nat, d: int): seq<int>
  {
    if a < |f| && a < |g.backArc| && g.backArc[a] < |f| then f[a := f[a] + d][g.backArc[a] := 2 - (f[a] + d)] else f
  }

  lemma ChangedIsFlow(g: Graph, f: seq<int>, a: nat, d: int)
    requires g.Valid() && IsFlow(g, f) && a < |f| && 0 <= f[a] + d <= 2
    ensures IsFlow(g, Changed(g, f, a, d))
  {
    var h := Changed(g, f, a, d);
    assert g.ArcOk(a);
    forall b | 0 <= b < |h|
      ensures g.ArcOk(b) && 0 <= h[b] <= 2 && h[g.backArc[b]] == 2 - h[b]
    {
      assert g.ArcOk(b);
    }
  }

  function In(s: set<nat>, x: nat): int {
    if x in s then 1 else 0
  }

  lemma {:induction false} SumUpdate(w: nat -> int, v: nat -> int, s: set<nat>, b: nat, d: int)
    requires forall a: nat :: a in s && a != b ==> v(a) == w(a)
    requires v(b) == w(b) + d
    ensures Sum(v, s) == Sum(w, s) + if b in s then d else 0
  {
    if b in s {
      SumAny(w, s, b);
      SumAny(v, s, b);
      SumSame(v, w, s - {b});
    } else {
      SumSame(v, w, s);
    }
  }

  /** Pushing `d` units along an arc moves surplus from its head to its tail. */
  lemma ChangedSurplus(g: Graph, f: seq<int>, a: nat, d: int, s: set<nat>)
    requires g.Valid() && IsFlow(g, f) && a < |f| && 0 <= f[a] + d <= 2
    ensures Surplus(g, Changed(g, f, a, d), s) == Surplus(g, f, s) + d * (In(s, g.tail[a]) - In(s, g.head[a]))
  {
    assert g.ArcOk(a);
    var b, os := g.backArc[a], g.OutArcs(s);
    var mid, h := f[a := f[a] + d], Changed(g, f, a, d);
    SumUpdate(Value(f), Value(mid), os, a, d);
    SumUpdate(Value(mid), Value(h), os, b, -d);
  }
}
