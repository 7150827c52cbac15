/** Arc lists of simple undirected graphs. */
module SimpleGraph {
  ghost predicate HasArc(tail: seq<nat>, head: seq<nat>, u: nat, v: nat)
    requires |tail| == |head|
  {
    exists a: nat :: a < |tail| && tail[a] == u && head[a] == v
  }

  /** Arcs in both directions, none twice, no loops. */
  ghost predicate SimpleArcs(tail: seq<nat>, head: seq<nat>, n: nat) {
    |tail| == |head| &&
    (forall a: nat :: a < |tail| ==> tail[a] < n && head[a] < n && tail[a] != head[a] && HasArc(tail, head, head[a], tail[a])) &&
    (forall a: nat, b: nat :: a < |tail| && b < |tail| && tail[a] == tail[b] && head[a] == head[b] ==> a == b)
  }
}
