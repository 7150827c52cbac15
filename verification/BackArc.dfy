/** The reverse arc of every arc of a simple symmetric graph, found by two stable counting sorts. */
module BackArc {
  import opened FiniteSets
  import opened IdSort
  import opened SimpleGraph

  /** An arc with its end points in increasing order. */
  datatype Entry = Entry(tail: nat, head: nat, arcId: nat)

  predicate Reverse(tail: seq<nat>, head: seq<nat>, a: nat, b: nat)
    requires |tail| == |head|
  {
    a < |tail| && b < |tail| && tail[b] == head[a] && head[b] == tail[a]
  }

  function Normal(tail: seq<nat>, head: seq<nat>, a: nat): (e: Entry)
    requires a < |tail| == |head|
    ensures e.arcId == a
  {
    if tail[a] > head[a] then Entry(head[a], tail[a], a) else Entry(tail[a], head[a], a)
  }

  predicate SameEdge(x: Entry, y: Entry) { x.tail == y.tail && x.head == y.head }

  predicate Before(x: Entry, y: Entry) { x.tail < y.tail || (x.tail == y.tail && x.head <= y.head) }

  predicate Lexicographic(s: seq<Entry>) { forall i: nat, j: nat :: i < j < |s| ==> Before(s[i], s[j]) }

  /** Every edge occurs at exactly two positions. */
  ghost predicate InPairs(s: seq<Entry>) {
    (forall i: nat :: i < |s| ==> HasTwin(s, i)) &&
    (forall i: nat, j: nat, k: nat :: Twin(s, i, j) && Twin(s, i, k) ==> j == k)
  }

  ghost predicate HasTwin(s: seq<Entry>, i: nat) { exists j: nat :: Twin(s, i, j) }

  predicate Twin(s: seq<Entry>, i: nat, j: nat) { i < |s| && j < |s| && i != j && SameEdge(s[i], s[j]) }

  lemma {:induction false} BucketAscending<T(!new)>(s: seq<T>, id: T -> nat, k: nat, other: T -> nat)
    requires Ascending(s, other)
    ensures Ascending(Bucket(s, id, k), other)
  {
    if s != [] {
      var front, last := s[..|s| - 1], s[|s| - 1];
      BucketAscending(front, id, k, other);
      BucketIds(front, id, k);
      var b := Bucket(front, id, k);
      if id(last) == k {
        forall i: nat, j: nat | i < j < |b + [last]| ensures other((b + [last])[i]) <= other((b + [last])[j]) {
          assert b[i] in b;
        }
      }
    }
  }

  /** Sorting by a second key keeps the order by the first one inside each group. */
  lemma {:induction false} SecondPass(s: seq<Entry>, n: nat)
    requires Ascending(s, (e: Entry) => e.head)
    ensures Lexicographic(Buckets(s, (e: Entry) => e.tail, n))
  {
    hide Bucket;
    var byTail, byHead := (e: Entry) => e.tail, (e: Entry) => e.head;
    if n > 0 {
      SecondPass(s, n - 1);
      BucketAscending(s, byTail, n - 1, byHead);
      BucketsIds(s, byTail, n - 1);
      BucketIds(s, byTail, n - 1);
      var a, b := Buckets(s, byTail, n - 1), Bucket(s, byTail, n - 1);
      forall i: nat, j: nat | i < j < |a + b| ensures Before((a + b)[i], (a + b)[j]) {
        assert i < |a| ==> (a + b)[i] in a;
        assert i >= |a| ==> (a + b)[i] in b;
        assert j >= |a| ==> (a + b)[j] in b;
        if i >= |a| {
          assert byHead(b[i - |a|]) <= byHead(b[j - |a|]);
        }
      }
    }
  }

  lemma {:induction false} BucketDistinct<T(!new)>(s: seq<T>, id: T -> nat, k: nat)
    requires NoDup(s)
    ensures NoDup(Bucket(s, id, k))
  {
    if s != [] {
      var front, last := s[..|s| - 1], s[|s| - 1];
      BucketDistinct(front, id, k);
      BucketIds(front, id, k);
      var b := Bucket(front, id, k);
      forall i: nat, j: nat | i < j < |b + [last]| ensures (b + [last])[i] != (b + [last])[j] {
        assert b[i] in b;
      }
    }
  }

  lemma {:induction false} BucketsDistinct<T(!new)>(s: seq<T>, id: T -> nat, n: nat)
    requires NoDup(s)
    ensures NoDup(Buckets(s, id, n))
  {
    hide Bucket;
    if n > 0 {
      BucketsDistinct(s, id, n - 1);
      BucketDistinct(s, id, n - 1);
      BucketsIds(s, id, n - 1);
      BucketIds(s, id, n - 1);
      var a, b := Buckets(s, id, n - 1), Bucket(s, id, n - 1);
      forall i: nat, j: nat | i < j < |a + b| ensures (a + b)[i] != (a + b)[j] {
        assert i < |a| ==> (a + b)[i] in a;
        assert j >= |a| ==> (a + b)[j] in b;
      }
    }
  }

  /** No edge has one copy before position `i` and the other from it on. */
  predicate Closed(s: seq<Entry>, i: nat) {
    forall p: nat, q: nat :: p < i <= q < |s| ==> !SameEdge(s[p], s[q])
  }

  /** In a sorted list where every edge occurs twice the copies stand at positions 2i and 2i+1. */
  lemma {:induction false} Adjacent(s: seq<Entry>, i: nat)
    requires Lexicographic(s) && InPairs(s) && i % 2 == 0 && i <= |s|
    ensures Closed(s, i)
    ensures i < |s| ==> Twin(s, i, i + 1)
  {
    if i > 0 {
      Adjacent(s, i - 2);
      assert Twin(s, i - 2, i - 1);
      forall p: nat, q: nat | p < i <= q < |s| ensures !SameEdge(s[p], s[q]) {
        if SameEdge(s[p], s[q]) && p >= i - 2 {
          assert Twin(s, i - 2, q);
          assert false;
        }
      }
    }
    if i < |s| {
      assert HasTwin(s, i);
      var j: nat :| Twin(s, i, j);
      assert j > i;
      if j > i + 1 {
        assert Before(s[i], s[i + 1]) && Before(s[i + 1], s[j]);
        assert Twin(s, i, i + 1);
      }
    }
  }

  /** The sorted entries are the arcs of the graph, each edge twice. */
  lemma EntriesInPairs(tail: seq<nat>, head: seq<nat>, n: nat, s: seq<Entry>)
    requires SimpleArcs(tail, head, n) && EntriesAre(tail, head, s)
    ensures InPairs(s)
  {
    forall i: nat | i < |s| ensures HasTwin(s, i) {
      var a := s[i].arcId;
      assert s[i] in s;
      assert HasArc(tail, head, head[a], tail[a]);
      var b: nat :| b < |tail| && tail[b] == head[a] && head[b] == tail[a];
      var y := Normal(tail, head, b);
      assert y in s;
      var j: nat :| j < |s| && s[j] == y;
      assert Twin(s, i, j);
    }
    forall i: nat, j: nat, k: nat | Twin(s, i, j) && Twin(s, i, k) ensures j == k {
      TwinReverse(tail, head, n, s, i, j);
      TwinReverse(tail, head, n, s, i, k);
      assert s[j].arcId == s[k].arcId;
      assert s[j] in s && s[k] in s;
    }
  }

  lemma TwinReverse(tail: seq<nat>, head: seq<nat>, n: nat, s: seq<Entry>, i: nat, j: nat)
    requires SimpleArcs(tail, head, n) && EntriesAre(tail, head, s) && Twin(s, i, j)
    ensures Reverse(tail, head, s[i].arcId, s[j].arcId) && s[i].arcId != s[j].arcId
  {
    assert s[i] in s && s[j] in s;
    assert s[i] != s[j];
  }

  /** The entries of all arcs, sorted by both end points. */
  method SortArcs(tail: seq<nat>, head: seq<nat>, nodeCount: nat) returns (arcList: array<Entry>)
    requires SimpleArcs(tail, head, nodeCount)
    ensures fresh(arcList) && EntriesAre(tail, head, arcList[..]) && Lexicographic(arcList[..])
  {
    hide Buckets, Bucket, EntriesAre, Ascending, InRange, Lexicographic;
    var arcCount := |tail|;
    arcList := new Entry[arcCount](_ => Entry(0, 0, 0));
    var tmp := new Entry[arcCount](_ => Entry(0, 0, 0));
    for i := 0 to arcCount
      invariant forall a: nat :: a < i ==> arcList[a] == Normal(tail, head, a)
    {
      arcList[i] := Normal(tail, head, i);
    }
    var l := arcList[..];
    SortedEntries(tail, head, nodeCount, l);
    StableSortCopyById(l, tmp, nodeCount, (e: Entry) => e.head);
    var mid := tmp[..];
    Sorted(tail, head, nodeCount, l, (e: Entry) => e.head);
    StableSortCopyById(mid, arcList, nodeCount, (e: Entry) => e.tail);
    Sorted(tail, head, nodeCount, mid, (e: Entry) => e.tail);
    SecondPass(mid, nodeCount);
  }

  method ComputeBackArcPermutation(tail: seq<nat>, head: seq<nat>, nodeCount: nat) returns (backArc: array<nat>)
    requires SimpleArcs(tail, head, nodeCount)
    ensures backArc.Length == |tail|
    ensures forall a: nat :: a < |tail| ==> Reverse(tail, head, a, backArc[a])
  {
    hide HasArc, Lexicographic, InPairs, Normal;
    var arcCount := |tail|;
    var arcList := SortArcs(tail, head, nodeCount);
    var s := arcList[..];
    EntriesInPairs(tail, head, nodeCount, s);
    backArc := new nat[arcCount](_ => 0);
    var i := 0;
    while i < arcCount
      invariant i % 2 == 0 && i <= arcCount == |s| && arcList[..] == s
      invariant forall p: nat :: p < i ==> Reverse(tail, head, s[p].arcId, backArc[s[p].arcId])
    {
      Adjacent(s, i);
      TwinReverse(tail, head, nodeCount, s, i, i + 1);
      ghost var before := backArc[..];
      var x, y := arcList[i].arcId, arcList[i + 1].arcId;
      backArc[x] := y;
      backArc[y] := x;
      forall p: nat | p < i + 2 ensures Reverse(tail, head, s[p].arcId, backArc[s[p].arcId]) {
        if p < i {
          EntryIds(tail, head, s, p, i);
          EntryIds(tail, head, s, p, i + 1);
          assert backArc[s[p].arcId] == before[s[p].arcId];
        }
      }
      i := i + 2;
    }
    forall a: nat | a < |tail| ensures Reverse(tail, head, a, backArc[a]) {
      var e := Normal(tail, head, a);
      assert e in s;
      var p: nat :| p < |s| && s[p] == e;
    }
  }

  ghost predicate EntriesAre(tail: seq<nat>, head: seq<nat>, s: seq<Entry>)
    requires |tail| == |head|
  {
    |s| == |tail| && NoDup(s) && forall x: Entry :: x in s <==> x.arcId < |tail| && x == Normal(tail, head, x.arcId)
  }

  lemma EntryIds(tail: seq<nat>, head: seq<nat>, s: seq<Entry>, p: nat, q: nat)
    requires |tail| == |head| && EntriesAre(tail, head, s) && p < q < |s|
    ensures s[p].arcId != s[q].arcId
  {
    assert s[p] in s && s[q] in s && s[p] != s[q];
  }

  lemma SortedEntries(tail: seq<nat>, head: seq<nat>, n: nat, l: seq<Entry>)
    requires SimpleArcs(tail, head, n) && |l| == |tail| && forall a: nat :: a < |l| ==> l[a] == Normal(tail, head, a)
    ensures InRange(l, (e: Entry) => e.head, n) && EntriesAre(tail, head, l)
  {
    forall x: Entry ensures x in l <==> x.arcId < |tail| && x == Normal(tail, head, x.arcId) {
      if x.arcId < |tail| && x == Normal(tail, head, x.arcId) {
        assert l[x.arcId] == x;
      }
    }
  }

  lemma Sorted(tail: seq<nat>, head: seq<nat>, n: nat, l: seq<Entry>, id: Entry -> nat)
    requires SimpleArcs(tail, head, n) && EntriesAre(tail, head, l) && InRange(l, id, n)
    ensures EntriesAre(tail, head, Buckets(l, id, n)) && Ascending(Buckets(l, id, n), id)
    ensures InRange(Buckets(l, id, n), (e: Entry) => e.tail, n)
  {
    hide Bucket, Buckets;
    SortLength(l, id, n);
    SortAscending(l, id, n);
    BucketsIds(l, id, n);
    BucketsDistinct(l, id, n);
    var s := Buckets(l, id, n);
    forall x: Entry ensures x in s <==> x in l {
      if x in l {
        var i: nat :| i < |l| && l[i] == x;
        assert id(l[i]) < n;
      }
    }
    forall i: nat | i < |s| ensures s[i].tail < n {
      assert s[i] in s;
    }
  }

  /** A map from every arc to its reverse is an involution without fixed points. */
  lemma BackArcInvolution(tail: seq<nat>, head: seq<nat>, n: nat, back: seq<nat>)
    requires SimpleArcs(tail, head, n) && |back| == |tail|
    requires forall a: nat :: a < |tail| ==> Reverse(tail, head, a, back[a])
    ensures forall a: nat :: a < |tail| ==> back[a] < |tail| && back[a] != a && back[back[a]] == a
  {
    forall a: nat | a < |tail| ensures back[a] < |tail| && back[a] != a && back[back[a]] == a {
      assert Reverse(tail, head, a, back[a]) && Reverse(tail, head, back[a], back[back[a]]);
    }
  }
}
