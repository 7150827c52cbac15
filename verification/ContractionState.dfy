/**
  The quotient of a graph under contraction: union-find representatives, rings of the
  adjacencies of merged nodes, and adjacency ranges in one arc array.
*/
module ContractionState {
  import opened FiniteSets

  // ---------- Union-find ----------

  /** `rep` names the representative of every node; parents lead upwards to it. */
  ghost predicate Forest(pa: seq<nat>, rep: seq<nat>) {
    |pa| == |rep| && forall a: nat {:trigger ForestNode(pa, rep, a)} :: a < |pa| ==> ForestNode(pa, rep, a)
  }

  ghost predicate ForestNode(pa: seq<nat>, rep: seq<nat>, a: nat)
    requires a < |pa| == |rep|
  {
    && pa[a] < |pa| && rep[a] < |pa| && rep[rep[a]] == rep[a] && rep[pa[a]] == rep[a]
    && (pa[a] == a <==> rep[a] == a) && a <= pa[a] && a <= rep[a]
  }

  lemma Compress(pa: seq<nat>, rep: seq<nat>, y: nat)
    requires Forest(pa, rep) && y < |pa| && pa[y] != y
    ensures Forest(pa[y := rep[y]], rep)
  {
    assert ForestNode(pa, rep, y);
    var pa' := pa[y := rep[y]];
    forall a: nat | a < |pa|
      ensures ForestNode(pa', rep, a)
    {
      assert ForestNode(pa, rep, a);
    }
  }

  /** The classes of `rep` with the class of `b` moved to `a`. */
  function Joined(rep: seq<nat>, a: nat, b: nat): (r: seq<nat>)
    ensures |r| == |rep|
    ensures forall i :: 0 <= i < |rep| ==> r[i] == if rep[i] == b then a else rep[i]
  {
    seq(|rep|, i requires 0 <= i < |rep| => if rep[i] == b then a else rep[i])
  }

  lemma JoinForest(pa: seq<nat>, rep: seq<nat>, a: nat, b: nat)
    requires Forest(pa, rep) && a < |pa| && b < a && rep[a] == a && rep[b] == b
    ensures Forest(pa[b := a], Joined(rep, a, b))
  {
    assert ForestNode(pa, rep, a) && ForestNode(pa, rep, b);
    var pa', rep' := pa[b := a], Joined(rep, a, b);
    forall i: nat | i < |pa|
      ensures ForestNode(pa', rep', i)
    {
      assert ForestNode(pa, rep, i);
    }
  }

  // ---------- Rings ----------

  /** `s` lists a cycle of the `next` pointers. */
  ghost predicate Cycle(nx: seq<nat>, s: seq<nat>) {
    && s != [] && NoDup(s)
    && (forall i: nat {:trigger Step(nx, s, i)} :: i < |s| ==> Step(nx, s, i))
  }

  function After(s: seq<nat>, i: nat): nat
    requires i < |s|
  {
    if i + 1 < |s| then s[i + 1] else s[0]
  }

  ghost predicate Step(nx: seq<nat>, s: seq<nat>, i: nat)
    requires i < |s|
  {
    s[i] < |nx| && nx[s[i]] == After(s, i)
  }

  /** Every representative heads a ring of its class; class members off the ring have no arcs. */
  ghost predicate Rings(nx: seq<nat>, rep: seq<nat>, be: seq<nat>, en: seq<nat>, ring: map<nat, seq<nat>>) {
    && |nx| == |rep| == |be| == |en|
    && (forall r: nat :: r in ring <==> r < |rep| && rep[r] == r)
    && (forall r: nat :: r in ring ==> RingOk(nx, rep, be, en, r, ring[r]))
  }

  ghost predicate RingOk(nx: seq<nat>, rep: seq<nat>, be: seq<nat>, en: seq<nat>, r: nat, s: seq<nat>)
    requires |nx| == |rep| == |be| == |en|
  {
    && Cycle(nx, s) && s[0] == r
    && (forall i :: 0 <= i < |s| ==> s[i] < |rep| && rep[s[i]] == r)
    && (forall a: nat :: a < |rep| && rep[a] == r && a !in s ==> be[a] == en[a])
  }

  /** Exchanging the successors of two nodes splices their cycles. */
  lemma Splice(nx: seq<nat>, s: seq<nat>, t: seq<nat>)
    requires Cycle(nx, s) && Cycle(nx, t) && forall x: nat :: x in s ==> x !in t
    ensures s[0] < |nx| && t[0] < |nx|
    ensures Cycle(nx[s[0] := nx[t[0]]][t[0] := nx[s[0]]], Spliced(s, t))
    ensures forall x: nat :: x in Spliced(s, t) <==> x in s || x in t
  {
    assert Step(nx, s, 0) && Step(nx, t, 0);
    var r, m := Spliced(s, t), nx[s[0] := nx[t[0]]][t[0] := nx[s[0]]];
    SpliceMembers(s, t);
    forall i: nat | i < |r|
      ensures Step(m, r, i)
    {
      SpliceAt(nx, s, t, i, m);
    }
  }

  function Spliced(s: seq<nat>, t: seq<nat>): seq<nat>
    requires s != [] && t != []
  {
    [s[0]] + t[1..] + [t[0]] + s[1..]
  }

  lemma SpliceMembers(s: seq<nat>, t: seq<nat>)
    requires s != [] && t != []
    requires NoDup(s) && NoDup(t) && forall x: nat :: x in s ==> x !in t
    ensures NoDup(Spliced(s, t)) && forall x: nat :: x in Spliced(s, t) <==> x in s || x in t
  {
    var r := Spliced(s, t);
    assert s == [s[0]] + s[1..] && t == [t[0]] + t[1..];
    forall i, j | 0 <= i < |s| && 0 <= j < |t|
      ensures s[i] != t[j]
    {
      assert s[i] in s && t[j] in t;
    }
    forall i | 0 <= i < |r|
      ensures r[i] == (if i == 0 then s[0] else if i < |t| then t[i] else if i == |t| then t[0] else s[i - |t|])
    {
    }
  }

  lemma SpliceAt(nx: seq<nat>, s: seq<nat>, t: seq<nat>, i: nat, m: seq<nat>)
    requires Cycle(nx, s) && Cycle(nx, t) && (forall x: nat :: x in s ==> x !in t) && i < |s| + |t|
    requires s[0] < |nx| && t[0] < |nx| && m == nx[s[0] := nx[t[0]]][t[0] := nx[s[0]]]
    ensures |Spliced(s, t)| == |s| + |t| && Step(m, Spliced(s, t), i)
  {
    var r := Spliced(s, t);
    assert s[0] in s && t[0] in t && s[0] != t[0];
    if i == 0 {
      assert Step(nx, t, 0) && r[0] == s[0];
      assert 1 < |t| ==> r[1] == t[1];
      assert |t| == 1 ==> r[1] == t[0];
    } else if i < |t| {
      assert Step(nx, t, i) && r[i] == t[i] && t[i] != t[0] && t[i] in t && t[i] != s[0];
      assert i + 1 < |t| ==> r[i + 1] == t[i + 1];
      assert i + 1 == |t| ==> r[i + 1] == t[0];
    } else if i == |t| {
      assert Step(nx, s, 0) && r[i] == t[0];
      assert 1 < |s| ==> r[i + 1] == s[1];
    } else {
      var j := i - |t|;
      assert Step(nx, s, j) && r[i] == s[j] && s[j] != s[0] && s[j] in s && s[j] != t[0];
      assert j + 1 < |s| ==> r[i + 1] == s[j + 1];
    }
  }

  /** Bypassing a stretch of a cycle leaves a shorter cycle. */
  lemma Bypass(nx: seq<nat>, s: seq<nat>, i: nat, j: nat)
    requires Cycle(nx, s) && i < j <= |s|
    ensures s[i] < |nx| && Cycle(nx[s[i] := if j < |s| then s[j] else s[0]], s[..i + 1] + s[j..])
  {
    assert Step(nx, s, i);
    var r := s[..i + 1] + s[j..];
    var m := nx[s[i] := if j < |s| then s[j] else s[0]];
    forall k: nat | k < |r|
      ensures Step(m, r, k)
    {
      BypassAt(nx, s, i, j, r, m, k);
    }
    BypassDistinct(s, i, j, r);
  }

  lemma BypassDistinct(s: seq<nat>, i: nat, j: nat, r: seq<nat>)
    requires NoDup(s) && i < j <= |s| && r == s[..i + 1] + s[j..]
    ensures NoDup(r)
  {
    assert forall k :: 0 <= k < |r| ==> r[k] == if k <= i then s[k] else s[k + j - i - 1];
  }

  lemma BypassAt(nx: seq<nat>, s: seq<nat>, i: nat, j: nat, r: seq<nat>, m: seq<nat>, k: nat)
    requires Cycle(nx, s) && i < j <= |s| && r == s[..i + 1] + s[j..] && s[i] < |nx|
    requires m == nx[s[i] := if j < |s| then s[j] else s[0]] && k < |r|
    ensures Step(m, r, k)
  {
    assert r[0] == s[0];
    if k < i {
      assert Step(nx, s, k) && r[k] == s[k] && r[k + 1] == s[k + 1] && s[k] != s[i];
    } else if k == i {
      assert r[k] == s[i];
      assert j < |s| ==> r[k + 1] == s[j];
    } else {
      var o := k + j - i - 1;
      assert Step(nx, s, o) && r[k] == s[o] && s[o] != s[i];
      assert k + 1 < |r| ==> r[k + 1] == s[o + 1];
    }
  }

  // ---------- Adjacency ranges ----------

  /** Disjoint ranges of the arc array. */
  ghost predicate Layout(be: seq<nat>, en: seq<nat>, m: nat) {
    && |be| == |en|
    && (forall a :: 0 <= a < |be| ==> be[a] <= en[a] <= m)
    && (forall a, b :: 0 <= a < b < |be| ==> en[a] <= be[b])
  }

  /** The graph relates `a` and `w`. */
  ghost predicate Edge(tail: seq<nat>, head: seq<nat>, a: nat, w: nat) {
    exists i :: 0 <= i < |tail| && i < |head| && tail[i] == a && head[i] == w
  }

  /** Arc slot `k` belongs to node `b`. */
  predicate Slot(be: seq<nat>, en: seq<nat>, b: nat, k: nat) {
    b < |be| && b < |en| && be[b] <= k < en[b]
  }

  /** Some node of class `r` stores an arc to class `y`. */
  ghost predicate Stored(rep: seq<nat>, be: seq<nat>, en: seq<nat>, ah: seq<nat>, r: nat, y: nat) {
    exists b: nat, k: nat :: Slot(be, en, b, k) && b < |rep| && rep[b] == r && k < |ah| && ah[k] < |rep| && rep[ah[k]] == y
  }

  /** Some node of class `r` is related to a node of class `y`. */
  ghost predicate Related(tail: seq<nat>, head: seq<nat>, rep: seq<nat>, r: nat, y: nat) {
    exists a: nat, w: nat :: Edge(tail, head, a, w) && a < |rep| && w < |rep| && rep[a] == r && rep[w] == y
  }

  /** The stored arcs describe the quotient graph. */
  ghost predicate Quotient(tail: seq<nat>, head: seq<nat>, rep: seq<nat>, be: seq<nat>, en: seq<nat>, ah: seq<nat>) {
    forall r: nat, y: nat :: r != y ==> (Stored(rep, be, en, ah, r, y) <==> Related(tail, head, rep, r, y))
  }

  // ---------- Joining two classes ----------

  lemma JoinRings(nx: seq<nat>, rep: seq<nat>, be: seq<nat>, en: seq<nat>, ring: map<nat, seq<nat>>, u: nat, v: nat)
    requires Rings(nx, rep, be, en, ring) && u < |rep| && v < |rep| && rep[u] == u && rep[v] == v && u != v
    ensures u in ring && v in ring && ring[u] != [] && ring[v] != []
    ensures Rings(nx[u := nx[v]][v := nx[u]], Joined(rep, u, v), be, en, (ring - {v})[u := Spliced(ring[u], ring[v])])
  {
    assert RingOk(nx, rep, be, en, u, ring[u]) && RingOk(nx, rep, be, en, v, ring[v]);
    var nx', rep', ring' := nx[u := nx[v]][v := nx[u]], Joined(rep, u, v), (ring - {v})[u := Spliced(ring[u], ring[v])];
    RingsApart(nx, rep, be, en, u, v, ring[u], ring[v]);
    Splice(nx, ring[u], ring[v]);
    forall r: nat | r in ring'
      ensures RingOk(nx', rep', be, en, r, ring'[r])
    {
      if r == u {
        JoinedRing(nx, nx', rep, be, en, u, v, ring[u], ring[v]);
      } else {
        assert RingOk(nx, rep, be, en, r, ring[r]);
        OtherRing(nx, nx', rep, be, en, u, v, r, ring[r]);
      }
    }
    hide RingOk;
    forall r: nat
      ensures r in ring' <==> r < |rep'| && rep'[r] == r
    {
    }
  }

  lemma RingsApart(nx: seq<nat>, rep: seq<nat>, be: seq<nat>, en: seq<nat>, u: nat, v: nat, s: seq<nat>, t: seq<nat>)
    requires |nx| == |rep| == |be| == |en| && RingOk(nx, rep, be, en, u, s) && RingOk(nx, rep, be, en, v, t) && u != v
    ensures forall x: nat :: x in s ==> x !in t
  {
  }

  lemma JoinedRing(nx: seq<nat>, nx': seq<nat>, rep: seq<nat>, be: seq<nat>, en: seq<nat>, u: nat, v: nat, s: seq<nat>, t: seq<nat>)
    requires |nx| == |nx'| == |rep| == |be| == |en| && RingOk(nx, rep, be, en, u, s) && RingOk(nx, rep, be, en, v, t)
    requires Cycle(nx', Spliced(s, t)) && forall x: nat :: x in Spliced(s, t) <==> x in s || x in t
    ensures RingOk(nx', Joined(rep, u, v), be, en, u, Spliced(s, t))
  {
    assert s != [] && t != [];
    hide Cycle;
    var r := Spliced(s, t);
    forall i | 0 <= i < |r|
      ensures r[i] < |rep| && (rep[r[i]] == u || rep[r[i]] == v)
    {
      assert r[i] in r;
    }
  }

  lemma OtherRing(nx: seq<nat>, nx': seq<nat>, rep: seq<nat>, be: seq<nat>, en: seq<nat>, u: nat, v: nat, r: nat, s: seq<nat>)
    requires |nx| == |rep| == |be| == |en| && RingOk(nx, rep, be, en, r, s) && r != u && r != v && u < |rep| && v < |rep| && rep[u] == u && rep[v] == v
    requires nx' == nx[u := nx[v]][v := nx[u]]
    ensures RingOk(nx', Joined(rep, u, v), be, en, r, s)
  {
    forall i: nat | i < |s|
      ensures Step(nx', s, i)
    {
      assert Step(nx, s, i);
    }
  }

  lemma JoinQuotient(tail: seq<nat>, head: seq<nat>, rep: seq<nat>, be: seq<nat>, en: seq<nat>, ah: seq<nat>, u: nat, v: nat)
    requires Quotient(tail, head, rep, be, en, ah)
    ensures Quotient(tail, head, Joined(rep, u, v), be, en, ah)
  {
    var rep' := Joined(rep, u, v);
    forall r: nat, y: nat | r != y
      ensures Stored(rep', be, en, ah, r, y) <==> Related(tail, head, rep', r, y)
    {
      if Stored(rep', be, en, ah, r, y) {
        JoinStored(tail, head, rep, be, en, ah, u, v, r, y);
      }
      if Related(tail, head, rep', r, y) {
        JoinRelated(tail, head, rep, be, en, ah, u, v, r, y);
      }
    }
  }

  lemma JoinStored(tail: seq<nat>, head: seq<nat>, rep: seq<nat>, be: seq<nat>, en: seq<nat>, ah: seq<nat>, u: nat, v: nat, r: nat, y: nat)
    requires Quotient(tail, head, rep, be, en, ah) && r != y && Stored(Joined(rep, u, v), be, en, ah, r, y)
    ensures Related(tail, head, Joined(rep, u, v), r, y)
  {
    var rep' := Joined(rep, u, v);
    var b: nat, k: nat :| Slot(be, en, b, k) && b < |rep'| && rep'[b] == r && k < |ah| && ah[k] < |rep'| && rep'[ah[k]] == y;
    assert Stored(rep, be, en, ah, rep[b], rep[ah[k]]);
    assert Related(tail, head, rep, rep[b], rep[ah[k]]);
    var a: nat, w: nat :| Edge(tail, head, a, w) && a < |rep| && w < |rep| && rep[a] == rep[b] && rep[w] == rep[ah[k]];
    assert rep'[a] == r && rep'[w] == y;
  }

  lemma JoinRelated(tail: seq<nat>, head: seq<nat>, rep: seq<nat>, be: seq<nat>, en: seq<nat>, ah: seq<nat>, u: nat, v: nat, r: nat, y: nat)
    requires Quotient(tail, head, rep, be, en, ah) && r != y && Related(tail, head, Joined(rep, u, v), r, y)
    ensures Stored(Joined(rep, u, v), be, en, ah, r, y)
  {
    var rep' := Joined(rep, u, v);
    var a: nat, w: nat :| Edge(tail, head, a, w) && a < |rep'| && w < |rep'| && rep'[a] == r && rep'[w] == y;
    assert Related(tail, head, rep, rep[a], rep[w]);
    assert Stored(rep, be, en, ah, rep[a], rep[w]);
    var b: nat, k: nat :| Slot(be, en, b, k) && b < |rep| && rep[b] == rep[a] && k < |ah| && ah[k] < |rep| && rep[ah[k]] == rep[w];
    assert rep'[b] == r && rep'[ah[k]] == y;
  }

  // ---------- Placing the arcs of a graph ----------

  /** How many of the first `i` arcs have tail `t`. */
  function Count(tail: seq<nat>, t: nat, i: nat): nat
    requires i <= |tail|
  {
    if i == 0 then 0 else Count(tail, t, i - 1) + if tail[i - 1] == t then 1 else 0
  }

  /** Where the arcs of node `t` start. */
  function Start(tail: seq<nat>, t: nat): nat {
    if t == 0 then 0 else Start(tail, t - 1) + Count(tail, t - 1, |tail|)
  }

  /** Where arc `j` is placed. */
  function Position(tail: seq<nat>, j: nat): nat
    requires j < |tail|
  {
    Start(tail, tail[j]) + Count(tail, tail[j], j)
  }

  lemma CountNext(tail: seq<nat>, i: nat)
    requires i < |tail|
    ensures forall t: nat :: Count(tail, t, i + 1) == Count(tail, t, i) + if tail[i] == t then 1 else 0
    ensures forall t: nat :: Count(tail, t, 0) == 0
    ensures Position(tail, i) == Start(tail, tail[i]) + Count(tail, tail[i], i)
  {
  }

  lemma StartNext(tail: seq<nat>, t: nat)
    ensures Start(tail, 0) == 0 && Start(tail, t + 1) == Start(tail, t) + Count(tail, t, |tail|)
  {
  }

  lemma {:induction false} CountMonotone(tail: seq<nat>, t: nat, i: nat, j: nat)
    requires i <= j <= |tail|
    ensures Count(tail, t, i) <= Count(tail, t, j)
    ensures i < j && tail[i] == t ==> Count(tail, t, i) < Count(tail, t, j)
  {
    if i < j {
      CountMonotone(tail, t, i, j - 1);
    }
  }

  lemma {:induction false} StartMonotone(tail: seq<nat>, s: nat, t: nat)
    requires s <= t
    ensures Start(tail, s) <= Start(tail, t)
    ensures s < t ==> Start(tail, s) + Count(tail, s, |tail|) <= Start(tail, t)
  {
    if s < t {
      StartMonotone(tail, s, t - 1);
    }
  }

  lemma {:induction false} CountsUpTo(tail: seq<nat>, n: nat, i: nat)
    requires i <= |tail| && forall j :: 0 <= j < |tail| ==> tail[j] < n
    ensures StartTo(tail, n, i) == i
  {
    if i == 0 {
      NoCounts(tail, n);
    } else {
      CountsUpTo(tail, n, i - 1);
      OneMoreCount(tail, n, i);
    }
  }

  /** The number of the first `i` arcs with tails below `t`. */
  function StartTo(tail: seq<nat>, t: nat, i: nat): nat
    requires i <= |tail|
  {
    if t == 0 then 0 else StartTo(tail, t - 1, i) + Count(tail, t - 1, i)
  }

  lemma {:induction false} NoCounts(tail: seq<nat>, t: nat)
    ensures StartTo(tail, t, 0) == 0
  {
    if t != 0 {
      NoCounts(tail, t - 1);
    }
  }

  lemma {:induction false} OneMoreCount(tail: seq<nat>, t: nat, i: nat)
    requires 0 < i <= |tail|
    ensures StartTo(tail, t, i) == StartTo(tail, t, i - 1) + if tail[i - 1] < t then 1 else 0
  {
    if t != 0 {
      OneMoreCount(tail, t - 1, i);
    }
  }

  lemma {:induction false} StartIsStartTo(tail: seq<nat>, t: nat)
    ensures Start(tail, t) == StartTo(tail, t, |tail|)
  {
    if t != 0 {
      StartIsStartTo(tail, t - 1);
    }
  }

  lemma AllPlaced(tail: seq<nat>, n: nat)
    requires forall j :: 0 <= j < |tail| ==> tail[j] < n
    ensures Start(tail, n) == |tail|
  {
    CountsUpTo(tail, n, |tail|);
    StartIsStartTo(tail, n);
  }

  lemma PositionBounds(tail: seq<nat>, n: nat, j: nat)
    requires j < |tail| && forall i :: 0 <= i < |tail| ==> tail[i] < n
    ensures Start(tail, tail[j]) <= Position(tail, j) < Start(tail, tail[j] + 1) <= |tail|
  {
    CountMonotone(tail, tail[j], j, |tail|);
    StartMonotone(tail, tail[j] + 1, n);
    AllPlaced(tail, n);
  }

  lemma PositionsDiffer(tail: seq<nat>, i: nat, j: nat)
    requires i < j < |tail|
    ensures Position(tail, i) != Position(tail, j)
  {
    CountMonotone(tail, tail[i], i, j);
    CountMonotone(tail, tail[i], i, |tail|);
    CountMonotone(tail, tail[j], j, |tail|);
    if tail[i] < tail[j] {
      StartMonotone(tail, tail[i], tail[j]);
    } else if tail[j] < tail[i] {
      StartMonotone(tail, tail[j], tail[i]);
    }
  }

  lemma {:induction false} Counted(tail: seq<nat>, t: nat, i: nat, c: nat) returns (j: nat)
    requires i <= |tail| && c < Count(tail, t, i)
    ensures j < i && tail[j] == t && Count(tail, t, j) == c
  {
    if tail[i - 1] == t && c == Count(tail, t, i - 1) {
      j := i - 1;
    } else {
      j := Counted(tail, t, i - 1, c);
    }
  }

  /** Every arc is where it belongs. */
  ghost predicate Placed(tail: seq<nat>, head: seq<nat>, ah: seq<nat>, i: nat) {
    |ah| == |head| == |tail| && i <= |tail| && forall j: nat :: j < i ==> Position(tail, j) < |ah| && ah[Position(tail, j)] == head[j]
  }

  lemma PlaceNext(tail: seq<nat>, head: seq<nat>, ah: seq<nat>, n: nat, i: nat)
    requires Placed(tail, head, ah, i) && i < |tail| && forall j :: 0 <= j < |tail| ==> tail[j] < n
    ensures Position(tail, i) < |ah| && Placed(tail, head, ah[Position(tail, i) := head[i]], i + 1)
  {
    PositionBounds(tail, n, i);
    forall j: nat | j < i
      ensures Position(tail, j) != Position(tail, i)
    {
      PositionsDiffer(tail, j, i);
    }
  }

  /** The arcs placed by their tails describe the graph itself. */
  lemma PlacedQuotient(tail: seq<nat>, head: seq<nat>, ah: seq<nat>, n: nat, be: seq<nat>, en: seq<nat>, rep: seq<nat>)
    requires Placed(tail, head, ah, |tail|) && (forall j :: 0 <= j < |tail| ==> tail[j] < n && head[j] < n)
    requires |be| == |en| == |rep| == n && forall t: nat :: t < n ==> be[t] == Start(tail, t) && en[t] == Start(tail, t + 1) && rep[t] == t
    ensures Layout(be, en, |tail|) && Quotient(tail, head, rep, be, en, ah)
  {
    forall a, b | 0 <= a < b < n
      ensures en[a] <= be[b]
    {
      StartMonotone(tail, a + 1, b);
    }
    forall a: nat | a < n
      ensures be[a] <= en[a] <= |tail|
    {
      StartMonotone(tail, a, a + 1);
      StartMonotone(tail, a + 1, n);
      AllPlaced(tail, n);
    }
    forall r: nat, y: nat | r != y
      ensures Stored(rep, be, en, ah, r, y) <==> Related(tail, head, rep, r, y)
    {
      PlacedStored(tail, head, ah, n, be, en, rep, r, y);
    }
  }

  lemma PlacedStored(tail: seq<nat>, head: seq<nat>, ah: seq<nat>, n: nat, be: seq<nat>, en: seq<nat>, rep: seq<nat>, r: nat, y: nat)
    requires Placed(tail, head, ah, |tail|) && (forall j :: 0 <= j < |tail| ==> tail[j] < n && head[j] < n)
    requires |be| == |en| == |rep| == n && forall t: nat :: t < n ==> be[t] == Start(tail, t) && en[t] == Start(tail, t + 1) && rep[t] == t
    ensures Stored(rep, be, en, ah, r, y) <==> Related(tail, head, rep, r, y)
  {
    if Related(tail, head, rep, r, y) {
      RelatedStored(tail, head, ah, n, be, en, rep, r, y);
    }
    if Stored(rep, be, en, ah, r, y) {
      StoredRelated(tail, head, ah, n, be, en, rep, r, y);
    }
  }

  lemma RelatedStored(tail: seq<nat>, head: seq<nat>, ah: seq<nat>, n: nat, be: seq<nat>, en: seq<nat>, rep: seq<nat>, r: nat, y: nat)
    requires Placed(tail, head, ah, |tail|) && (forall j :: 0 <= j < |tail| ==> tail[j] < n && head[j] < n)
    requires |be| == |en| == |rep| == n && forall t: nat :: t < n ==> be[t] == Start(tail, t) && en[t] == Start(tail, t + 1) && rep[t] == t
    requires Related(tail, head, rep, r, y)
    ensures Stored(rep, be, en, ah, r, y)
  {
    var a: nat, w: nat :| Edge(tail, head, a, w) && a < |rep| && w < |rep| && rep[a] == r && rep[w] == y;
    var i: nat :| i < |tail| && i < |head| && tail[i] == a && head[i] == w;
    PositionBounds(tail, n, i);
    assert Slot(be, en, a, Position(tail, i));
  }

  lemma StoredRelated(tail: seq<nat>, head: seq<nat>, ah: seq<nat>, n: nat, be: seq<nat>, en: seq<nat>, rep: seq<nat>, r: nat, y: nat)
    requires Placed(tail, head, ah, |tail|) && (forall j :: 0 <= j < |tail| ==> tail[j] < n && head[j] < n)
    requires |be| == |en| == |rep| == n && forall t: nat :: t < n ==> be[t] == Start(tail, t) && en[t] == Start(tail, t + 1) && rep[t] == t
    requires Stored(rep, be, en, ah, r, y)
    ensures Related(tail, head, rep, r, y)
  {
    var b: nat, k: nat :| Slot(be, en, b, k) && b < |rep| && rep[b] == r && k < |ah| && ah[k] < |rep| && rep[ah[k]] == y;
    assert Start(tail, b + 1) == Start(tail, b) + Count(tail, b, |tail|);
    var j := Counted(tail, b, |tail|, k - Start(tail, b));
    assert Position(tail, j) == k;
    assert Edge(tail, head, b, ah[k]);
  }
}
