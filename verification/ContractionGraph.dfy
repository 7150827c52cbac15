/** Contracting nodes of a graph, with union-find, adjacency rings and compaction in place. */
module ContractionGraph {
  import opened FiniteSets
  import opened ContractionState

  /** The first `size` neighbours are distinct, and exactly they are flagged. */
  ghost predicate Flagged(neighbors: seq<nat>, flags: seq<bool>) {
    && |neighbors| <= |flags| && NoDup(neighbors)
    && (forall i :: 0 <= i < |neighbors| ==> neighbors[i] < |flags|)
    && (forall a: nat :: a < |flags| ==> (flags[a] <==> a in neighbors))
  }

  ghost predicate HeadsBelow(ah: seq<nat>, n: nat) {
    forall k :: 0 <= k < |ah| ==> ah[k] < n
  }

  class EdgeContractionGraph {
    const n: nat
    const tail: seq<nat>
    const head: seq<nat>

    const next: array<nat>
    const parent: array<nat>
    const outBegin: array<nat>
    const outEnd: array<nat>
    const arcHead: array<nat>
    const inNeighborhood: array<bool>
    const neighborhood: array<nat>
    var neighborhoodSize: nat

    /** The representative of every node, and the ring of every representative. */
    ghost var rep: seq<nat>
    ghost var ring: map<nat, seq<nat>>

    /** No two of the arrays are the same. */
    ghost predicate Apart()
      ensures Apart() ==>
        && next.Length == parent.Length == outBegin.Length == outEnd.Length == inNeighborhood.Length == neighborhood.Length == n
        && arcHead.Length == |tail| == |head|
      ensures Apart() ==> next !in {parent, outBegin, outEnd, arcHead, neighborhood} && parent !in {outBegin, outEnd, arcHead, neighborhood}
      ensures Apart() ==> outBegin !in {outEnd, arcHead, neighborhood} && outEnd !in {arcHead, neighborhood} && arcHead != neighborhood
    {
      && next.Length == parent.Length == outBegin.Length == outEnd.Length == inNeighborhood.Length == neighborhood.Length == n
      && arcHead.Length == |tail| == |head|
      && next !in {parent, outBegin, outEnd, arcHead, neighborhood} && parent !in {outBegin, outEnd, arcHead, neighborhood}
      && outBegin !in {outEnd, arcHead, neighborhood} && outEnd !in {arcHead, neighborhood} && arcHead != neighborhood
    }

    /** Sorts the arcs by their tails; every node is its own representative. */
    constructor (n: nat, tail: seq<nat>, head: seq<nat>)
      requires |tail| == |head| && forall j :: 0 <= j < |tail| ==> tail[j] < n && head[j] < n
      ensures Valid() && this.n == n && this.tail == tail && this.head == head
      ensures |rep| == n && forall a: nat :: a < n ==> rep[a] == a
      ensures fresh(next) && fresh(parent) && fresh(outBegin) && fresh(outEnd) && fresh(arcHead) && fresh(inNeighborhood) && fresh(neighborhood)
    {
      this.n, this.tail, this.head := n, tail, head;
      next := new nat[n](i => i);
      parent := new nat[n](i => i);
      outBegin := new nat[n](_ => 0);
      outEnd := new nat[n](_ => 0);
      arcHead := new nat[|tail|](_ => 0);
      inNeighborhood := new bool[n](_ => false);
      neighborhood := new nat[n](_ => 0);
      neighborhoodSize := 0;
      rep := seq(n, i => i);
      ring := map r: nat | r < n :: [r];
      new;
      hide *;
      FillArcs();
    }

    /** Lists the arcs by their tails. */
    method FillArcs()
      requires Apart() && |rep| == n && neighborhoodSize == 0
      requires forall j :: 0 <= j < |tail| ==> tail[j] < n && head[j] < n
      requires forall a: nat :: a < n ==> next[a] == a && parent[a] == a && rep[a] == a && !inNeighborhood[a] && outEnd[a] == 0
      requires forall k :: 0 <= k < arcHead.Length ==> arcHead[k] == 0
      requires forall r: nat :: if r < n then r in ring && ring[r] == [r] else r !in ring
      modifies outBegin, outEnd, arcHead
      ensures Valid()
    {
      assert |tail| > 0 ==> tail[0] < n;
      ghost var ah := arcHead[..];
      assert HeadsBelow(ah, n);
      hide *;
      CountArcs();
      PrefixSums();
      assert arcHead[..] == ah;
      PlaceArcs();
      InitialValid();
    }

    method CountArcs()
      requires Apart() && (forall j :: 0 <= j < |tail| ==> tail[j] < n) && forall t :: 0 <= t < n ==> outEnd[t] == 0
      modifies outEnd
      ensures forall t: nat :: t < n ==> outEnd[t] == Count(tail, t, |tail|)
    {
      hide Count;
      NoneCounted(tail);
      for i := 0 to |tail|
        invariant forall t: nat :: t < n ==> outEnd[t] == Count(tail, t, i)
      {
        CountNext(tail, i);
        outEnd[tail[i]] := outEnd[tail[i]] + 1;
      }
    }

    method PrefixSums()
      requires Apart() && forall t: nat :: t < n ==> outEnd[t] == Count(tail, t, |tail|)
      modifies outBegin, outEnd
      ensures forall t: nat :: t < n ==> outBegin[t] == Start(tail, t) && outEnd[t] == Start(tail, t + 1)
    {
      hide Count, Start;
      StartNext(tail, 0);
      if n != 0 {
        outBegin[0] := 0;
        for i := 1 to n
          invariant forall t: nat :: t < i ==> outBegin[t] == Start(tail, t) && outEnd[t] == Start(tail, t + 1)
          invariant forall t: nat :: i <= t < n ==> outEnd[t] == Count(tail, t, |tail|)
        {
          StartNext(tail, i);
          outBegin[i] := outEnd[i - 1];
          outEnd[i] := outEnd[i] + outBegin[i];
        }
      }
    }

    method PlaceArcs()
      requires Apart() && (forall j :: 0 <= j < |tail| ==> tail[j] < n)
      requires (forall j :: 0 <= j < |tail| ==> head[j] < n) && HeadsBelow(arcHead[..], n)
      requires forall t: nat :: t < n ==> outBegin[t] == Start(tail, t)
      modifies outBegin, arcHead
      ensures HeadsBelow(arcHead[..], n)
      ensures Placed(tail, head, arcHead[..], |tail|) && forall t: nat :: t < n ==> outBegin[t] == Start(tail, t)
    {
      hide Placed, Count, Start, Position, HeadsBelow;
      NoneCounted(tail);
      NothingPlaced(tail, head, arcHead[..]);
      for i := 0 to |tail|
        invariant forall t: nat :: t < n ==> outBegin[t] == Start(tail, t) + Count(tail, t, i)
        invariant Placed(tail, head, arcHead[..], i) && HeadsBelow(arcHead[..], n)
      {
        ghost var ah := arcHead[..];
        CountNext(tail, i);
        PlaceNext(tail, head, ah, n, i);
        HeadsSet(ah, n, Position(tail, i), head[i]);
        arcHead[outBegin[tail[i]]] := head[i];
        assert arcHead[..] == ah[Position(tail, i) := head[i]];
        outBegin[tail[i]] := outBegin[tail[i]] + 1;
      }
      ghost var ah := arcHead[..];
      for i := 0 to |tail|
        invariant forall t: nat :: t < n ==> outBegin[t] + Count(tail, t, i) == Start(tail, t) + Count(tail, t, |tail|)
        invariant arcHead[..] == ah
      {
        CountNext(tail, i);
        CountMonotone(tail, tail[i], i + 1, |tail|);
        outBegin[tail[i]] := outBegin[tail[i]] - 1;
      }
    }

    lemma InitialValid()
      requires Apart() && |rep| == n && neighborhoodSize == 0
      requires forall j :: 0 <= j < |tail| ==> tail[j] < n && head[j] < n
      requires forall a: nat :: a < n ==> next[a] == a && parent[a] == a && rep[a] == a && !inNeighborhood[a]
      requires HeadsBelow(arcHead[..], n)
      requires forall r: nat :: if r < n then r in ring && ring[r] == [r] else r !in ring
      requires forall t: nat :: t < n ==> outBegin[t] == Start(tail, t) && outEnd[t] == Start(tail, t + 1)
      requires Placed(tail, head, arcHead[..], |tail|)
      ensures Valid()
    {
      PlacedQuotient(tail, head, arcHead[..], n, outBegin[..], outEnd[..], rep);
      InitialRings(next[..], rep, outBegin[..], outEnd[..], ring);
      hide Quotient, Placed, Layout, Rings;
      forall a: nat | a < n
        ensures ForestNode(parent[..], rep, a)
      {
      }
    }

    ghost predicate NeighborsOk()
      reads this`neighborhoodSize, neighborhood, inNeighborhood
      ensures NeighborsOk() ==> neighborhoodSize <= neighborhood.Length
    {
      neighborhoodSize <= neighborhood.Length && Flagged(neighborhood[..neighborhoodSize], inNeighborhood[..])
    }

    ghost function Neighbors(): seq<nat>
      requires neighborhoodSize <= neighborhood.Length
      reads this`neighborhoodSize, neighborhood
    {
      neighborhood[..neighborhoodSize]
    }

    ghost predicate Valid()
      reads this, next, parent, outBegin, outEnd, arcHead, inNeighborhood, neighborhood
      ensures Valid() ==> neighborhoodSize <= neighborhood.Length
    {
      && Apart() && |rep| == n
      && Forest(parent[..], rep)
      && Rings(next[..], rep, outBegin[..], outEnd[..], ring)
      && Layout(outBegin[..], outEnd[..], |tail|)
      && HeadsBelow(arcHead[..], n)
      && Quotient(tail, head, rep, outBegin[..], outEnd[..], arcHead[..])
      && NeighborsOk()
    }

    /** Finds the representative of a node and points everything on the way at it. */
    method Representative(h: nat) returns (x: nat)
      requires Apart() && |rep| == n && Forest(parent[..], rep) && h < n
      modifies parent
      ensures Forest(parent[..], rep) && x == rep[h] == parent[h] && x < n && rep[x] == x
    {
      hide Forest;
      x := h;
      NodeAt(parent[..], rep, h);
      while parent[x] != x
        invariant x < n && rep[x] == rep[h] && Forest(parent[..], rep)
        decreases n - x
      {
        NodeAt(parent[..], rep, x);
        x := parent[x];
      }
      NodeAt(parent[..], rep, x);
      var y := h;
      while parent[y] != y
        invariant y < n && rep[y] == x == rep[x] && x < n && Forest(parent[..], rep) && parent[x] == x
        invariant y == h || parent[h] == x
        decreases n - y
      {
        NodeAt(parent[..], rep, y);
        Compress(parent[..], rep, y);
        ghost var pa := parent[..];
        var z := parent[y];
        parent[y] := x;
        assert parent[..] == pa[y := rep[y]];
        y := z;
      }
      NodeAt(parent[..], rep, y);
    }

    /**
      Replaces the heads of the arcs at `current` by their representatives and keeps only
      those that are neither `v` nor neighbours already; the others become neighbours.
    */
    method CompactAdjacency(current: nat, v: nat)
      requires Apart() && |rep| == n && Forest(parent[..], rep) && HeadsBelow(arcHead[..], n) && NeighborsOk()
      requires current < n && outBegin[current] <= outEnd[current] <= |tail|
      modifies parent, arcHead, outEnd, inNeighborhood, neighborhood, this`neighborhoodSize
      ensures Forest(parent[..], rep) && HeadsBelow(arcHead[..], n) && NeighborsOk()
      ensures Compacted(rep, v, outBegin[current], old(outEnd[current]), old(arcHead[..]), old(neighborhood[..neighborhoodSize]),
                        outEnd[current], arcHead[..], neighborhood[..neighborhoodSize])
      ensures outEnd[..] == old(outEnd[..])[current := outEnd[current]]
    {
      hide *;
      var arcIn, arcEnd, arcOut := outBegin[current], outEnd[current], outBegin[current];
      ghost var b0, ah0, nb0 := outBegin[current], arcHead[..], neighborhood[..neighborhoodSize];
      StartCompacting(rep, v, b0, arcEnd, ah0, nb0);
      while arcIn != arcEnd
        invariant b0 <= arcOut <= arcIn <= arcEnd <= |tail| && NeighborsOk()
        invariant Forest(parent[..], rep) && HeadsBelow(arcHead[..], n) && outEnd[..] == old(outEnd[..])
        invariant Compacting(rep, v, b0, arcIn, arcEnd, ah0, nb0, arcOut, arcHead[..], neighborhood[..neighborhoodSize])
        decreases arcEnd - arcIn
      {
        ghost var ah1, nb1, flags := arcHead[..], neighborhood[..neighborhoodSize], inNeighborhood[..];
        HeadBelow(arcHead[..], n, arcIn);
        NeighborsFlagged();
        assert arcHead[..][arcIn] == arcHead[arcIn];
        var y := Representative(arcHead[arcIn]);
        CompactHead(rep, v, b0, arcIn, arcEnd, ah0, nb0, arcOut, ah1, nb1, y);
        HeadsSet(arcHead[..], n, arcIn, y);
        arcHead[arcIn] := parent[arcHead[arcIn]];
        ghost var ah2 := arcHead[..];
        assert ah2 == ah1[arcIn := y];
        assert flags[y] == inNeighborhood[y];
        if !inNeighborhood[arcHead[arcIn]] && arcHead[arcIn] != v {
          CompactKeep(rep, v, b0, arcIn, arcEnd, ah0, nb0, arcOut, ah2, nb1, y);
          HeadsSet(ah2, n, arcOut, y);
          FlagNew(nb1, flags, y);
          arcHead[arcOut] := arcHead[arcIn];
          assert arcHead[..] == ah2[arcOut := y];
          arcOut := arcOut + 1;
          inNeighborhood[y] := true;
          neighborhood[neighborhoodSize] := y;
          neighborhoodSize := neighborhoodSize + 1;
          assert neighborhood[..neighborhoodSize] == nb1 + [y];
          assert inNeighborhood[..] == flags[y := true];
          MakeNeighborsOk();
        } else {
          CompactDrop(rep, v, b0, arcIn, arcEnd, ah0, nb0, arcOut, ah2, nb1, y);
        }
        arcIn := arcIn + 1;
      }
      outEnd[current] := arcOut;
      EndCompacting(rep, v, b0, arcEnd, ah0, nb0, arcOut, arcHead[..], neighborhood[..neighborhoodSize]);
    }

    /**
      The neighbours of a representative in the quotient graph.  Its ring is walked once; arcs
      are compacted and adjacencies that are empty drop out of the ring.
    */
    method ComputeNeighborhoodOf(v: nat)
      requires Valid() && v < n && rep[v] == v
      modifies this`neighborhoodSize, this`ring, next, parent, outEnd, arcHead, inNeighborhood, neighborhood
      ensures Valid()
      ensures forall y: nat :: y in Neighbors() <==> y != v && Related(tail, head, rep, v, y)
    {
      hide *;
      ValidParts();
      ClearNeighborhood();
      ghost var be, en0, ah0, nx0 := outBegin[..], outEnd[..], arcHead[..], next[..];
      ghost var s: seq<nat>, i: nat := ring[v], 0;
      RingStart(nx0, rep, be, en0, ring, v);
      StartVisiting(rep, v, be, en0, ah0, |tail|);
      assert neighborhood[..neighborhoodSize] == [];
      ghost var ring0 := ring;
      var current, more := v, true;
      while more
        invariant Apart() && Forest(parent[..], rep) && HeadsBelow(arcHead[..], n) && NeighborsOk() && outBegin[..] == be
        invariant i <= |s| && ring == ring0
        invariant Visiting(rep, v, be, en0, ah0, outEnd[..], arcHead[..], neighborhood[..neighborhoodSize], Elements(s[..i]), |tail|)
        invariant Walking(nx0, next[..], rep, v, be, en0, s, i) && (more ==> i < |s| && s[i] == current) && (!more ==> i == |s|)
        decreases |s| - i
      {
        ghost var en1, ah1, nb1, nx := outEnd[..], arcHead[..], neighborhood[..neighborhoodSize], next[..];
        assert s[..i + 1] == s[..i] + [s[i]];
        CurrentNode(nx0, next[..], rep, v, be, en0, ah0, en1, ah1, nb1, s, i, |tail|);
        assert outEnd[current] == outEnd[..][current] && outBegin[current] == outBegin[..][current];
        CompactAdjacency(current, v);
        assert next[..] == nx && outBegin[..] == be;
        NextVisited(rep, v, be, en0, ah0, en1, ah1, nb1, s, i, outEnd[..], arcHead[..], neighborhood[..neighborhoodSize], |tail|);
        ghost var j: nat;
        var nextAdjacency;
        nextAdjacency, j := NextNonEmpty(current, v, nx0, nx, be, en0, s, i);
        ghost var nx1, pa, en2, ah2, nb2 := next[..], parent[..], outEnd[..], arcHead[..], neighborhood[..neighborhoodSize];
        SkipEmpty(nx0, nx1, rep, v, be, en0, ah0, outEnd[..], arcHead[..], neighborhood[..neighborhoodSize], s, i, j, |tail|);
        next[current] := nextAdjacency;
        assert next[..] == nx1[current := nextAdjacency] && parent[..] == pa && arcHead[..] == ah2 && outEnd[..] == en2;
        assert outBegin[..] == be && neighborhood[..neighborhoodSize] == nb2;
        s := s[..i + 1] + s[j..];
        i := i + 1;
        current := nextAdjacency;
        more := current != v;
        WalkOn(nx0, next[..], rep, v, be, en0, s, i, current);
      }
      DoneVisiting(tail, head, nx0, next[..], rep, v, be, en0, ah0, outEnd[..], arcHead[..], neighborhood[..neighborhoodSize], s, |tail|, ring);
      ring := ring[v := s];
      MakeValid();
      NeighborsAre();
    }

    /** Merges the class of the second representative into the class of the first. */
    method RewireArcsFromSecondToFirst(u: nat, v: nat)
      requires Valid() && u < n && v < u && rep[u] == u && rep[v] == v
      modifies this`rep, this`ring, parent, next
      ensures Valid() && rep == Joined(old(rep), u, v) && Neighbors() == old(Neighbors())
    {
      hide *;
      ValidParts();
      ghost var pa, nx, be, en, ah, nb := parent[..], next[..], outBegin[..], outEnd[..], arcHead[..], neighborhood[..neighborhoodSize];
      JoinForest(pa, rep, u, v);
      JoinRings(nx, rep, be, en, ring, u, v);
      JoinQuotient(tail, head, rep, be, en, ah, u, v);
      NeighborsAre();
      parent[v] := u;
      next[u], next[v] := next[v], next[u];
      assert parent[..] == pa[v := u] && next[..] == nx[u := nx[v]][v := nx[u]];
      assert outBegin[..] == be && outEnd[..] == en && arcHead[..] == ah && neighborhood[..neighborhoodSize] == nb;
      ring := (ring - {v})[u := Spliced(ring[u], ring[v])];
      rep := Joined(rep, u, v);
      NeighborsAre();
      MakeValid();
    }

    /** The next node of the ring that has arcs, or `v`. */
    method NextNonEmpty(current: nat, v: nat, ghost nx0: seq<nat>, ghost nx: seq<nat>, ghost be: seq<nat>, ghost en0: seq<nat>, ghost s: seq<nat>, ghost i: nat)
      returns (nextAdjacency: nat, ghost j: nat)
      requires Apart() && |rep| == n && next[..] == nx && outBegin[..] == be
      requires Walking(nx0, nx, rep, v, be, en0, s, i) && i < |s| && s[i] == current && current < n
      ensures i < j <= |s| && nextAdjacency == (if j < |s| then s[j] else s[0]) && nextAdjacency < n
      ensures Emptied(s, i, j, be, outEnd[..])
    {
      hide *;
      ghost var en := outEnd[..];
      NothingEmptied(nx0, nx, rep, v, be, en0, s, i, en);
      assert next[..][current] == next[current];
      nextAdjacency, j := next[current], i + 1;
      while outBegin[nextAdjacency] == outEnd[nextAdjacency] && nextAdjacency != v
        invariant i < j <= |s| && nextAdjacency == (if j < |s| then s[j] else s[0]) && nextAdjacency < n
        invariant Emptied(s, i, j, be, en)
        decreases |s| - j
      {
        assert next[..][nextAdjacency] == next[nextAdjacency] && outBegin[..][nextAdjacency] == outBegin[nextAdjacency];
        assert outEnd[..][nextAdjacency] == outEnd[nextAdjacency];
        RingNext(nx0, nx, rep, v, be, en0, s, i, j, en);
        nextAdjacency := next[nextAdjacency];
        j := j + 1;
      }
    }

    method ClearNeighborhood()
      requires Apart() && NeighborsOk()
      modifies this`neighborhoodSize, inNeighborhood
      ensures NeighborsOk() && neighborhoodSize == 0
    {
      for i := 0 to neighborhoodSize
        invariant neighborhoodSize == old(neighborhoodSize)
        invariant forall a: nat :: a < n && inNeighborhood[a] ==> a in neighborhood[i..neighborhoodSize]
      {
        assert neighborhood[i..neighborhoodSize] == [neighborhood[i]] + neighborhood[i + 1..neighborhoodSize];
        assert neighborhood[..neighborhoodSize][i] == neighborhood[i];
        inNeighborhood[neighborhood[i]] := false;
      }
      neighborhoodSize := 0;
    }

    lemma NeighborsAre()
      requires neighborhoodSize <= neighborhood.Length
      ensures Neighbors() == neighborhood[..neighborhoodSize]
    {
    }

    lemma ValidParts()
      requires Valid()
      ensures Apart() && |rep| == n && Forest(parent[..], rep) && Rings(next[..], rep, outBegin[..], outEnd[..], ring)
      ensures Layout(outBegin[..], outEnd[..], |tail|) && HeadsBelow(arcHead[..], n) && NeighborsOk()
      ensures Quotient(tail, head, rep, outBegin[..], outEnd[..], arcHead[..])
    {
    }

    lemma MakeValid()
      requires Apart() && |rep| == n && Forest(parent[..], rep) && Rings(next[..], rep, outBegin[..], outEnd[..], ring)
      requires Layout(outBegin[..], outEnd[..], |tail|) && HeadsBelow(arcHead[..], n) && NeighborsOk()
      requires Quotient(tail, head, rep, outBegin[..], outEnd[..], arcHead[..])
      ensures Valid()
    {
    }

    lemma MakeNeighborsOk()
      requires neighborhoodSize <= neighborhood.Length && Flagged(neighborhood[..neighborhoodSize], inNeighborhood[..])
      ensures NeighborsOk()
    {
    }

    lemma NeighborsFlagged()
      requires NeighborsOk()
      ensures neighborhoodSize <= neighborhood.Length && Flagged(neighborhood[..neighborhoodSize], inNeighborhood[..])
    {
    }
  }

  lemma NodeAt(pa: seq<nat>, rep: seq<nat>, a: nat)
    requires Forest(pa, rep) && a < |pa|
    ensures |rep| == |pa| && pa[a] < |pa| && rep[a] < |pa| && rep[rep[a]] == rep[a] && rep[pa[a]] == rep[a]
    ensures (pa[a] == a <==> rep[a] == a) && a <= pa[a] && a <= rep[a]
    ensures pa[rep[a]] == rep[a]
  {
    assert ForestNode(pa, rep, a) && ForestNode(pa, rep, rep[a]);
  }

  lemma HeadBelow(ah: seq<nat>, n: nat, k: nat)
    requires HeadsBelow(ah, n) && k < |ah|
    ensures ah[k] < n
  {
  }

  lemma HeadsSet(ah: seq<nat>, n: nat, k: nat, y: nat)
    requires HeadsBelow(ah, n) && k < |ah| && y < n
    ensures HeadsBelow(ah[k := y], n)
  {
  }

  lemma FlagNew(neighbors: seq<nat>, flags: seq<bool>, y: nat)
    requires Flagged(neighbors, flags) && y < |flags| && !flags[y]
    ensures |neighbors| < |flags| && Flagged(neighbors + [y], flags[y := true])
  {
    assert y !in neighbors;
    assert forall i :: 0 <= i < |neighbors| ==> neighbors[i] in neighbors;
    NoDupFits(neighbors + [y], |flags|);
  }

  lemma NoneCounted(tail: seq<nat>)
    ensures forall t: nat :: Count(tail, t, 0) == 0
  {
  }

  lemma NothingPlaced(tail: seq<nat>, head: seq<nat>, ah: seq<nat>)
    requires |ah| == |head| == |tail|
    ensures Placed(tail, head, ah, 0)
  {
  }

  lemma InitialRings(nx: seq<nat>, rep: seq<nat>, be: seq<nat>, en: seq<nat>, ring: map<nat, seq<nat>>)
    requires |nx| == |rep| == |be| == |en| && forall a: nat :: a < |rep| ==> nx[a] == a && rep[a] == a
    requires forall r: nat :: if r < |rep| then r in ring && ring[r] == [r] else r !in ring
    ensures Rings(nx, rep, be, en, ring)
  {
    forall r: nat | r in ring
      ensures RingOk(nx, rep, be, en, r, ring[r])
    {
      assert Step(nx, [r], 0);
    }
  }

  // ---------- Compacting one adjacency ----------

  /** `y` represents the head of one of the arcs from `b0` up to `i`. */
  ghost predicate Headed(rep: seq<nat>, b0: nat, i: nat, ah0: seq<nat>, y: nat) {
    exists k: nat :: b0 <= k < i && k < |ah0| && ah0[k] < |rep| && rep[ah0[k]] == y
  }

  ghost predicate Kept(b0: nat, o: nat, ah: seq<nat>, y: nat) {
    exists k: nat :: b0 <= k < o && k < |ah| && ah[k] == y
  }

  /** The arcs before `i` have been looked at; those kept end at `o`. */
  ghost predicate Compacting(rep: seq<nat>, v: nat, b0: nat, i: nat, e0: nat, ah0: seq<nat>, nb0: seq<nat>, o: nat, ah: seq<nat>, nb: seq<nat>) {
    && |ah| == |ah0| && b0 <= o <= i <= e0 <= |ah|
    && (forall k: nat :: k < |ah| && (k < b0 || k >= i) ==> ah[k] == ah0[k])
    && nb0 <= nb
    && (forall y: nat :: y in nb <==> y in nb0 || (y != v && Headed(rep, b0, i, ah0, y)))
    && (forall y: nat :: Kept(b0, o, ah, y) <==> y in nb && y !in nb0)
    && (forall y: nat :: y in nb && y !in nb0 ==> y < |rep| && rep[y] == y)
  }

  ghost predicate Compacted(rep: seq<nat>, v: nat, b0: nat, e0: nat, ah0: seq<nat>, nb0: seq<nat>, e: nat, ah: seq<nat>, nb: seq<nat>) {
    Compacting(rep, v, b0, e0, e0, ah0, nb0, e, ah, nb)
  }

  lemma StartCompacting(rep: seq<nat>, v: nat, b0: nat, e0: nat, ah0: seq<nat>, nb0: seq<nat>)
    requires b0 <= e0 <= |ah0|
    ensures Compacting(rep, v, b0, b0, e0, ah0, nb0, b0, ah0, nb0)
  {
  }

  lemma EndCompacting(rep: seq<nat>, v: nat, b0: nat, e0: nat, ah0: seq<nat>, nb0: seq<nat>, o: nat, ah: seq<nat>, nb: seq<nat>)
    requires Compacting(rep, v, b0, e0, e0, ah0, nb0, o, ah, nb)
    ensures Compacted(rep, v, b0, e0, ah0, nb0, o, ah, nb)
  {
  }

  lemma CompactHead(rep: seq<nat>, v: nat, b0: nat, i: nat, e0: nat, ah0: seq<nat>, nb0: seq<nat>, o: nat, ah: seq<nat>, nb: seq<nat>, y: nat)
    requires Compacting(rep, v, b0, i, e0, ah0, nb0, o, ah, nb) && i < e0
    requires i < |ah| && ah[i] < |rep| && rep[ah[i]] == y < |rep|
    ensures CompactingAt(rep, v, b0, i, e0, ah0, nb0, o, ah[i := y], nb, y)
  {
    KeptBelow(b0, o, ah, i, y);
    hide Headed, Kept;
  }

  lemma KeptBelow(b0: nat, o: nat, ah: seq<nat>, i: nat, y: nat)
    requires o <= i < |ah|
    ensures forall z: nat :: Kept(b0, o, ah[i := y], z) <==> Kept(b0, o, ah, z)
  {
    forall z: nat
      ensures Kept(b0, o, ah[i := y], z) <==> Kept(b0, o, ah, z)
    {
      if Kept(b0, o, ah, z) {
        var k: nat :| b0 <= k < o && k < |ah| && ah[k] == z;
        assert ah[i := y][k] == z;
      }
      if Kept(b0, o, ah[i := y], z) {
        var k: nat :| b0 <= k < o && k < |ah| && ah[i := y][k] == z;
        assert ah[k] == z;
      }
    }
  }

  /** Like `Compacting`, with the head at `i` already replaced by its representative `y`. */
  ghost predicate CompactingAt(rep: seq<nat>, v: nat, b0: nat, i: nat, e0: nat, ah0: seq<nat>, nb0: seq<nat>, o: nat, ah: seq<nat>, nb: seq<nat>, y: nat) {
    && |ah| == |ah0| && b0 <= o <= i < e0 <= |ah|
    && (forall k: nat :: k < |ah| && (k < b0 || k > i) ==> ah[k] == ah0[k])
    && ah0[i] < |rep| && rep[ah0[i]] == y && ah[i] == y && y < |rep|
    && nb0 <= nb
    && (forall z: nat :: z in nb <==> z in nb0 || (z != v && Headed(rep, b0, i, ah0, z)))
    && (forall z: nat :: Kept(b0, o, ah, z) <==> z in nb && z !in nb0)
    && (forall z: nat :: z in nb && z !in nb0 ==> z < |rep| && rep[z] == z)
  }

  lemma HeadedNext(rep: seq<nat>, b0: nat, i: nat, ah0: seq<nat>, y: nat)
    requires b0 <= i < |ah0| && ah0[i] < |rep| && rep[ah0[i]] == y
    ensures forall z: nat :: Headed(rep, b0, i + 1, ah0, z) <==> Headed(rep, b0, i, ah0, z) || z == y
  {
  }

  lemma CompactKeep(rep: seq<nat>, v: nat, b0: nat, i: nat, e0: nat, ah0: seq<nat>, nb0: seq<nat>, o: nat, ah: seq<nat>, nb: seq<nat>, y: nat)
    requires CompactingAt(rep, v, b0, i, e0, ah0, nb0, o, ah, nb, y)
    requires y !in nb && y != v && rep[y] == y
    ensures Compacting(rep, v, b0, i + 1, e0, ah0, nb0, o + 1, ah[o := y], nb + [y])
  {
    HeadedNext(rep, b0, i, ah0, y);
    KeptNext(b0, o, ah, y);
    hide Headed, Kept;
  }

  lemma KeptNext(b0: nat, o: nat, ah: seq<nat>, y: nat)
    requires b0 <= o < |ah|
    ensures forall z: nat :: Kept(b0, o + 1, ah[o := y], z) <==> Kept(b0, o, ah, z) || z == y
  {
    forall z: nat
      ensures Kept(b0, o + 1, ah[o := y], z) <==> Kept(b0, o, ah, z) || z == y
    {
      if Kept(b0, o, ah, z) {
        var k: nat :| b0 <= k < o && k < |ah| && ah[k] == z;
        assert ah[o := y][k] == z;
      }
      assert ah[o := y][o] == y;
      if Kept(b0, o + 1, ah[o := y], z) {
        var k: nat :| b0 <= k < o + 1 && k < |ah| && ah[o := y][k] == z;
        assert k < o ==> ah[k] == z;
      }
    }
  }

  lemma CompactDrop(rep: seq<nat>, v: nat, b0: nat, i: nat, e0: nat, ah0: seq<nat>, nb0: seq<nat>, o: nat, ah: seq<nat>, nb: seq<nat>, y: nat)
    requires CompactingAt(rep, v, b0, i, e0, ah0, nb0, o, ah, nb, y)
    requires y in nb || y == v
    ensures Compacting(rep, v, b0, i + 1, e0, ah0, nb0, o, ah, nb)
  {
    HeadedNext(rep, b0, i, ah0, y);
    hide Headed, Kept;
  }

  // ---------- Visiting a ring ----------

  /** Some visited node had an arc to class `y`. */
  ghost predicate HeadedBy(rep: seq<nat>, be: seq<nat>, en0: seq<nat>, ah0: seq<nat>, visited: set<nat>, y: nat) {
    exists b: nat :: b in visited && b < |be| && b < |en0| && Headed(rep, be[b], en0[b], ah0, y)
  }

  ghost predicate KeptBy(be: seq<nat>, en: seq<nat>, ah: seq<nat>, visited: set<nat>, y: nat) {
    exists b: nat :: b in visited && b < |be| && b < |en| && Kept(be[b], en[b], ah, y)
  }

  /** The visited nodes of class `v` have been compacted; everything else is as at the start. */
  ghost predicate Visiting(rep: seq<nat>, v: nat, be: seq<nat>, en0: seq<nat>, ah0: seq<nat>, en: seq<nat>, ah: seq<nat>, nb: seq<nat>, visited: set<nat>, m: nat) {
    && |be| == |en0| == |en| == |rep| && |ah| == |ah0| == m && Layout(be, en0, m)
    && (forall b: nat :: b in visited ==> b < |rep| && rep[b] == v)
    && (forall b: nat :: b < |rep| ==> be[b] <= en[b] <= en0[b])
    && (forall b: nat :: b < |rep| && b !in visited ==> en[b] == en0[b] && Same(be[b], en0[b], ah0, ah))
    && (forall y: nat :: y in nb <==> y != v && HeadedBy(rep, be, en0, ah0, visited, y))
    && (forall y: nat :: y in nb <==> KeptBy(be, en, ah, visited, y))
    && (forall y: nat :: y in nb ==> y < |rep| && rep[y] == y)
  }

  ghost predicate Same(b: nat, e: nat, ah0: seq<nat>, ah: seq<nat>) {
    |ah0| == |ah| && forall k: nat :: b <= k < e && k < |ah| ==> ah[k] == ah0[k]
  }

  lemma StartVisiting(rep: seq<nat>, v: nat, be: seq<nat>, en0: seq<nat>, ah0: seq<nat>, m: nat)
    requires Layout(be, en0, m) && |be| == |rep| && |ah0| == m
    ensures Visiting(rep, v, be, en0, ah0, en0, ah0, [], Elements([][..0]), m)
  {
  }

  /** The ring of `v` on the way: nodes that dropped out had no arcs, other rings are untouched. */
  ghost predicate Walking(nx0: seq<nat>, nx: seq<nat>, rep: seq<nat>, v: nat, be: seq<nat>, en0: seq<nat>, s: seq<nat>, i: nat) {
    && |nx0| == |nx| == |rep| == |be| == |en0| && Cycle(nx, s) && s[0] == v && i <= |s|
    && (forall k :: 0 <= k < |s| ==> s[k] < |rep| && rep[s[k]] == v)
    && (forall a: nat :: a < |rep| && rep[a] == v && a !in s ==> be[a] == en0[a])
    && (forall a: nat :: a < |nx| && rep[a] != v ==> nx[a] == nx0[a])
  }

  lemma RingStart(nx: seq<nat>, rep: seq<nat>, be: seq<nat>, en: seq<nat>, ring: map<nat, seq<nat>>, v: nat)
    requires Rings(nx, rep, be, en, ring) && v < |rep| && rep[v] == v
    ensures v in ring && ring[v] != [] && ring[v][0] == v && Walking(nx, nx, rep, v, be, en, ring[v], 0)
  {
    assert RingOk(nx, rep, be, en, v, ring[v]);
  }

  lemma CurrentNode(nx0: seq<nat>, nx: seq<nat>, rep: seq<nat>, v: nat, be: seq<nat>, en0: seq<nat>, ah0: seq<nat>,
      en: seq<nat>, ah: seq<nat>, nb: seq<nat>, s: seq<nat>, i: nat, m: nat)
    requires Walking(nx0, nx, rep, v, be, en0, s, i) && i < |s| && Visiting(rep, v, be, en0, ah0, en, ah, nb, Elements(s[..i]), m)
    ensures s[i] < |rep| && rep[s[i]] == v && s[i] !in Elements(s[..i]) && Step(nx, s, i)
    ensures be[s[i]] <= en[s[i]] <= m && en[s[i]] == en0[s[i]]
  {
    hide HeadedBy, KeptBy;
  }

  lemma HeadedSame(rep: seq<nat>, b0: nat, e0: nat, ah0: seq<nat>, ah: seq<nat>, y: nat)
    requires Same(b0, e0, ah0, ah)
    ensures Headed(rep, b0, e0, ah, y) <==> Headed(rep, b0, e0, ah0, y)
  {
    if Headed(rep, b0, e0, ah, y) {
      var k: nat :| b0 <= k < e0 && k < |ah| && ah[k] < |rep| && rep[ah[k]] == y;
      assert ah0[k] == ah[k];
    }
    if Headed(rep, b0, e0, ah0, y) {
      var k: nat :| b0 <= k < e0 && k < |ah0| && ah0[k] < |rep| && rep[ah0[k]] == y;
      assert ah[k] == ah0[k];
    }
  }

  lemma KeptSame(b0: nat, e: nat, ah0: seq<nat>, ah: seq<nat>, y: nat)
    requires Same(b0, e, ah0, ah)
    ensures Kept(b0, e, ah, y) <==> Kept(b0, e, ah0, y)
  {
    if Kept(b0, e, ah, y) {
      var k: nat :| b0 <= k < e && k < |ah| && ah[k] == y;
      assert ah0[k] == y;
    }
    if Kept(b0, e, ah0, y) {
      var k: nat :| b0 <= k < e && k < |ah0| && ah0[k] == y;
      assert ah[k] == y;
    }
  }

  /** The slots of another node are outside the compacted range. */
  lemma OtherSlots(rep: seq<nat>, v: nat, be: seq<nat>, en0: seq<nat>, m: nat, c: nat, b: nat, ah1: seq<nat>, ah: seq<nat>, nb1: seq<nat>, nb: seq<nat>, e: nat, eb: nat)
    requires Layout(be, en0, m) && c < |be| && b < |be| && b != c && eb <= en0[b]
    requires Compacted(rep, v, be[c], en0[c], ah1, nb1, e, ah, nb)
    ensures Same(be[b], eb, ah1, ah)
  {
    hide Headed, Kept;
    assert if b < c then en0[b] <= be[c] else en0[c] <= be[b];
  }

  lemma NextVisited(rep: seq<nat>, v: nat, be: seq<nat>, en0: seq<nat>, ah0: seq<nat>, en1: seq<nat>, ah1: seq<nat>, nb1: seq<nat>,
      s: seq<nat>, i: nat, en: seq<nat>, ah: seq<nat>, nb: seq<nat>, m: nat)
    requires i < |s| && Visiting(rep, v, be, en0, ah0, en1, ah1, nb1, Elements(s[..i]), m) && s[i] < |rep| && rep[s[i]] == v
    requires s[i] !in Elements(s[..i]) && s[i] < |en| && en == en1[s[i] := en[s[i]]] && en1[s[i]] == en0[s[i]]
    requires Compacted(rep, v, be[s[i]], en1[s[i]], ah1, nb1, en[s[i]], ah, nb)
    ensures Visiting(rep, v, be, en0, ah0, en, ah, nb, Elements(s[..i + 1]), m)
  {
    var c, old', visited := s[i], Elements(s[..i]), Elements(s[..i + 1]);
    assert s[..i + 1] == s[..i] + [c];
    assert visited == old' + {c};
    CompactedRange(rep, v, be[c], en0[c], ah1, nb1, en[c], ah, nb);
    forall b: nat | b < |rep| && b !in visited
      ensures en[b] == en0[b] && Same(be[b], en0[b], ah0, ah)
    {
      OtherSlots(rep, v, be, en0, m, c, b, ah1, ah, nb1, nb, en[c], en0[b]);
    }
    forall y: nat
      ensures y in nb <==> y != v && HeadedBy(rep, be, en0, ah0, visited, y)
      ensures y in nb <==> KeptBy(be, en, ah, visited, y)
      ensures y in nb ==> y < |rep| && rep[y] == y
    {
      NextNeighbor(rep, v, be, en0, ah0, en1, ah1, nb1, old', c, en, ah, nb, m, y);
    }
  }

  lemma CompactedRange(rep: seq<nat>, v: nat, b0: nat, e0: nat, ah1: seq<nat>, nb1: seq<nat>, e: nat, ah: seq<nat>, nb: seq<nat>)
    requires Compacted(rep, v, b0, e0, ah1, nb1, e, ah, nb)
    ensures b0 <= e <= e0 && |ah| == |ah1| && forall y: nat :: y in nb1 ==> y in nb
    ensures forall y: nat :: y in nb <==> y in nb1 || (y != v && Headed(rep, b0, e0, ah1, y))
    ensures forall y: nat :: Kept(b0, e, ah, y) <==> y in nb && y !in nb1
    ensures forall y: nat :: y in nb && y !in nb1 ==> y < |rep| && rep[y] == y
  {
    hide Headed, Kept;
  }

  lemma NextNeighbor(rep: seq<nat>, v: nat, be: seq<nat>, en0: seq<nat>, ah0: seq<nat>, en1: seq<nat>, ah1: seq<nat>, nb1: seq<nat>,
      visited: set<nat>, c: nat, en: seq<nat>, ah: seq<nat>, nb: seq<nat>, m: nat, y: nat)
    requires Visiting(rep, v, be, en0, ah0, en1, ah1, nb1, visited, m) && c < |rep| && c !in visited && en1[c] == en0[c]
    requires c < |en| && en == en1[c := en[c]] && Compacted(rep, v, be[c], en0[c], ah1, nb1, en[c], ah, nb)
    ensures y in nb <==> y != v && HeadedBy(rep, be, en0, ah0, visited + {c}, y)
    ensures y in nb <==> KeptBy(be, en, ah, visited + {c}, y)
    ensures y in nb ==> y < |rep| && rep[y] == y
  {
    CompactedRange(rep, v, be[c], en0[c], ah1, nb1, en[c], ah, nb);
    HeadedSame(rep, be[c], en0[c], ah0, ah1, y);
    HeadedMore(rep, be, en0, ah0, visited, c, y);
    KeptOthers(rep, v, be, en0, en1, ah1, nb1, visited, c, en, ah, nb, m, y);
    hide HeadedBy, KeptBy, Headed, Kept, Compacted;
  }

  lemma HeadedMore(rep: seq<nat>, be: seq<nat>, en0: seq<nat>, ah0: seq<nat>, visited: set<nat>, c: nat, y: nat)
    requires c < |be| == |en0|
    ensures HeadedBy(rep, be, en0, ah0, visited + {c}, y) <==> HeadedBy(rep, be, en0, ah0, visited, y) || Headed(rep, be[c], en0[c], ah0, y)
  {
    hide Headed;
  }

  lemma KeptOthers(rep: seq<nat>, v: nat, be: seq<nat>, en0: seq<nat>, en1: seq<nat>, ah1: seq<nat>, nb1: seq<nat>,
      visited: set<nat>, c: nat, en: seq<nat>, ah: seq<nat>, nb: seq<nat>, m: nat, y: nat)
    requires Layout(be, en0, m) && |be| == |en0| == |en1| && (forall b: nat :: b < |be| ==> en1[b] <= en0[b])
    requires c < |be| && c !in visited && c < |en| && en == en1[c := en[c]]
    requires Compacted(rep, v, be[c], en0[c], ah1, nb1, en[c], ah, nb)
    ensures KeptBy(be, en, ah, visited + {c}, y) <==> KeptBy(be, en1, ah1, visited, y) || Kept(be[c], en[c], ah, y)
  {
    hide Kept, Compacted;
    forall b: nat | b in visited && b < |be|
      ensures Kept(be[b], en[b], ah, y) <==> Kept(be[b], en1[b], ah1, y)
    {
      OtherSlots(rep, v, be, en0, m, c, b, ah1, ah, nb1, nb, en[c], en1[b]);
      KeptSame(be[b], en1[b], ah1, ah, y);
    }
    hide Layout;
  }

  ghost predicate Emptied(s: seq<nat>, i: nat, j: nat, be: seq<nat>, en: seq<nat>) {
    j <= |s| && forall t :: i < t < j ==> s[t] < |be| && s[t] < |en| && be[s[t]] == en[s[t]]
  }

  lemma NothingEmptied(nx0: seq<nat>, nx: seq<nat>, rep: seq<nat>, v: nat, be: seq<nat>, en0: seq<nat>, s: seq<nat>, i: nat, en: seq<nat>)
    requires Walking(nx0, nx, rep, v, be, en0, s, i) && i < |s|
    ensures Emptied(s, i, i + 1, be, en) && s[i] < |nx| && nx[s[i]] == (if i + 1 < |s| then s[i + 1] else s[0]) && nx[s[i]] < |rep|
  {
    assert Step(nx, s, i);
  }

  lemma RingNext(nx0: seq<nat>, nx: seq<nat>, rep: seq<nat>, v: nat, be: seq<nat>, en0: seq<nat>, s: seq<nat>, i: nat, j: nat, en: seq<nat>)
    requires Walking(nx0, nx, rep, v, be, en0, s, i) && i < j <= |s| && (if j < |s| then s[j] else s[0]) != v
    requires Emptied(s, i, j, be, en) && |en| == |be|
    requires j < |s| && s[j] < |be| ==> be[s[j]] == en[s[j]]
    ensures j < |s| && s[j] < |nx| && nx[s[j]] == (if j + 1 < |s| then s[j + 1] else s[0]) && nx[s[j]] < |rep| && Emptied(s, i, j + 1, be, en)
  {
    assert j < |s|;
    assert Step(nx, s, j);
  }

  lemma SkipEmpty(nx0: seq<nat>, nx: seq<nat>, rep: seq<nat>, v: nat, be: seq<nat>, en0: seq<nat>, ah0: seq<nat>,
      en: seq<nat>, ah: seq<nat>, nb: seq<nat>, s: seq<nat>, i: nat, j: nat, m: nat)
    requires Walking(nx0, nx, rep, v, be, en0, s, i) && i < j <= |s| && Emptied(s, i, j, be, en)
    requires Visiting(rep, v, be, en0, ah0, en, ah, nb, Elements(s[..i + 1]), m)
    ensures s[i] < |nx|
    ensures Walking(nx0, nx[s[i] := if j < |s| then s[j] else s[0]], rep, v, be, en0, s[..i + 1] + s[j..], i + 1)
    ensures (s[..i + 1] + s[j..])[..i + 1] == s[..i + 1]
  {
    var s' := s[..i + 1] + s[j..];
    Bypass(nx, s, i, j);
    hide HeadedBy, KeptBy, Cycle;
    assert Cycle(nx, s);
    forall a: nat | a < |rep| && rep[a] == v && a !in s'
      ensures be[a] == en0[a]
    {
      if a in s {
        var t :| 0 <= t < |s| && s[t] == a;
      }
    }
    assert s[0] == v && s'[0] == s[0];
    forall k | 0 <= k < |s'|
      ensures s'[k] < |rep| && rep[s'[k]] == v
    {
      assert s'[k] == if k <= i then s[k] else s[k + j - i - 1];
    }
  }

  lemma WalkOn(nx0: seq<nat>, nx: seq<nat>, rep: seq<nat>, v: nat, be: seq<nat>, en0: seq<nat>, s: seq<nat>, i: nat, current: nat)
    requires Walking(nx0, nx, rep, v, be, en0, s, i) && 0 < i && current == (if i < |s| then s[i] else s[0])
    ensures current != v ==> i < |s| && s[i] == current
    ensures current == v ==> i == |s|
  {
  }

  // ---------- After the walk ----------

  lemma StoredBefore(rep: seq<nat>, v: nat, be: seq<nat>, en0: seq<nat>, ah0: seq<nat>, s: seq<nat>, y: nat)
    requires |be| == |en0| == |rep|
    requires forall k :: 0 <= k < |s| ==> s[k] < |rep| && rep[s[k]] == v
    requires forall a: nat :: a < |rep| && rep[a] == v && a !in s ==> be[a] == en0[a]
    ensures HeadedBy(rep, be, en0, ah0, Elements(s), y) <==> Stored(rep, be, en0, ah0, v, y)
  {
    if HeadedBy(rep, be, en0, ah0, Elements(s), y) {
      var b: nat :| b in Elements(s) && b < |be| && b < |en0| && Headed(rep, be[b], en0[b], ah0, y);
      var k: nat :| be[b] <= k < en0[b] && k < |ah0| && ah0[k] < |rep| && rep[ah0[k]] == y;
      assert Slot(be, en0, b, k) && rep[b] == v;
    }
    if Stored(rep, be, en0, ah0, v, y) {
      var b: nat, k: nat :| Slot(be, en0, b, k) && b < |rep| && rep[b] == v && k < |ah0| && ah0[k] < |rep| && rep[ah0[k]] == y;
      assert Headed(rep, be[b], en0[b], ah0, y) && b in s;
    }
  }

  lemma StoredAfter(rep: seq<nat>, v: nat, be: seq<nat>, en0: seq<nat>, ah0: seq<nat>, en: seq<nat>, ah: seq<nat>, nb: seq<nat>, s: seq<nat>, m: nat, y: nat)
    requires Visiting(rep, v, be, en0, ah0, en, ah, nb, Elements(s), m)
    requires forall k :: 0 <= k < |s| ==> s[k] < |rep| && rep[s[k]] == v
    requires forall a: nat :: a < |rep| && rep[a] == v && a !in s ==> be[a] == en0[a]
    ensures Stored(rep, be, en, ah, v, y) <==> y in nb
  {
    hide HeadedBy;
    if y in nb {
      assert KeptBy(be, en, ah, Elements(s), y);
      var b: nat :| b in Elements(s) && b < |be| && b < |en| && Kept(be[b], en[b], ah, y);
      var k: nat :| be[b] <= k < en[b] && k < |ah| && ah[k] == y;
      assert Slot(be, en, b, k) && rep[b] == v;
    }
    if Stored(rep, be, en, ah, v, y) {
      var b: nat, k: nat :| Slot(be, en, b, k) && b < |rep| && rep[b] == v && k < |ah| && ah[k] < |rep| && rep[ah[k]] == y;
      assert b in s;
      assert Kept(be[b], en[b], ah, ah[k]);
      assert KeptBy(be, en, ah, Elements(s), ah[k]);
      assert ah[k] in nb;
    }
  }

  lemma StoredElsewhere(rep: seq<nat>, v: nat, be: seq<nat>, en0: seq<nat>, ah0: seq<nat>, en: seq<nat>, ah: seq<nat>, nb: seq<nat>, visited: set<nat>, m: nat, r: nat, y: nat)
    requires Visiting(rep, v, be, en0, ah0, en, ah, nb, visited, m) && r != v
    ensures Stored(rep, be, en, ah, r, y) <==> Stored(rep, be, en0, ah0, r, y)
  {
    hide HeadedBy, KeptBy;
    if Stored(rep, be, en, ah, r, y) {
      var b: nat, k: nat :| Slot(be, en, b, k) && b < |rep| && rep[b] == r && k < |ah| && ah[k] < |rep| && rep[ah[k]] == y;
      assert Same(be[b], en0[b], ah0, ah) && Slot(be, en0, b, k);
    }
    if Stored(rep, be, en0, ah0, r, y) {
      var b: nat, k: nat :| Slot(be, en0, b, k) && b < |rep| && rep[b] == r && k < |ah0| && ah0[k] < |rep| && rep[ah0[k]] == y;
      assert Same(be[b], en0[b], ah0, ah) && Slot(be, en, b, k);
    }
  }

  lemma DoneVisiting(tail: seq<nat>, head: seq<nat>, nx0: seq<nat>, nx: seq<nat>, rep: seq<nat>, v: nat, be: seq<nat>, en0: seq<nat>, ah0: seq<nat>,
      en: seq<nat>, ah: seq<nat>, nb: seq<nat>, s: seq<nat>, m: nat, ring: map<nat, seq<nat>>)
    requires Walking(nx0, nx, rep, v, be, en0, s, |s|) && Visiting(rep, v, be, en0, ah0, en, ah, nb, Elements(s[..|s|]), m)
    requires Rings(nx0, rep, be, en0, ring) && Quotient(tail, head, rep, be, en0, ah0) && v < |rep| && rep[v] == v
    ensures Rings(nx, rep, be, en, ring[v := s]) && Layout(be, en, m) && Quotient(tail, head, rep, be, en, ah)
    ensures forall y: nat :: y in nb <==> y != v && Related(tail, head, rep, v, y)
  {
    assert s[..|s|] == s;
    forall r: nat, y: nat | r != y
      ensures Stored(rep, be, en, ah, r, y) <==> Related(tail, head, rep, r, y)
      ensures r == v ==> (y in nb <==> Related(tail, head, rep, v, y))
    {
      StoredSame(tail, head, nx0, nx, rep, v, be, en0, ah0, en, ah, nb, s, m, r, y);
    }
    LayoutShrinks(rep, v, be, en0, ah0, en, ah, nb, Elements(s), m);
    RingsKept(nx0, nx, rep, v, be, en0, ah0, en, ah, nb, s, m, ring);
    hide Stored, Related, HeadedBy, KeptBy;
    forall y: nat
      ensures y in nb ==> y != v
    {
    }
  }

  lemma StoredSame(tail: seq<nat>, head: seq<nat>, nx0: seq<nat>, nx: seq<nat>, rep: seq<nat>, v: nat, be: seq<nat>, en0: seq<nat>, ah0: seq<nat>,
      en: seq<nat>, ah: seq<nat>, nb: seq<nat>, s: seq<nat>, m: nat, r: nat, y: nat)
    requires Walking(nx0, nx, rep, v, be, en0, s, |s|) && Visiting(rep, v, be, en0, ah0, en, ah, nb, Elements(s), m)
    requires Quotient(tail, head, rep, be, en0, ah0) && r != y
    ensures Stored(rep, be, en, ah, r, y) <==> Related(tail, head, rep, r, y)
    ensures r == v ==> (y in nb <==> Related(tail, head, rep, v, y))
  {
    if r == v {
      StoredBefore(rep, v, be, en0, ah0, s, y);
      StoredAfter(rep, v, be, en0, ah0, en, ah, nb, s, m, y);
    } else {
      StoredElsewhere(rep, v, be, en0, ah0, en, ah, nb, Elements(s), m, r, y);
    }
    hide Stored, Related, HeadedBy, KeptBy, Cycle;
  }

  lemma LayoutShrinks(rep: seq<nat>, v: nat, be: seq<nat>, en0: seq<nat>, ah0: seq<nat>, en: seq<nat>, ah: seq<nat>, nb: seq<nat>, visited: set<nat>, m: nat)
    requires Visiting(rep, v, be, en0, ah0, en, ah, nb, visited, m)
    ensures Layout(be, en, m)
  {
    hide HeadedBy, KeptBy, Same;
  }

  lemma RingsKept(nx0: seq<nat>, nx: seq<nat>, rep: seq<nat>, v: nat, be: seq<nat>, en0: seq<nat>, ah0: seq<nat>,
      en: seq<nat>, ah: seq<nat>, nb: seq<nat>, s: seq<nat>, m: nat, ring: map<nat, seq<nat>>)
    requires Walking(nx0, nx, rep, v, be, en0, s, |s|) && Visiting(rep, v, be, en0, ah0, en, ah, nb, Elements(s), m)
    requires Rings(nx0, rep, be, en0, ring) && v < |rep| && rep[v] == v
    ensures Rings(nx, rep, be, en, ring[v := s])
  {
    hide HeadedBy, KeptBy, Same;
    var more := ring[v := s];
    forall r: nat | r in more
      ensures RingOk(nx, rep, be, en, r, more[r])
    {
      if r != v {
        assert RingOk(nx0, rep, be, en0, r, ring[r]);
        RingElsewhere(nx0, nx, rep, v, be, en0, en, r, ring[r], Elements(s));
      }
    }
  }

  lemma RingElsewhere(nx0: seq<nat>, nx: seq<nat>, rep: seq<nat>, v: nat, be: seq<nat>, en0: seq<nat>, en: seq<nat>, r: nat, t: seq<nat>, visited: set<nat>)
    requires |nx0| == |nx| == |rep| == |be| == |en0| == |en| && RingOk(nx0, rep, be, en0, r, t) && r != v
    requires forall a: nat :: a < |nx| && rep[a] != v ==> nx[a] == nx0[a]
    requires forall b: nat :: b in visited ==> b < |rep| && rep[b] == v
    requires forall b: nat :: b < |rep| && b !in visited ==> en[b] == en0[b]
    ensures RingOk(nx, rep, be, en, r, t)
  {
    forall i: nat | i < |t|
      ensures Step(nx, t, i)
    {
      assert Step(nx0, t, i);
    }
  }
}
