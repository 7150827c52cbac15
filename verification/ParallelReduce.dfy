/** Clause removal of the multi-threaded clause debugger: independent workers on private copies, then a merge. */
module ParallelReduce {
  import opened Wrappers
  import DeltaLists

  type Clause = seq<int>
  type Formula = seq<Clause>
  type Slot = Option<Clause>

  /** The clauses a slot array stands for: removed ones are not printed. */
  function Kept(t: seq<Slot>): Formula {
    if t == [] then [] else (if t[0].Some? then [t[0].value] else []) + Kept(t[1..])
  }

  function Gone(t: seq<Slot>): nat { if t == [] then 0 else (if t[0].None? then 1 else 0) + Gone(t[1..]) }

  predicate Full(t: seq<Slot>) { forall i: nat :: i < |t| ==> t[i].Some? }

  /** `t` is `h` with some clauses removed. */
  predicate Thinned(h: seq<Slot>, t: seq<Slot>) {
    |t| == |h| && forall i: nat :: i < |h| ==> t[i] == h[i] || t[i] == None
  }

  predicate SameOutside(h: seq<Slot>, t: seq<Slot>, start: nat, end: nat) {
    |t| == |h| && forall i: nat :: i < |h| && !(start <= i < end) ==> t[i] == h[i]
  }

  /** No single clause of the range can be removed. */
  ghost predicate Needed(runs: Formula -> bool, h: seq<Slot>, start: nat, end: nat) {
    forall i: nat {:trigger h[i := None]} :: start <= i < end && i < |h| ==> !runs(Kept(h[i := None]))
  }

  /** No single clause of the formula can be removed. */
  ghost predicate OneMinimal(runs: Formula -> bool, f: Formula) {
    forall i: nat {:trigger DeltaLists.Without(f, i)} :: i < |f| ==> !runs(DeltaLists.Without(f, i))
  }

  function Cleared(t: seq<Slot>, start: nat, end: nat): seq<Slot>
    requires start <= end <= |t|
  {
    t[..start] + seq(end - start, _ => None) + t[end..]
  }

  lemma NeededNone(runs: Formula -> bool, h: seq<Slot>, start: nat)
    ensures Needed(runs, h, start, start)
  {
  }

  lemma NeededExtend(runs: Formula -> bool, h: seq<Slot>, start: nat, position: nat)
    requires Needed(runs, h, start, position) && position < |h| && !runs(Kept(Cleared(h, position, position + 1)))
    ensures Needed(runs, h, start, position + 1)
  {
    var none: seq<Slot> := seq(1, _ => None);
    assert none == [None];
    assert Cleared(h, position, position + 1) == h[position := None];
    forall i: nat {:trigger h[i := None]} | start <= i < position + 1 && i < |h| ensures !runs(Kept(h[i := None])) {
    }
  }

  /** The list without the slots listed in `gone`. */
  function Dropped(h: seq<Slot>, gone: seq<nat>): seq<Slot> {
    seq(|h|, k requires 0 <= k < |h| => if k in gone then None else h[k])
  }

  lemma DroppedAt(h: seq<Slot>, gone: seq<nat>)
    ensures |Dropped(h, gone)| == |h| && forall k: nat :: k < |h| ==> Dropped(h, gone)[k] == if k in gone then None else h[k]
  {
  }

  /** At some moment between `h` and `s` slot `k` could not be removed. */
  ghost predicate Refusal(runs: Formula -> bool, h: seq<Slot>, s: seq<Slot>, t: seq<Slot>, k: nat) {
    Thinned(h, t) && Thinned(t, s) && k < |t| && !runs(Kept(t[k := None]))
  }

  /** Slot `k` is gone, or was refused alone next to what was kept at that moment. */
  ghost predicate TriedAlone(runs: Formula -> bool, h: seq<Slot>, s: seq<Slot>, k: nat) {
    k < |s| && (s[k] == None || exists t: seq<Slot> :: Refusal(runs, h, s, t, k))
  }

  /** At some moment between `h` and `s` the listed slots `a..b`, at most `width` of them and `x` among them, could not be removed. */
  ghost predicate WindowRefused(runs: Formula -> bool, h: seq<Slot>, s: seq<Slot>, t: seq<Slot>, last: seq<nat>, width: nat, a: nat, b: nat, x: nat) {
    a <= x < b <= |last| && b <= a + width && Thinned(h, t) && Thinned(t, s) && !runs(Kept(Dropped(t, last[a..b])))
  }

  /** The first `n` listed slots are gone or were refused in a window. */
  ghost predicate AllTried(runs: Formula -> bool, h: seq<Slot>, s: seq<Slot>, last: seq<nat>, width: nat, n: nat) {
    forall x: nat :: x < n && x < |last| ==> Tried(runs, h, s, last, width, x)
  }

  ghost predicate Tried(runs: Formula -> bool, h: seq<Slot>, s: seq<Slot>, last: seq<nat>, width: nat, x: nat) {
    x < |last| && last[x] < |s| &&
    (s[last[x]] == None || exists t: seq<Slot>, a: nat, b: nat :: WindowRefused(runs, h, s, t, last, width, a, b, x))
  }

  lemma TriedStays(runs: Formula -> bool, h: seq<Slot>, s: seq<Slot>, u: seq<Slot>, last: seq<nat>, width: nat, x: nat)
    requires Thinned(s, u) && Tried(runs, h, s, last, width, x)
    ensures Tried(runs, h, u, last, width, x)
  {
    hide Kept, Dropped;
    if s[last[x]] != None {
      var t: seq<Slot>, a: nat, b: nat :| WindowRefused(runs, h, s, t, last, width, a, b, x);
      assert WindowRefused(runs, h, u, t, last, width, a, b, x);
    }
  }

  /** A window of one slot tries it alone. */
  lemma TriedOne(runs: Formula -> bool, h: seq<Slot>, s: seq<Slot>, last: seq<nat>, x: nat)
    requires Tried(runs, h, s, last, 1, x) && |h| == |s|
    ensures TriedAlone(runs, h, s, last[x])
  {
    hide Kept;
    if s[last[x]] != None {
      var t: seq<Slot>, a: nat, b: nat :| WindowRefused(runs, h, s, t, last, 1, a, b, x);
      assert last[a..b] == [last[x]];
      assert Dropped(t, [last[x]]) == t[last[x] := None];
      assert Refusal(runs, h, s, t, last[x]);
    }
  }

  /** One more window. */
  lemma WindowTried(runs: Formula -> bool, h: seq<Slot>, s: seq<Slot>, u: seq<Slot>, last: seq<nat>, width: nat, a: nat, b: nat)
    requires Thinned(h, s) && a <= b <= |last| && b <= a + width && AllTried(runs, h, s, last, width, a)
    requires forall x: nat :: x < |last| ==> last[x] < |s|
    requires u == if runs(Kept(Dropped(s, last[a..b]))) then Dropped(s, last[a..b]) else s
    ensures AllTried(runs, h, u, last, width, b)
  {
    hide Kept, Tried;
    DroppedAt(s, last[a..b]);
    assert Thinned(s, u) && Thinned(s, s);
    hide Dropped;
    forall x: nat | x < b
      ensures Tried(runs, h, u, last, width, x)
    {
      if x < a {
        TriedStays(runs, h, s, u, last, width, x);
      } else {
        InWindow(runs, h, s, u, last, width, a, b, x);
      }
    }
  }

  lemma InWindow(runs: Formula -> bool, h: seq<Slot>, s: seq<Slot>, u: seq<Slot>, last: seq<nat>, width: nat, a: nat, b: nat, x: nat)
    requires Thinned(h, s) && a <= x < b <= |last| && b <= a + width && last[x] < |s|
    requires u == if runs(Kept(Dropped(s, last[a..b]))) then Dropped(s, last[a..b]) else s
    ensures Tried(runs, h, u, last, width, x)
  {
    hide Kept;
    assert last[a..b][x - a] == last[x];
    if !runs(Kept(Dropped(s, last[a..b]))) {
      assert WindowRefused(runs, h, u, s, last, width, a, b, x);
    }
  }

  lemma ListedGone(failed: seq<Slot>, base: WorkerResult, last: seq<nat>)
    requires ElsewhereGone(failed, base, last, |failed|)
    ensures forall x: nat :: x < |last| ==> last[x] < |failed| && failed[last[x]] == None
  {
  }

  lemma ThinnedLength(h: seq<Slot>, t: seq<Slot>)
    requires Thinned(h, t)
    ensures |t| == |h|
  {
  }

  lemma MergedThins(runs: Formula -> bool, h: seq<Slot>, s: seq<Slot>, u: seq<Slot>, gone: seq<nat>)
    requires Thinned(h, s) && u == if runs(Kept(Dropped(s, gone))) then Dropped(s, gone) else s
    ensures Thinned(h, u)
  {
    hide Kept;
    DroppedAt(s, gone);
  }

  lemma NoneTried(runs: Formula -> bool, h: seq<Slot>, s: seq<Slot>, last: seq<nat>, width: nat)
    ensures AllTried(runs, h, s, last, width, 0)
  {
  }

  lemma OthersTried(runs: Formula -> bool, h: seq<Slot>, s: seq<Slot>, failed: seq<Slot>, base: WorkerResult, last: seq<nat>)
    requires AllTried(runs, h, s, last, 1, |last|) && ElsewhereGone(failed, base, last, |failed|) && |h| == |s|
    ensures forall k: nat :: k < |failed| && !(base.start <= k < base.end) && failed[k] == None ==> TriedAlone(runs, h, s, k)
  {
    hide TriedAlone, Tried;
    forall k: nat | k < |failed| && !(base.start <= k < base.end) && failed[k] == None
      ensures TriedAlone(runs, h, s, k)
    {
      var x: nat :| x < |last| && last[x] == k;
      TriedOne(runs, h, s, last, x);
    }
  }

  lemma WindowStart(h: seq<Slot>, start: nat)
    ensures Thinned(h, h) && SameOutside(h, h, start, start)
  {
  }

  lemma WindowKept(h: seq<Slot>, before: seq<Slot>, after: seq<Slot>, start: nat, position: nat, stop: nat)
    requires Thinned(h, before) && SameOutside(h, before, start, position) && start <= position <= stop <= |h|
    requires after == before || after == Cleared(before, position, stop)
    ensures Thinned(h, after) && SameOutside(h, after, start, stop)
  {
  }

  lemma WindowUntouched(h: seq<Slot>, t: seq<Slot>, start: nat, position: nat, stop: nat)
    requires SameOutside(h, t, start, position) && start <= position <= stop <= |h|
    ensures t[position..stop] == h[position..stop]
  {
  }

  /** A window starts every `width` slots. */
  ghost predicate Boundary(start: nat, width: nat, p: nat) {
    width > 0 && exists k: nat :: Edge(start, width, k) == p
  }

  function Edge(start: nat, width: nat, k: nat): nat { start + k * width }

  function StopOf(width: nat, end: nat, p: nat): nat { if p + width < end then p + width else end }

  /** The list when the window `p..q` is tried: what is left before it, nothing in it, everything after it. */
  function Trial(h: seq<Slot>, t: seq<Slot>, p: nat, q: nat): seq<Slot>
    requires p <= q <= |h| == |t|
  {
    t[..p] + seq(q - p, _ => None) + h[q..]
  }

  /** The window is dropped exactly when the formula runs without it, next to what is left before it. */
  ghost predicate WindowDone(runs: Formula -> bool, h: seq<Slot>, t: seq<Slot>, p: nat, q: nat)
    requires p <= q <= |h| == |t|
  {
    t[p..q] == if runs(Kept(Trial(h, t, p, q))) then seq(q - p, _ => None) else h[p..q]
  }

  /** The windows that start before `position` have been decided one after the other. */
  ghost predicate Greedy(runs: Formula -> bool, h: seq<Slot>, width: nat, start: nat, end: nat, position: nat, t: seq<Slot>)
    requires end <= |h| == |t|
  {
    forall p: nat :: Boundary(start, width, p) && p < position && p < end ==> WindowDone(runs, h, t, p, StopOf(width, end, p))
  }

  lemma NextBoundary(start: nat, width: nat, p: nat)
    requires Boundary(start, width, p)
    ensures Boundary(start, width, p + width) && Boundary(start, width, start)
    ensures forall r: nat :: Boundary(start, width, r) && r < p + width ==> r <= p
  {
    hide Edge;
    var k: nat :| Edge(start, width, k) == p;
    EdgesApart(start, width, k);
    assert Edge(start, width, k + 1) == p + width;
    forall r: nat | Boundary(start, width, r) && r < p + width
      ensures r <= p
    {
      var j: nat :| Edge(start, width, j) == r;
    }
  }

  lemma EdgesApart(start: nat, width: nat, k: nat)
    ensures Edge(start, width, 0) == start && Edge(start, width, k + 1) == Edge(start, width, k) + width
    ensures forall j: nat :: if j > k then Edge(start, width, j) >= Edge(start, width, k) + width else Edge(start, width, j) <= Edge(start, width, k)
  {
    assert (k + 1) * width == k * width + width;
    forall j: nat
      ensures if j > k then Edge(start, width, j) >= Edge(start, width, k) + width else Edge(start, width, j) <= Edge(start, width, k)
    {
      if j > k {
        DeltaLists.Scaled(j, k + 1, width);
      } else {
        DeltaLists.Scaled(k, j, width);
      }
    }
  }

  /** A window is decided by what lies before its end. */
  lemma DoneEarlier(runs: Formula -> bool, h: seq<Slot>, t: seq<Slot>, u: seq<Slot>, p: nat, q: nat)
    requires p <= q <= |h| == |t| == |u| && t[..q] == u[..q] && WindowDone(runs, h, t, p, q)
    ensures WindowDone(runs, h, u, p, q)
  {
    assert t[..p] == t[..q][..p] && u[..p] == u[..q][..p];
    assert t[p..q] == t[..q][p..] && u[p..q] == u[..q][p..];
  }

  lemma GreedyNext(runs: Formula -> bool, h: seq<Slot>, width: nat, start: nat, end: nat, position: nat, before: seq<Slot>, after: seq<Slot>)
    requires end <= |h| == |before| == |after| && Boundary(start, width, position) && position < end
    requires Greedy(runs, h, width, start, end, position, before) && SameOutside(h, before, start, position)
    requires var stop := StopOf(width, end, position);
      after == if runs(Kept(Cleared(before, position, stop))) then Cleared(before, position, stop) else before
    ensures Greedy(runs, h, width, start, end, StopOf(width, end, position), after)
  {
    var stop := StopOf(width, end, position);
    NextBoundary(start, width, position);
    assert Cleared(before, position, stop) == Trial(h, after, position, stop);
    assert before[position..stop] == h[position..stop];
    assert WindowDone(runs, h, after, position, stop);
    hide Kept, Trial, Boundary;
    forall p: nat | Boundary(start, width, p) && p < stop && p < end
      ensures WindowDone(runs, h, after, p, StopOf(width, end, p))
    {
      if p < position {
        EarlierWindow(start, width, p, position);
        var q := StopOf(width, end, p);
        assert before[..q] == after[..q];
        DoneEarlier(runs, h, before, after, p, q);
      }
    }
  }

  lemma GreedyStarts(runs: Formula -> bool, h: seq<Slot>, width: nat, start: nat, end: nat)
    requires end <= |h| && width > 0
    ensures Greedy(runs, h, width, start, end, start, h) && Boundary(start, width, start)
  {
    assert Edge(start, width, 0) == start;
  }

  lemma EarlierWindow(start: nat, width: nat, p: nat, r: nat)
    requires Boundary(start, width, p) && Boundary(start, width, r) && p < r
    ensures p + width <= r
  {
    NextBoundary(start, width, p);
  }

  datatype WorkerResult = WorkerResult(start: nat, end: nat, removed: nat, test: seq<Slot>)

  ghost predicate ResultOk(runs: Formula -> bool, h: seq<Slot>, width: nat, r: WorkerResult) {
    r.start < r.end <= |h| && Thinned(h, r.test) && SameOutside(h, r.test, r.start, r.end) &&
    r.removed == Gone(r.test) &&
    (r.removed > 0 ==> runs(Kept(r.test))) &&
    (r.removed == 0 && width == 1 ==> Needed(runs, h, r.start, r.end)) &&
    Greedy(runs, h, width, r.start, r.end, r.end, r.test)
  }

  function Removed(rs: seq<WorkerResult>): nat { if rs == [] then 0 else Removed(rs[..|rs| - 1]) + rs[|rs| - 1].removed }

  // ---- facts about slots ----

  lemma {:induction false} KeptAppend(a: seq<Slot>, b: seq<Slot>)
    ensures Kept(a + b) == Kept(a) + Kept(b)
  {
    if a == [] {
      assert a + b == b;
    } else {
      assert (a + b)[1..] == a[1..] + b;
      KeptAppend(a[1..], b);
    }
  }

  lemma {:induction false} GoneAppend(a: seq<Slot>, b: seq<Slot>)
    ensures Gone(a + b) == Gone(a) + Gone(b)
  {
    if a == [] {
      assert a + b == b;
    } else {
      assert (a + b)[1..] == a[1..] + b;
      GoneAppend(a[1..], b);
    }
  }

  lemma {:induction false} FullKept(t: seq<Slot>)
    requires Full(t)
    ensures |Kept(t)| == |t| && Gone(t) == 0
    ensures forall i: nat :: i < |t| ==> Kept(t)[i] == t[i].value
  {
    if t != [] {
      FullKept(t[1..]);
    }
  }

  lemma {:induction false} GoneUpdate(t: seq<Slot>, i: nat)
    requires i < |t| && t[i].Some?
    ensures Gone(t[i := None]) == Gone(t) + 1
  {
    assert t == t[..i] + ([t[i]] + t[i + 1..]);
    assert t[i := None] == t[..i] + ([None] + t[i + 1..]);
    GoneAppend(t[..i], [t[i]] + t[i + 1..]);
    GoneAppend(t[..i], [None] + t[i + 1..]);
  }

  lemma {:induction false} GoneNone(h: seq<Slot>, t: seq<Slot>)
    requires Full(h) && Thinned(h, t) && Gone(t) == 0
    ensures t == h
  {
    if h != [] {
      assert Thinned(h[1..], t[1..]);
      GoneNone(h[1..], t[1..]);
      assert h == [h[0]] + h[1..] && t == [t[0]] + t[1..];
    }
  }

  lemma GoneSlice(h: seq<Slot>, t: seq<Slot>, start: nat, end: nat)
    requires Full(h) && start <= end <= |h| && SameOutside(h, t, start, end)
    ensures Gone(t) == Gone(t[start..end])
  {
    assert t == t[..start] + (t[start..end] + t[end..]);
    GoneAppend(t[..start], t[start..end] + t[end..]);
    GoneAppend(t[start..end], t[end..]);
    FullKept(t[..start]);
    FullKept(t[end..]);
  }

  lemma GoneSplit(t: seq<Slot>, i: nat, j: nat)
    requires i <= j <= |t|
    ensures Gone(t[..j]) == Gone(t[..i]) + Gone(t[i..j]) && Gone(t[..j]) <= Gone(t)
  {
    assert t[..j] == t[..i] + t[i..j];
    GoneAppend(t[..i], t[i..j]);
    assert t == t[..j] + t[j..];
    GoneAppend(t[..j], t[j..]);
  }

  lemma KeptParts(a: seq<Slot>, x: Slot, b: seq<Slot>)
    ensures Kept(a + [x] + b) == Kept(a) + (if x.Some? then [x.value] else []) + Kept(b)
  {
    KeptAppend(a + [x], b);
    KeptAppend(a, [x]);
    assert Kept([x]) == (if x.Some? then [x.value] else []) by { assert [x][1..] == []; }
  }

  lemma KeptWithout(h: seq<Slot>, i: nat)
    requires Full(h) && i < |h|
    ensures |Kept(h)| == |h| && Kept(h[i := None]) == DeltaLists.Without(Kept(h), i)
  {
    hide Kept, Full, DeltaLists.Without;
    FullKept(h);
    FullPrefix(h, i);
    var a, b := h[..i], h[i + 1..];
    FullKept(a);
    assert h == a + [h[i]] + b && h[i := None] == a + [None] + b;
    KeptParts(a, h[i], b);
    KeptParts(a, None, b);
    GapMiddle(Kept(a), h[i].value, Kept(b));
  }

  lemma FullPrefix(h: seq<Slot>, i: nat)
    requires Full(h) && i < |h|
    ensures Full(h[..i]) && h[i].Some?
  {
  }

  lemma GapMiddle(a: Formula, x: Clause, b: Formula)
    ensures DeltaLists.Without(a + [x] + b, |a|) == a + b
  {
    assert (a + [x] + b)[..|a|] == a && (a + [x] + b)[|a| + 1..] == b;
  }

  lemma NeededMinimal(runs: Formula -> bool, h: seq<Slot>)
    requires Full(h) && Needed(runs, h, 0, |h|)
    ensures OneMinimal(runs, Kept(h))
  {
    FullKept(h);
    forall i: nat {:trigger DeltaLists.Without(Kept(h), i)} | i < |Kept(h)| ensures !runs(DeltaLists.Without(Kept(h), i)) {
      KeptWithout(h, i);
    }
  }

  lemma {:induction false} ThinnedSublist(h: seq<Slot>, t: seq<Slot>)
    requires Full(h) && Thinned(h, t)
    ensures DeltaLists.Sublist(Kept(t), Kept(h))
  {
    if h == [] {
      DeltaLists.SublistSelf(Kept(h));
    } else {
      var i := |h| - 1;
      ThinnedSublist(h[..i], t[..i]);
      assert h == h[..i] + [h[i]] && t == t[..i] + [t[i]];
      KeptAppend(h[..i], [h[i]]);
      KeptAppend(t[..i], [t[i]]);
      assert Full(h[..i]);
      assert Kept([h[i]]) == [h[i].value] by { assert [h[i]][1..] == []; }
      assert Kept([t[i]]) == (if t[i].Some? then [h[i].value] else []) by { assert [t[i]][1..] == []; }
      ExtendSublist(Kept(t[..i]), Kept(h[..i]), Kept([t[i]]), h[i].value);
    }
  }

  lemma ExtendSublist(s: Formula, t: Formula, more: Formula, c: Clause)
    requires DeltaLists.Sublist(s, t) && (more == [] || more == [c])
    ensures DeltaLists.Sublist(s + more, t + [c])
  {
    var e: seq<nat> :| DeltaLists.Embedding(s, t, e);
    if more == [] {
      assert s + more == s;
      assert DeltaLists.Embedding(s, t + [c], e);
    } else {
      assert DeltaLists.Embedding(s + more, t + [c], e + [|t|]);
    }
  }

  /** `last` lists removed slots only, and all of those below `n` outside the base worker's range. */
  predicate ElsewhereGone(failed: seq<Slot>, base: WorkerResult, last: seq<nat>, n: nat) {
    (forall x: nat :: x < |last| ==> last[x] < |failed| && failed[last[x]] == None) &&
    (forall k: nat :: k < n && k < |failed| && !(base.start <= k < base.end) && failed[k] == None ==> k in last)
  }

  lemma GoneStart(failed: seq<Slot>, base: WorkerResult)
    ensures ElsewhereGone(failed, base, [], 0) && Gone(failed[..0]) == 0
  {
  }

  lemma SkipBase(failed: seq<Slot>, base: WorkerResult, last: seq<nat>)
    requires ElsewhereGone(failed, base, last, base.start)
    ensures ElsewhereGone(failed, base, last, base.end)
  {
  }

  lemma GoneNext(failed: seq<Slot>, base: WorkerResult, last: seq<nat>, k: nat)
    requires ElsewhereGone(failed, base, last, k) && k < |failed|
    ensures failed[k] == None ==> ElsewhereGone(failed, base, last + [k], k + 1)
    ensures failed[k] != None ==> ElsewhereGone(failed, base, last, k + 1)
  {
  }

  lemma GoneOne(t: seq<Slot>, k: nat)
    requires k < |t|
    ensures Gone(t[k..k + 1]) == if t[k] == None then 1 else 0
  {
    assert t[k..k + 1] == [t[k]];
    assert [t[k]][1..] == [];
  }

  ghost predicate AllOk(runs: Formula -> bool, h: seq<Slot>, width: nat, rs: seq<WorkerResult>) {
    forall i: nat {:trigger rs[i]} :: i < |rs| ==> ResultOk(runs, h, width, rs[i])
  }

  /** What the workers leave when all have been joined. */
  ghost predicate WorkersDone(runs: Formula -> bool, h: seq<Slot>, width: nat, rs: seq<WorkerResult>) {
    Full(h) && Covers(rs, |h|) && AllOk(runs, h, width, rs)
  }

  /** The ranges of the workers follow each other and make up the whole list. */
  predicate Covers(rs: seq<WorkerResult>, size: nat) {
    |rs| > 0 && rs[0].start == 0 && rs[|rs| - 1].end == size &&
    forall i: nat :: 0 < i < |rs| ==> rs[i].start == rs[i - 1].end
  }

  /** As many workers as there are windows, up to the number of threads, on ranges of the same length but for the last. */
  predicate Shared(rs: seq<WorkerResult>, threads: nat, width: nat, size: nat) {
    && 0 < |rs| <= threads && (|rs| - 1) * width < size && (|rs| < threads ==> size <= |rs| * width)
    && (forall k: nat :: k < |rs| ==> rs[k].start == k * (size / |rs|))
  }

  lemma WorkersNumber(size: nat, width: nat, k: nat)
    requires size > 0 && width > 0 && 0 < k <= (size + width - 1) / width
    ensures (k - 1) * width < size && (k == (size + width - 1) / width ==> size <= k * width)
  {
    var n := (size + width - 1) / width;
    assert size + width - 1 == width * n + (size + width - 1) % width;
    DeltaLists.Scaled(n, k, width);
    assert (k - 1) * width == k * width - width;
  }

  predicate Agrees(failed: seq<Slot>, r: WorkerResult) {
    r.start <= r.end <= |failed| && r.end <= |r.test| && failed[r.start..r.end] == r.test[r.start..r.end]
  }

  lemma AgreesLonger(failed: seq<Slot>, more: seq<Slot>, r: WorkerResult)
    requires Agrees(failed, r)
    ensures Agrees(failed + more, r)
  {
    assert (failed + more)[r.start..r.end] == failed[r.start..r.end];
  }

  lemma WindowsFit(size: nat, width: nat)
    requires size > 0 && width > 0
    ensures 1 <= (size + width - 1) / width <= size
  {
    var q := (size + width - 1) / width;
    assert size + width - 1 == width * q + (size + width - 1) % width;
    if q > size {
      DeltaLists.Scaled(q, size + 1, width);
      assert (size + 1) * width == size * width + width;
      DeltaLists.Scaled(width, 1, size);
    }
    DeltaLists.Positive(size + width - 1, width, q);
  }

  lemma RangeFits(len: nat, n: nat, i: nat)
    requires 0 < n <= len && i < n
    ensures i * (len / n) < i * (len / n) + len / n <= len
  {
    var q := len / n;
    assert len == n * q + len % n;
    DeltaLists.Positive(len, n, q);
    DeltaLists.Scaled(n, i + 1, q);
    assert (i + 1) * q == i * q + q;
  }

  lemma RangesCover(rs: seq<WorkerResult>, size: nat, n: nat, w: nat)
    requires |rs| == n > 0
    requires forall k: nat :: k < n ==> rs[k].start == k * w && rs[k].end == if k == n - 1 then size else k * w + w
    ensures Covers(rs, size)
  {
    forall i: nat | 0 < i < n ensures rs[i].start == rs[i - 1].end {
      assert i * w == (i - 1) * w + w;
    }
  }

  lemma RemovedNext(rs: seq<WorkerResult>, i: nat)
    requires i < |rs|
    ensures Removed(rs[..i + 1]) == Removed(rs[..i]) + rs[i].removed
  {
    assert rs[..i + 1][..i] == rs[..i];
  }

  lemma {:induction false} RemovedAt(rs: seq<WorkerResult>, i: nat)
    requires i < |rs|
    ensures rs[i].removed <= Removed(rs)
  {
    if i < |rs| - 1 {
      RemovedAt(rs[..|rs| - 1], i);
    }
  }

  lemma RemovedMost(rs: seq<WorkerResult>, i: nat)
    requires i < |rs| && forall k: nat :: k < |rs| ==> rs[k].removed <= rs[i].removed
    ensures rs[i].removed <= Removed(rs)
  {
    RemovedAt(rs, i);
  }

  lemma DoneFull(runs: Formula -> bool, h: seq<Slot>, width: nat, rs: seq<WorkerResult>)
    requires WorkersDone(runs, h, width, rs)
    ensures Full(h)
  {
  }

  lemma JoinStep(runs: Formula -> bool, h: seq<Slot>, width: nat, failed: seq<Slot>, r: WorkerResult)
    requires Full(h) && ResultOk(runs, h, width, r) && r.start == |failed| && Thinned(h[..|failed|], failed)
    ensures var longer := failed + r.test[r.start..r.end];
      |longer| == r.end && Thinned(h[..r.end], longer) && Gone(longer) == Gone(failed) + r.removed && Agrees(longer, r) &&
      (r.removed == 0 && width == 1 && Needed(runs, h, 0, |failed|) ==> Needed(runs, h, 0, r.end))
  {
    var part := r.test[r.start..r.end];
    GoneAppend(failed, part);
    GoneSlice(h, r.test, r.start, r.end);
    assert (failed + part)[r.start..r.end] == part;
    forall i: nat | i < r.end ensures (failed + part)[i] == h[i] || (failed + part)[i] == None {
      if i < |failed| {
        assert h[..|failed|][i] == h[i];
      } else {
        assert (failed + part)[i] == r.test[i];
      }
    }
  }

  lemma FullThinned(h: seq<Slot>)
    requires Full(h)
    ensures Thinned(h, h) && Gone(h) == 0
  {
    FullKept(h);
  }

  lemma ThinnedNone(h: seq<Slot>, t: seq<Slot>)
    requires Full(h) && Thinned(h, t) && Gone(t) == 0
    ensures t == h
  {
    GoneNone(h, t);
  }

  lemma KeptNothing(h: seq<Slot>)
    ensures Kept(h[..0]) == [] && Gone(h[..0]) == 0
  {
  }

  lemma KeptNext(h: seq<Slot>, i: nat)
    requires i < |h|
    ensures Kept(h[..i + 1]) == Kept(h[..i]) + (if h[i].Some? then [h[i].value] else [])
    ensures Gone(h[..i + 1]) == Gone(h[..i]) + (if h[i].Some? then 0 else 1)
  {
    assert h[..i + 1] == h[..i] + [h[i]];
    KeptPush(h[..i], h[i]);
    GoneAppend(h[..i], [h[i]]);
    GoneOne(h, i);
    assert h[i..i + 1] == [h[i]];
  }

  lemma KeptPush(front: seq<Slot>, x: Slot)
    ensures Kept(front + [x]) == Kept(front) + (if x.Some? then [x.value] else [])
  {
    KeptParts(front, x, []);
    assert front + [x] + [] == front + [x];
  }

  lemma BestFits(runs: Formula -> bool, h: seq<Slot>, width: nat, rs: seq<WorkerResult>, failed: seq<Slot>, i: nat)
    requires WorkersDone(runs, h, width, rs) && i < |rs|
    requires forall j: nat {:trigger rs[j]} :: j < |rs| ==> Agrees(failed, rs[j])
    ensures ResultOk(runs, h, width, rs[i]) && Agrees(failed, rs[i])
  {
  }

  lemma EmptyMinimal(runs: Formula -> bool, h: seq<Slot>)
    requires |h| == 0
    ensures OneMinimal(runs, Kept(h))
  {
  }

  class Reducer {
    var head: array<Slot>
    var size: nat
    const runs: Formula -> bool
    const threads: nat
    const thorough: bool
    const minMergeWidth: nat
    const maxMergeRounds: Option<nat>

    constructor (clauses: array<Slot>, runs: Formula -> bool, threads: nat, thorough: bool, minMergeWidth: nat, maxMergeRounds: Option<nat>)
      requires threads >= 1
      ensures head == clauses && size == clauses.Length && this.runs == runs && this.threads == threads
      ensures this.thorough == thorough && this.minMergeWidth == minMergeWidth && this.maxMergeRounds == maxMergeRounds
    {
      head, size := clauses, clauses.Length;
      this.runs, this.threads, this.thorough := runs, threads, thorough;
      this.minMergeWidth, this.maxMergeRounds := minMergeWidth, maxMergeRounds;
    }

    ghost predicate Valid() reads this { size <= head.Length && threads >= 1 }

    ghost function Slots(): seq<Slot>
      requires Valid()
      reads this, head
    {
      head[..size]
    }

    /** Clears one window of a private copy and puts it back unless the copy still runs as expected. */
    method TryWindow(test: array<Slot>, start: nat, stop: nat) returns (found: nat)
      requires Valid() && Full(Slots()) && start < stop <= size
      requires test != head && test.Length == size && Thinned(Slots(), test[..])
      requires test[start..stop] == Slots()[start..stop]
      modifies test
      ensures found == 0 ==> test[..] == old(test[..]) && !runs(Kept(Cleared(old(test[..]), start, stop)))
      ensures found > 0 ==> test[..] == Cleared(old(test[..]), start, stop) && runs(Kept(test[..]))
      ensures Gone(test[..]) == old(Gone(test[..])) + found
    {
      ghost var h, before := Slots(), test[..];
      assert forall i: nat :: start <= i < stop ==> before[i] == test[start..stop][i - start] == h[start..stop][i - start] == h[i];
      found := 0;
      for j := start to stop
        invariant test.Length == |h|
        invariant found == j - start
        invariant forall i: nat :: i < |h| ==> test[i] == if start <= i < j then None else before[i]
        invariant Gone(test[..]) == Gone(before) + found
      {
        if test[j] != None {
          GoneUpdate(test[..], j);
          ghost var was := test[..];
          found := found + 1;
          test[j] := None;
          assert test[..] == was[j := None];
        }
      }
      assert test[..] == Cleared(before, start, stop);
      if found > 0 && !runs(Kept(test[..])) {
        for j := start to stop
          invariant test.Length == |h|
          invariant found == stop - j
          invariant forall i: nat :: i < |h| ==> test[i] == if j <= i < stop then None else before[i]
        {
          if test[j] != head[j] {
            found := found - 1;
            test[j] := head[j];
          }
        }
        assert test[..] == before;
        assert found == 0;
      }
    }

    /** One worker: clears its range window by window, keeping what still runs as expected. */
    method ReduceWorker(test: array<Slot>, start: nat, end: nat, width: nat) returns (r: WorkerResult)
      requires Valid() && Full(Slots()) && start < end <= size && width >= 1
      requires test != head && test[..] == Slots()
      modifies test
      ensures ResultOk(runs, Slots(), width, r) && r.start == start && r.end == end && r.test == test[..]
    {
      hide Needed, Kept, Gone, Full, Thinned, SameOutside, Cleared, Greedy, Boundary;
      ghost var h := Slots();
      GreedyStarts(runs, h, width, start, end);
      assert Thinned(h, h) && SameOutside(h, h, start, start) by { WindowStart(h, start); }
      NeededNone(runs, h, start);
      var position, removed := start, 0;
      FullKept(h);
      while position < end
        invariant start <= position <= end && Slots() == h && test.Length == |h|
        invariant Thinned(h, test[..]) && SameOutside(h, test[..], start, position)
        invariant removed == Gone(test[..])
        invariant removed > 0 ==> runs(Kept(test[..]))
        invariant removed == 0 && width == 1 ==> Needed(runs, h, start, position)
        invariant Greedy(runs, h, width, start, end, position, test[..]) && (position < end ==> Boundary(start, width, position))
        decreases end - position
      {
        var stop := position + width;
        if stop > end {
          stop := end;
        }
        ghost var before := test[..];
        WindowUntouched(h, before, start, position, stop);
        var found := TryWindow(test, position, stop);
        if found == 0 && removed == 0 && width == 1 {
          GoneNone(h, before);
          NeededExtend(runs, h, start, position);
        }
        WindowKept(h, before, test[..], start, position, stop);
        GreedyNext(runs, h, width, start, end, position, before, test[..]);
        NextBoundary(start, width, position);
        removed := removed + found;
        position := stop;
      }
      r := WorkerResult(start, end, removed, test[..]);
    }

    /** The slots outside the base worker's range that only other workers removed; they fit a buffer of `maxRemove` entries. */
    method CollectRemoved(test: array<Slot>, ghost h: seq<Slot>, failed: seq<Slot>, base: WorkerResult, ghost width: nat, maxRemove: nat)
      returns (last: seq<nat>)
      requires Full(h) && Thinned(h, failed) && ResultOk(runs, h, width, base)
      requires test[..] == base.test && failed[base.start..base.end] == base.test[base.start..base.end]
      requires Gone(failed) == maxRemove
      ensures |last| + base.removed == maxRemove && ElsewhereGone(failed, base, last, |failed|)
    {
      hide Gone, Kept, Needed, ElsewhereGone;
      GoneSlice(h, base.test, base.start, base.end);
      GoneSplit(failed, base.start, base.end);
      GoneStart(failed, base);
      last := [];
      var i := 0;
      while i < test.Length
        invariant (i <= base.start || base.end <= i) && i <= test.Length == |failed|
        invariant |last| + (if i <= base.start then 0 else base.removed) == Gone(failed[..i])
        invariant ElsewhereGone(failed, base, last, i)
        decreases test.Length - i
      {
        var k := i;
        if k == base.start {
          k := base.end;
          SkipBase(failed, base, last);
          if k >= test.Length {
            i := k;
            assert |last| + base.removed == Gone(failed[..i]);
            break;
          }
        }
        assert test[k] == base.test[k] == h[k];
        GoneSplit(failed, k, k + 1);
        GoneOne(failed, k);
        GoneNext(failed, base, last, k);
        if test[k] != failed[k] {
          assert |last| < maxRemove;
          last := last + [k];
        }
        i := k + 1;
      }
      assert failed[..i] == failed;
    }

    /** Removes the listed slots `start..end` from the shared clauses exactly if the result runs as expected. */
    method MergeWindow(test: array<Slot>, ghost h: seq<Slot>, failed: seq<Slot>, last: seq<nat>, start: nat, end: nat) returns (removes: nat)
      requires Valid() && test != head && test[..] == Slots() && start <= end <= |last|
      requires Thinned(h, failed) && Thinned(h, Slots()) && runs(Kept(Slots()))
      requires forall x: nat :: x < |last| ==> last[x] < |failed| && failed[last[x]] == None
      modifies test, head
      ensures head == old(head) && size == old(size)
      ensures test[..] == Slots() && Thinned(h, Slots()) && runs(Kept(Slots()))
      ensures Gone(Slots()) == old(Gone(Slots())) + removes
      ensures removes == 0 ==> Slots() == old(Slots())
      ensures Slots() == if runs(Kept(Dropped(old(Slots()), last[start..end]))) then Dropped(old(Slots()), last[start..end]) else old(Slots())
    {
      hide Kept, Gone, Dropped;
      ghost var before, tried := Slots(), Dropped(Slots(), last[start..end]);
      DroppedAt(before, last[start..end]);
      removes := DropListed(test, h, failed, last, start, end);
      if removes > 0 {
        if runs(Kept(test[..])) {
          CommitListed(test, last, start, end);
        } else {
          RestoreListed(test, last, start, end);
          removes := 0;
        }
      }
    }

    /** Makes the removals of the private copy permanent. */
    method CommitListed(test: array<Slot>, last: seq<nat>, start: nat, end: nat)
      requires Valid() && test != head && test.Length == size && start <= end <= |last|
      requires forall x: nat :: x < |last| ==> last[x] < size
      requires forall k: nat :: k < size ==> head[k] == test[k] || (test[k] == None && k in last[start..end])
      modifies head
      ensures head == old(head) && size == old(size) && Slots() == test[..] == old(test[..])
    {
      for i := start to end
        invariant head == old(head) && size == old(size) && test[..] == old(test[..])
        invariant forall k: nat :: k < size ==> head[k] == test[k] || (test[k] == None && k in last[i..end])
      {
        var x := last[i];
        assert last[i..end] == [x] + last[i + 1..end];
        if test[x] != head[x] {
          head[x] := None;
        }
      }
    }

    /** Takes the removals of the private copy back. */
    method RestoreListed(test: array<Slot>, last: seq<nat>, start: nat, end: nat)
      requires Valid() && test != head && test.Length == size && start <= end <= |last|
      requires forall x: nat :: x < |last| ==> last[x] < size
      requires forall k: nat :: k < size ==> test[k] == head[k] || (test[k] == None && k in last[start..end])
      modifies test
      ensures test[..] == Slots()
    {
      for i := start to end
        invariant forall k: nat :: k < size ==> test[k] == head[k] || (test[k] == None && k in last[i..end])
      {
        var x := last[i];
        assert last[i..end] == [x] + last[i + 1..end];
        test[x] := head[x];
      }
    }

    /** Clears the listed slots `start..end` of the private copy. */
    method DropListed(test: array<Slot>, ghost h: seq<Slot>, failed: seq<Slot>, last: seq<nat>, start: nat, end: nat) returns (removes: nat)
      requires Valid() && test != head && test[..] == Slots() && start <= end <= |last|
      requires Thinned(h, failed) && Thinned(h, Slots())
      requires forall x: nat :: x < |last| ==> last[x] < |failed| && failed[last[x]] == None
      modifies test
      ensures test[..] == Dropped(old(test[..]), last[start..end]) && Thinned(h, test[..])
      ensures Gone(test[..]) == old(Gone(test[..])) + removes
      ensures removes == 0 ==> test[..] == old(test[..])
    {
      hide Kept, Gone, Dropped;
      ghost var before := test[..];
      DroppedAt(before, last[start..end]);
      removes := 0;
      for i := start to end
        invariant test.Length == size
        invariant forall k: nat :: k < size ==> test[k] == if k in last[start..i] then None else before[k]
        invariant Gone(test[..]) == Gone(before) + removes
        invariant removes == 0 ==> test[..] == before
      {
        var x := last[i];
        assert last[start..i + 1] == last[start..i] + [x];
        if test[x] != failed[x] {
          GoneUpdate(test[..], x);
          ghost var was := test[..];
          test[x] := failed[x];
          removes := removes + 1;
          assert test[..] == was[x := None];
        }
      }
      assert test[..] == Dropped(before, last[start..end]);
    }

    /** All windows of one width, one after the other. */
    method MergePass(test: array<Slot>, ghost h: seq<Slot>, failed: seq<Slot>, last: seq<nat>, width: nat) returns (removes: nat)
      requires Valid() && test != head && test[..] == Slots() && 0 < width <= |last|
      requires Thinned(h, failed) && Thinned(h, Slots()) && runs(Kept(Slots()))
      requires forall x: nat :: x < |last| ==> last[x] < |failed| && failed[last[x]] == None
      modifies test, head
      ensures head == old(head) && size == old(size)
      ensures test[..] == Slots() && Thinned(h, Slots()) && runs(Kept(Slots()))
      ensures Gone(Slots()) == old(Gone(Slots())) + removes
      ensures AllTried(runs, h, Slots(), last, width, |last|) && Thinned(old(Slots()), Slots())
    {
      ThinnedLength(h, failed);
      hide *;
      removes := 0;
      var start: nat, more := 0, true;
      NoneTried(runs, h, Slots(), last, width);
      WindowStart(Slots(), 0);
      while more
        invariant Valid() && head == old(head) && size == old(size)
        invariant test[..] == Slots() && Thinned(h, Slots()) && runs(Kept(Slots()))
        invariant Gone(Slots()) == old(Gone(Slots())) + removes
        invariant more ==> start < |last|
        invariant AllTried(runs, h, Slots(), last, width, if more then start else |last|) && Thinned(old(Slots()), Slots())
        decreases if more then |last| - start else 0
      {
        var end := start + width;
        if end > |last| {
          end := |last|;
        }
        ghost var was := Slots();
        var removed := MergeWindow(test, h, failed, last, start, end);
        ThinnedLength(h, was);
        WindowTried(runs, h, was, Slots(), last, width, start, end);
        MergedThins(runs, old(Slots()), was, Slots(), last[start..end]);
        removes := removes + removed;
        start := start + width;
        more := end < |last|;
      }
    }

    /** Makes the base worker's result permanent, then merges the others' removals in ever smaller windows. */
    method TryMerge(failed: seq<Slot>, base: WorkerResult, ghost width0: nat, maxRemove0: nat) returns (removes: nat)
      requires Valid() && Full(Slots()) && Thinned(Slots(), failed)
      requires ResultOk(runs, Slots(), width0, base) && base.removed > 0 && Agrees(failed, base)
      requires Gone(failed) == maxRemove0
      modifies head
      ensures head == old(head) && size == old(size)
      ensures Thinned(old(Slots()), Slots()) && runs(Kept(Slots()))
      ensures removes == Gone(Slots()) && removes >= base.removed && Thinned(base.test, Slots())
      ensures minMergeWidth == 0 && maxMergeRounds.None? && maxRemove0 >= base.removed + 2 ==>
        forall k: nat :: k < size && !(base.start <= k < base.end) && failed[k] == None ==> TriedAlone(runs, old(Slots()), Slots(), k)
    {
      hide Kept, Gone, Needed, Greedy, Dropped, TriedAlone, ElsewhereGone;
      ghost var h := Slots();
      var test := new Slot[size];
      for i := 0 to size
        invariant Slots() == h && forall k: nat :: k < i ==> test[k] == h[k]
      {
        test[i] := head[i];
      }
      removes := base.removed;
      assert test[..] == h;
      CommitBase(test, failed, base, width0);
      var last := CollectRemoved(test, h, failed, base, width0, maxRemove0);
      var maxRemove := |last|;
      ListedGone(failed, base, last);
      var width, mergeRound := maxRemove / 2, 0;
      while width > minMergeWidth && maxMergeRounds != Some(mergeRound)
        invariant head == old(head) && size == old(size) && 0 <= width <= maxRemove
        invariant test[..] == Slots() && Thinned(h, Slots()) && runs(Kept(Slots()))
        invariant removes == Gone(Slots()) >= base.removed && Thinned(base.test, Slots())
        invariant width == 0 && maxRemove >= 2 ==> AllTried(runs, h, Slots(), last, 1, maxRemove)
        decreases width
      {
        var removed := MergePass(test, h, failed, last, width);
        removes := removes + removed;
        width := if width > 1 then (width + 1) / 2 else 0;
        mergeRound := mergeRound + 1;
      }
      if minMergeWidth == 0 && maxMergeRounds.None? && maxRemove >= 2 {
        OthersTried(runs, h, Slots(), failed, base, last);
      }
    }

    method CommitBase(test: array<Slot>, failed: seq<Slot>, base: WorkerResult, ghost width: nat)
      requires Valid() && Full(Slots()) && test != head && test[..] == Slots() && Thinned(Slots(), failed)
      requires ResultOk(runs, Slots(), width, base) && base.removed > 0
      requires failed[base.start..base.end] == base.test[base.start..base.end]
      modifies test, head
      ensures head == old(head) && size == old(size)
      ensures test[..] == Slots() == base.test && runs(Kept(base.test))
    {
      hide Kept, Gone, Needed, Full;
      ghost var h := Slots();
      assert forall k: nat :: base.start <= k < base.end ==> failed[k] == failed[base.start..base.end][k - base.start] == base.test[k];
      for i := base.start to base.end
        invariant head == old(head) && size == old(size) <= head.Length && test.Length == size == |h|
        invariant forall k: nat :: k < size ==> test[k] == head[k] == if base.start <= k < i then failed[k] else h[k]
      {
        if test[i] != failed[i] {
          head[i] := None;
          test[i] := None;
        }
      }
      assert test[..] == base.test;
    }

    /** All workers on their ranges; each sees only its own copy and the unchanged shared clauses, so their order does not matter. */
    method RunWorkers(width: nat) returns (results: seq<WorkerResult>)
      requires Valid() && Full(Slots()) && size > 0 && width > 0
      ensures WorkersDone(runs, Slots(), width, results) && Shared(results, threads, width, size)
    {
      hide Kept, Gone, Needed, ResultOk, Thinned, SameOutside;
      ghost var h := Slots();
      var n := if threads < (size + width - 1) / width then threads else (size + width - 1) / width;
      WindowsFit(size, width);
      var threadWidth := size / n;
      results := [];
      for i := 0 to n
        invariant |results| == i
        invariant forall k: nat :: k < i ==> results[k].start == k * threadWidth && results[k].end == if k == n - 1 then size else k * threadWidth + threadWidth
        invariant AllOk(runs, h, width, results)
      {
        RangeFits(size, n, i);
        var start := i * threadWidth;
        var end := if i == n - 1 then size else start + threadWidth;
        var test := new Slot[size];
        for k := 0 to size
          invariant forall j: nat :: j < k ==> test[j] == h[j]
        {
          test[k] := head[k];
        }
        assert test[..] == h;
        var r := ReduceWorker(test, start, end, width);
        results := results + [r];
      }
      RangesCover(results, size, n, threadWidth);
      WorkersNumber(size, width, n);
    }

    /** The removals of all workers put together. */
    method Join(ghost h: seq<Slot>, results: seq<WorkerResult>, ghost width: nat) returns (failed: seq<Slot>)
      requires WorkersDone(runs, h, width, results)
      ensures Thinned(h, failed) && Gone(failed) == Removed(results)
      ensures forall i: nat {:trigger results[i]} :: i < |results| ==> Agrees(failed, results[i])
      ensures Removed(results) == 0 && width == 1 ==> Needed(runs, h, 0, |h|)
    {
      failed := [];
      assert h[..0] == [];
      for i := 0 to |results|
        invariant |failed| == (if i == 0 then 0 else results[i - 1].end) <= |h|
        invariant Thinned(h[..|failed|], failed)
        invariant Gone(failed) == Removed(results[..i])
        invariant forall j: nat {:trigger results[j]} :: j < i ==> Agrees(failed, results[j])
        invariant Removed(results[..i]) == 0 && width == 1 ==> Needed(runs, h, 0, |failed|)
      {
        hide Kept, Gone, Needed;
        var r := results[i];
        assert ResultOk(runs, h, width, r);
        assert r.start == |failed|;
        JoinStep(runs, h, width, failed, r);
        RemovedNext(results, i);
        forall j: nat {:trigger results[j]} | j < i ensures Agrees(failed + r.test[r.start..r.end], results[j]) {
          AgreesLonger(failed, r.test[r.start..r.end], results[j]);
        }
        failed := failed + r.test[r.start..r.end];
      }
      assert results[..|results|] == results;
      assert h[..|h|] == h;
    }

    /** The number of removals over all workers and a worker with the most. */
    method Best(results: seq<WorkerResult>) returns (removed: nat, maxId: nat)
      requires |results| > 0
      ensures removed == Removed(results) && maxId < |results|
      ensures removed > 0 ==> results[maxId].removed > 0
      ensures forall k: nat :: k < |results| ==> results[k].removed <= results[maxId].removed
    {
      removed := results[0].removed;
      var maxRemoved := results[0].removed;
      maxId := 0;
      RemovedNext(results, 0);
      assert Removed(results[..0]) == 0;
      for i := 1 to |results|
        invariant removed == Removed(results[..i]) && maxId < i && maxRemoved == results[maxId].removed
        invariant removed > 0 ==> maxRemoved > 0
        invariant forall k: nat :: k < i ==> results[k].removed <= maxRemoved
      {
        RemovedNext(results, i);
        if results[i].removed > 0 {
          removed := removed + results[i].removed;
          if results[i].removed > maxRemoved {
            maxRemoved, maxId := results[i].removed, i;
          }
        }
      }
      assert results[..|results|] == results;
    }

    /** All workers' results could be merged. */
    method Adopt(test: seq<Slot>)
      requires Valid() && Thinned(Slots(), test)
      modifies head
      ensures head == old(head) && size == old(size) && Slots() == test
    {
      ghost var h := Slots();
      for i := 0 to size
        invariant head == old(head) && size == old(size)
        invariant forall k: nat :: k < size ==> head[k] == if k < i then test[k] else h[k]
      {
        if head[i] != test[i] {
          head[i] := None;
        }
      }
      assert Slots() == test;
    }

    /**
     * One round at the given width: all workers' results are taken together if that runs as expected; otherwise a best
     * one first, and what can be merged into it.
     */
    method ReduceRound(width: nat) returns (removed: nat, ghost results: seq<WorkerResult>, ghost joined: seq<Slot>)
      requires Valid() && Full(Slots()) && size > 0 && width > 0
      modifies head
      ensures head == old(head) && size == old(size)
      ensures Thinned(old(Slots()), Slots()) && removed == Gone(Slots())
      ensures removed > 0 ==> runs(Kept(Slots()))
      ensures removed == 0 && width == 1 ==> Needed(runs, Slots(), 0, size)
      ensures WorkersDone(runs, old(Slots()), width, results) && Shared(results, threads, width, size)
      ensures Thinned(old(Slots()), joined) && forall i: nat {:trigger results[i]} :: i < |results| ==> Agrees(joined, results[i])
      ensures removed == 0 <==> Removed(results) == 0
      ensures removed == 0 || runs(Kept(joined)) ==> Slots() == joined
      ensures removed > 0 ==> forall k: nat :: k < |results| ==> results[k].removed <= removed
    {
      hide Kept, Needed, Gone, Full, Thinned, Removed, ResultOk, Agrees, AllOk;
      ghost var h := Slots();
      var found := RunWorkers(width);
      results := found;
      var test := Join(h, found, width);
      joined := test;
      var maxId: nat;
      removed, maxId := Best(found);
      assert Slots() == h;
      RemovedMost(found, maxId);
      if removed > 0 {
        if runs(Kept(test)) {
          Adopt(test);
        } else {
          BestFits(runs, h, width, found, test, maxId);
          removed := TryMerge(test, found[maxId], width, removed);
        }
      } else {
        FullThinned(h);
        DoneFull(runs, h, width, found);
        ThinnedNone(h, test);
      }
    }

    /** Moves the remaining clauses to the front. */
    method Compact()
      requires Valid()
      modifies head, this`size
      ensures Valid() && head == old(head)
      ensures Full(Slots()) && Kept(Slots()) == old(Kept(Slots()))
      ensures size + old(Gone(Slots())) == old(size)
    {
      hide Kept, Gone;
      ghost var h := Slots();
      var j := 0;
      KeptNothing(h);
      for i := 0 to size
        invariant j <= i <= size == old(size) == |h| && head == old(head) && size <= head.Length
        invariant forall k: nat :: i <= k < size ==> head[k] == h[k]
        invariant Full(head[..j]) && Kept(head[..j]) == Kept(h[..i])
        invariant j + Gone(h[..i]) == i
      {
        KeptNext(h, i);
        ghost var front := head[..j];
        if head[i] != None {
          head[j] := head[i];
          assert head[..j + 1] == front + [h[i]];
          KeptPush(front, h[i]);
          j := j + 1;
        }
      }
      assert h[..|h|] == h;
      size := j;
    }

    /**
     * Removes clauses in windows of shrinking width. The clauses that remain are some of the original ones, and unless
     * nothing was removed they run as expected. The last round on a nonempty list has width 1; if it removes nothing, as
     * in thorough mode it must, no single clause can be removed.
     */
    method Reduce(startWidth: Option<nat>) returns (ghost rs: seq<Round>)
      requires Valid() && Full(Slots())
      modifies this`size, head
      ensures Valid() && Full(Slots()) && head == old(head)
      ensures DeltaLists.Sublist(Kept(Slots()), old(Kept(Slots())))
      ensures Kept(Slots()) == old(Kept(Slots())) || runs(Kept(Slots()))
      ensures Rounds(runs, threads, thorough, old(Kept(Slots())), if startWidth.Some? then startWidth.value else old(size), rs)
      ensures Kept(Slots()) == if rs == [] then old(Kept(Slots())) else Kept(rs[|rs| - 1].after)
      ensures startWidth != Some(0) && size > 0 ==> rs != [] && rs[|rs| - 1].width == 1
      ensures startWidth != Some(0) && size > 0 && (thorough || rs[|rs| - 1].after == rs[|rs| - 1].before) ==> OneMinimal(runs, Kept(Slots()))
      ensures thorough && startWidth != Some(0) ==> OneMinimal(runs, Kept(Slots()))
    {
      hide Kept, Gone, Needed, OneMinimal, Thinned, Rounds, RoundOk, WidthStep, WorkersDone, Shared, Agrees, Removed, DeltaLists.Sublist;
      var width: nat := if startWidth.Some? then startWidth.value else size;
      DeltaLists.SublistSelf(Kept(Slots()));
      rs := [];
      ghost var first := width;
      NoRounds(runs, threads, thorough, Kept(Slots()), first);
      while width > 0
        invariant Valid() && Full(Slots()) && head == old(head)
        invariant DeltaLists.Sublist(Kept(Slots()), old(Kept(Slots())))
        invariant Kept(Slots()) == old(Kept(Slots())) || runs(Kept(Slots()))
        invariant Rounds(runs, threads, thorough, old(Kept(Slots())), first, rs)
        invariant Kept(Slots()) == if rs == [] then old(Kept(Slots())) else Kept(rs[|rs| - 1].after)
        invariant rs == [] ==> width == first && size == old(size)
        invariant rs != [] && width > 0 ==> WidthStep(thorough, rs[|rs| - 1], width)
        invariant rs != [] && width == 0 ==> rs[|rs| - 1].width == 1 && (thorough ==> rs[|rs| - 1].after == rs[|rs| - 1].before)
        decreases size, width
      {
        if size == 0 {
          break;
        }
        ghost var h := Slots();
        ghost var results, joined;
        var removed;
        removed, results, joined := ReduceRound(width);
        ghost var r := Round(width, h, Slots());
        RoundStep(runs, threads, thorough, old(Kept(Slots())), first, rs, r, removed, results, joined);
        width := if removed > 0 && thorough then size else if width > 1 then (width + 1) / 2 else 0;
        NextWidth(thorough, r, width);
        rs := rs + [r];
        Compact();
      }
      if size == 0 {
        EmptyMinimal(runs, Slots());
      } else if rs != [] {
        LastMinimal(runs, threads, thorough, old(Kept(Slots())), first, rs);
      }
    }
  }

  /** A round of `Reduce`: the clauses it started from and what it left of them. */
  datatype Round = Round(width: nat, before: seq<Slot>, after: seq<Slot>)

  ghost predicate RoundOk(runs: Formula -> bool, threads: nat, r: Round) {
    && r.width > 0 && r.before != [] && Full(r.before) && Thinned(r.before, r.after)
    && (r.after == r.before || runs(Kept(r.after)))
    && (r.after == r.before && r.width == 1 ==> Needed(runs, r.before, 0, |r.before|))
    && (threads == 1 ==> Greedy(runs, r.before, r.width, 0, |r.before|, |r.before|, r.after))
  }

  /** In thorough mode a round that removed something is followed by one over everything; otherwise the width is halved, rounded up. */
  predicate WidthStep(thorough: bool, r: Round, next: nat) {
    if thorough && r.after != r.before then next == |r.before|
    else r.width > 1 && (2 * next == r.width || 2 * next == r.width + 1)
  }

  ghost predicate Rounds(runs: Formula -> bool, threads: nat, thorough: bool, start: Formula, first: nat, rs: seq<Round>) {
    && (rs != [] ==> rs[0].width == first && Kept(rs[0].before) == start)
    && (forall i: nat :: i < |rs| ==> RoundOk(runs, threads, rs[i]))
    && (forall i: nat :: 0 < i < |rs| ==> Kept(rs[i].before) == Kept(rs[i - 1].after) && WidthStep(thorough, rs[i - 1], rs[i].width))
  }

  lemma NoRounds(runs: Formula -> bool, threads: nat, thorough: bool, start: Formula, first: nat)
    ensures Rounds(runs, threads, thorough, start, first, [])
  {
  }

  lemma RoundAdded(runs: Formula -> bool, threads: nat, thorough: bool, start: Formula, first: nat, rs: seq<Round>, r: Round)
    requires Rounds(runs, threads, thorough, start, first, rs) && RoundOk(runs, threads, r)
    requires rs == [] ==> r.width == first && Kept(r.before) == start
    requires rs != [] ==> Kept(r.before) == Kept(rs[|rs| - 1].after) && WidthStep(thorough, rs[|rs| - 1], r.width)
    ensures Rounds(runs, threads, thorough, start, first, rs + [r])
  {
    hide RoundOk, Kept, WidthStep;
  }

  lemma RoundStep(runs: Formula -> bool, threads: nat, thorough: bool, start: Formula, first: nat, rs: seq<Round>, r: Round, removed: nat,
      results: seq<WorkerResult>, joined: seq<Slot>)
    requires r.width > 0 && r.before != [] && Full(r.before) && Thinned(r.before, r.after) && removed == Gone(r.after)
    requires (removed > 0 ==> runs(Kept(r.after))) && (removed == 0 && r.width == 1 ==> Needed(runs, r.after, 0, |r.before|))
    requires WorkersDone(runs, r.before, r.width, results) && Shared(results, threads, r.width, |r.before|)
    requires Thinned(r.before, joined) && forall i: nat {:trigger results[i]} :: i < |results| ==> Agrees(joined, results[i])
    requires (removed == 0 <==> Removed(results) == 0) && (removed == 0 || runs(Kept(joined)) ==> r.after == joined)
    requires Rounds(runs, threads, thorough, start, first, rs) && DeltaLists.Sublist(Kept(r.before), start)
    requires rs == [] ==> r.width == first && Kept(r.before) == start
    requires rs != [] ==> Kept(r.before) == Kept(rs[|rs| - 1].after) && WidthStep(thorough, rs[|rs| - 1], r.width)
    ensures Rounds(runs, threads, thorough, start, first, rs + [r]) && DeltaLists.Sublist(Kept(r.after), start)
    ensures (removed == 0 <==> r.after == r.before) && (removed == 0 || runs(Kept(r.after)))
  {
    hide *;
    RoundMade(runs, threads, thorough, r, removed, results, joined);
    RoundAdded(runs, threads, thorough, start, first, rs, r);
    ThinnedSublist(r.before, r.after);
    DeltaLists.SublistTransitive(Kept(r.after), Kept(r.before), start);
  }

  /** With one thread the only worker's result is what the round leaves. */
  lemma RoundMade(runs: Formula -> bool, threads: nat, thorough: bool, r: Round, removed: nat, results: seq<WorkerResult>, joined: seq<Slot>)
    requires r.width > 0 && r.before != [] && Full(r.before) && Thinned(r.before, r.after) && removed == Gone(r.after)
    requires (removed > 0 ==> runs(Kept(r.after))) && (removed == 0 && r.width == 1 ==> Needed(runs, r.after, 0, |r.before|))
    requires WorkersDone(runs, r.before, r.width, results) && Shared(results, threads, r.width, |r.before|)
    requires Thinned(r.before, joined) && forall i: nat {:trigger results[i]} :: i < |results| ==> Agrees(joined, results[i])
    requires (removed == 0 <==> Removed(results) == 0) && (removed == 0 || runs(Kept(joined)) ==> r.after == joined)
    ensures RoundOk(runs, threads, r) && (removed == 0 <==> r.after == r.before)
  {
    if removed == 0 {
      GoneNone(r.before, r.after);
    } else {
      FullKept(r.before);
    }
    if threads == 1 {
      OnlyWorker(runs, r.before, r.width, results, joined);
    }
    hide Kept, Needed, Greedy, Shared, Agrees;
  }

  lemma OnlyWorker(runs: Formula -> bool, h: seq<Slot>, width: nat, results: seq<WorkerResult>, joined: seq<Slot>)
    requires WorkersDone(runs, h, width, results) && Shared(results, 1, width, |h|) && |joined| == |h|
    requires forall i: nat {:trigger results[i]} :: i < |results| ==> Agrees(joined, results[i])
    ensures Greedy(runs, h, width, 0, |h|, |h|, joined) && (Removed(results) > 0 ==> runs(Kept(joined)))
  {
    var r := results[0];
    assert results == [r] && ResultOk(runs, h, width, r) && Agrees(joined, r);
    assert joined == joined[r.start..r.end] && r.test == r.test[r.start..r.end];
    RemovedNext(results, 0);
    assert results[..1] == results && results[..0] == [];
    hide Kept, Needed, Greedy, Gone;
  }

  lemma NextWidth(thorough: bool, r: Round, next: nat)
    requires next == if r.after != r.before && thorough then |r.before| else if r.width > 1 then (r.width + 1) / 2 else 0
    requires r.before != [] && r.width > 0
    ensures next > 0 ==> WidthStep(thorough, r, next)
    ensures next == 0 ==> r.width == 1 && (thorough ==> r.after == r.before)
  {
  }

  /** A last round of width 1 that removed nothing leaves a minimal list. */
  lemma LastMinimal(runs: Formula -> bool, threads: nat, thorough: bool, start: Formula, first: nat, rs: seq<Round>)
    requires Rounds(runs, threads, thorough, start, first, rs) && rs != []
    ensures var r := rs[|rs| - 1]; r.width == 1 && r.after == r.before ==> OneMinimal(runs, Kept(r.after))
  {
    var r := rs[|rs| - 1];
    assert RoundOk(runs, threads, r);
    hide Kept, Needed, OneMinimal;
    if r.width == 1 && r.after == r.before {
      NeededMinimal(runs, r.before);
    }
  }

  /**
   * With one thread every clause a round of width 1 leaves was refused, next to the clauses kept at that moment, and
   * every clause it drops was granted.
   */
  lemma LeftRefused(runs: Formula -> bool, r: Round, i: nat)
    requires RoundOk(runs, 1, r) && r.width == 1 && i < |r.before|
    ensures r.after[i].Some? <==> !runs(Kept(r.after[..i] + [None] + r.before[i + 1..]))
  {
    assert Edge(0, 1, i) == i;
    assert WindowDone(runs, r.before, r.after, i, StopOf(1, |r.before|, i));
    var none: seq<Slot> := seq(1, _ => None);
    assert none == [None];
    assert r.after[i..i + 1] == [r.after[i]] && r.before[i..i + 1] == [r.before[i]];
    hide Kept;
  }
}
