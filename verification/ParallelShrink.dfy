/**
 * The literal-shrinking workers of the multi-threaded clause debugger, as a state machine over their atomic steps.
 * A worker tries literals of one clause on a private copy while other workers may be rewriting the rest of the
 * formula, so the outcome of such a local test is not determined by the state: it is chosen by the schedule.
 */
module ParallelShrink {
  import opened Wrappers

  type Literal = int
  type Clause = seq<Literal>
  type Formula = seq<Clause>

  /** Stands for a literal that has been removed. */
  const FALSE: int := -0x7fff_ffff

  /** No literal over fewer than 2^31 - 1 variables looks like a removed one. */
  lemma FalseIsNoLiteral(l: Literal)
    requires -2147483647 < l < 2147483647
    ensures l != FALSE
  {
  }

  datatype Phase =
    | Fetch          // about to look at `position`
    | Local(j: nat)  // trying literal `j` of the private copy
    | Lock           // waiting for the mutex
    | Swap(j: nat)   // exchanging literal `j` with the shared clause
    | Check          // running the shared formula
    | Undo(j: nat)   // writing literal `j` back
    | Release
    | Finished

  /** `copy` is the private clause, `removed` its successful local removals, `total` the ones made permanent. */
  datatype Worker = Worker(position: nat, end: nat, phase: Phase, copy: Clause, removed: nat, total: nat)

  datatype State = State(head: Formula, holder: Option<nat>, workers: seq<Worker>)

  /** One step of `worker`; `stale` is the outcome of its local test, should it make one. */
  datatype Move = Move(worker: nat, stale: bool)

  predicate Critical(p: Phase) { p.Swap? || p.Check? || p.Undo? || p.Release? }

  predicate Enabled(s: State, w: nat) {
    w < |s.workers| &&
    !s.workers[w].phase.Finished? &&
    (s.workers[w].phase.Lock? ==> s.holder == None)
  }

  predicate RowReady(s: State, w: nat) {
    w < |s.workers| &&
    var k := s.workers[w];
    (k.position < k.end ==> k.position < |s.head|) &&
    (!k.phase.Fetch? && !k.phase.Finished? ==> k.position < k.end && k.position < |s.head| && |s.head[k.position]| == |k.copy|) &&
    (k.phase.Local? ==> k.phase.j <= |k.copy|) &&
    (k.phase.Swap? ==> k.phase.j <= |k.copy|) &&
    (k.phase.Undo? ==> k.phase.j <= |k.copy|)
  }

  function NextClause(k: Worker): Worker { k.(position := k.position + 1, phase := Fetch) }

  function Step(runs: Formula -> bool, s: State, m: Move): State
    requires Enabled(s, m.worker) && RowReady(s, m.worker)
  {
    var w := m.worker;
    var k := s.workers[w];
    var p := k.position;
    match k.phase
    case Fetch =>
      if p >= k.end then With(s, w, k.(phase := Finished))
      else With(s, w, k.(copy := s.head[p], removed := 0, phase := Local(0)))
    case Local(j) =>
      if j == |k.copy| then With(s, w, if k.removed > 0 then k.(phase := Lock) else NextClause(k))
      else if k.copy[j] == FALSE then With(s, w, k.(phase := Local(j + 1)))
      else if m.stale then With(s, w, k.(copy := k.copy[j := FALSE], removed := k.removed + 1, phase := Local(j + 1)))
      else With(s, w, k.(phase := Local(j + 1)))
    case Lock => With(s, w, k.(phase := Swap(0))).(holder := Some(w))
    case Swap(j) =>
      if j == |k.copy| then With(s, w, k.(phase := Check))
      else if s.head[p][j] == k.copy[j] then With(s, w, k.(phase := Swap(j + 1)))
      else With(s, w, k.(copy := k.copy[j := s.head[p][j]], phase := Swap(j + 1))).(head := s.head[p := s.head[p][j := k.copy[j]]])
    case Check =>
      if runs(s.head) then With(s, w, k.(total := k.total + k.removed, phase := Release))
      else With(s, w, k.(phase := Undo(0)))
    case Undo(j) =>
      if j == |k.copy| then With(s, w, k.(phase := Release))
      else With(s, w, k.(phase := Undo(j + 1))).(head := s.head[p := s.head[p][j := k.copy[j]]])
    case Release => With(s, w, NextClause(k)).(holder := None)
  }

  function With(s: State, w: nat, k: Worker): State
    requires w < |s.workers|
  {
    s.(workers := s.workers[w := k])
  }

  /** `b` is `a` with some literals turned into FALSE. */
  predicate Falsified(a: Clause, b: Clause) {
    |a| == |b| && forall j: nat :: j < |a| ==> b[j] == a[j] || b[j] == FALSE
  }

  predicate AllFalsified(f: Formula, g: Formula) {
    |f| == |g| && forall i: nat :: i < |f| ==> Falsified(f[i], g[i])
  }

  function FalseCount(c: Clause): nat { if c == [] then 0 else (if c[0] == FALSE then 1 else 0) + FalseCount(c[1..]) }

  function AllFalse(f: Formula): nat { if f == [] then 0 else FalseCount(f[0]) + AllFalse(f[1..]) }

  function Totals(ws: seq<Worker>): nat { if ws == [] then 0 else ws[0].total + Totals(ws[1..]) }

  /** The row as it was when the mutex was taken. */
  function OldRow(k: Worker, row: Clause): Clause
    requires k.phase.Swap? ==> k.phase.j <= |k.copy| && k.phase.j <= |row|
  {
    match k.phase
    case Swap(j) => k.copy[..j] + row[j..]
    case Check => k.copy
    case Undo(_) => k.copy
    case _ => row
  }

  /** The row the worker proposes. */
  function NewRow(k: Worker, row: Clause): Clause
    requires k.phase.Swap? ==> k.phase.j <= |k.copy| && k.phase.j <= |row|
  {
    match k.phase
    case Local(_) => k.copy
    case Lock => k.copy
    case Swap(j) => row[..j] + k.copy[j..]
    case _ => row
  }

  /** Whether the worker has an outstanding proposal, whose size it knows. */
  predicate Proposing(p: Phase) { p.Local? || p.Lock? || p.Swap? || p.Check? }

  predicate WorkerOk(s: State, w: nat) {
    RowReady(s, w) &&
    var k := s.workers[w];
    k.position <= k.end <= |s.head| &&
    (k.phase.Finished? ==> k.position == k.end) &&
    (Proposing(k.phase) ==>
      var row := s.head[k.position];
      Falsified(OldRow(k, row), NewRow(k, row)) && FalseCount(NewRow(k, row)) == FalseCount(OldRow(k, row)) + k.removed) &&
    (k.phase.Local? ==> k.copy[k.phase.j..] == s.head[k.position][k.phase.j..]) &&
    (k.phase.Undo? ==> k.copy[..k.phase.j] == s.head[k.position][..k.phase.j])
  }

  /** Workers own disjoint, increasing ranges of clauses. */
  predicate Apart(ws: seq<Worker>) {
    forall i: nat, j: nat :: i < j < |ws| ==> ws[i].end <= ws[j].position
  }

  predicate HolderOk(s: State) {
    (s.holder.Some? ==> s.holder.value < |s.workers|) &&
    forall w: nat :: w < |s.workers| ==> (Critical(s.workers[w].phase) <==> s.holder == Some(w))
  }

  predicate Structured(s: State) {
    Apart(s.workers) && HolderOk(s) && forall w: nat :: w < |s.workers| ==> WorkerOk(s, w)
  }

  /** The formula as of the last acquisition or release of the mutex. */
  function Settled(s: State): Formula
    requires Structured(s)
  {
    if s.holder == None then s.head
    else
      var w := s.holder.value;
      assert WorkerOk(s, w);
      var k := s.workers[w];
      s.head[k.position := OldRow(k, s.head[k.position])]
  }

  /** What every interleaving keeps. */
  predicate Inv(runs: Formula -> bool, start: Formula, s: State) {
    Structured(s) &&
    (Settled(s) == start || runs(Settled(s))) &&
    AllFalsified(start, Settled(s)) &&
    AllFalse(start) + Totals(s.workers) == AllFalse(Settled(s))
  }

  lemma {:induction false} FalseCountUpdate(c: Clause, j: nat, l: Literal)
    requires j < |c|
    ensures FalseCount(c[j := l]) + (if c[j] == FALSE then 1 else 0) == FalseCount(c) + (if l == FALSE then 1 else 0)
  {
    if j > 0 {
      assert c[j := l][1..] == c[1..][j - 1 := l];
      FalseCountUpdate(c[1..], j - 1, l);
    } else {
      assert c[j := l][1..] == c[1..];
    }
  }

  lemma {:induction false} AllFalseUpdate(f: Formula, p: nat, c: Clause)
    requires p < |f|
    ensures AllFalse(f[p := c]) + FalseCount(f[p]) == AllFalse(f) + FalseCount(c)
  {
    if p > 0 {
      assert f[p := c][1..] == f[1..][p - 1 := c];
      AllFalseUpdate(f[1..], p - 1, c);
    } else {
      assert f[p := c][1..] == f[1..];
    }
  }

  lemma {:induction false} TotalsUpdate(ws: seq<Worker>, w: nat, k: Worker)
    requires w < |ws|
    ensures Totals(ws[w := k]) + ws[w].total == Totals(ws) + k.total
  {
    if w > 0 {
      assert ws[w := k][1..] == ws[1..][w - 1 := k];
      TotalsUpdate(ws[1..], w - 1, k);
    } else {
      assert ws[w := k][1..] == ws[1..];
    }
  }

  /** What one step does to the moving worker's own row and phase. */
  ghost predicate OwnStep(s: State, t: State, w: nat) {
    w < |s.workers| && |t.workers| == |s.workers| && |t.head| == |s.head| &&
    t.workers == s.workers[w := t.workers[w]] &&
    (t.head == s.head || (s.workers[w].position < s.workers[w].end && s.workers[w].position < |s.head| &&
      t.head == s.head[s.workers[w].position := t.head[s.workers[w].position]])) &&
    t.workers[w].end == s.workers[w].end &&
    t.workers[w].position >= s.workers[w].position
  }

  lemma StepOwn(runs: Formula -> bool, s: State, m: Move)
    requires Structured(s) && Enabled(s, m.worker)
    ensures RowReady(s, m.worker) && OwnStep(s, Step(runs, s, m), m.worker)
  {
    assert WorkerOk(s, m.worker);
  }

  lemma SwapRows(row: Clause, copy: Clause, j: nat)
    requires j < |row| == |copy|
    ensures copy[j := row[j]][..j + 1] + row[j := copy[j]][j + 1..] == copy[..j] + row[j..]
    ensures row[j := copy[j]][..j + 1] + copy[j := row[j]][j + 1..] == row[..j] + copy[j..]
  {
  }

  lemma SkipRows(row: Clause, copy: Clause, j: nat)
    requires j < |row| == |copy| && row[j] == copy[j]
    ensures copy[..j + 1] + row[j + 1..] == copy[..j] + row[j..]
    ensures row[..j + 1] + copy[j + 1..] == row[..j] + copy[j..]
  {
  }

  lemma EndRows(row: Clause, copy: Clause)
    requires |row| == |copy|
    ensures copy[..|copy|] + row[|copy|..] == copy && row[..|copy|] + copy[|copy|..] == row
    ensures copy[..0] + row[0..] == row && row[..0] + copy[0..] == copy
  {
  }

  lemma StepLocal(runs: Formula -> bool, s: State, m: Move)
    requires Structured(s) && Enabled(s, m.worker) && s.workers[m.worker].phase.Local?
    ensures RowReady(s, m.worker) && WorkerOk(Step(runs, s, m), m.worker)
  {
    hide AllFalse, Totals, Settled, HolderOk, Apart;
    var k := s.workers[m.worker];
    assert WorkerOk(s, m.worker);
    var j, row := k.phase.j, s.head[k.position];
    if j < |k.copy| {
      assert k.copy[j..][1..] == k.copy[j + 1..] && row[j..][1..] == row[j + 1..];
      assert k.copy[j..][0] == k.copy[j];
      if m.stale && k.copy[j] != FALSE {
        FalseCountUpdate(k.copy, j, FALSE);
        assert k.copy[j := FALSE][j + 1..] == k.copy[j + 1..];
      }
    }
  }

  lemma StepSwap(runs: Formula -> bool, s: State, m: Move)
    requires Structured(s) && Enabled(s, m.worker) && s.workers[m.worker].phase.Swap?
    ensures RowReady(s, m.worker) && WorkerOk(Step(runs, s, m), m.worker)
  {
    hide AllFalse, Totals, Settled, HolderOk, Apart, Falsified, FalseCount;
    var k := s.workers[m.worker];
    assert WorkerOk(s, m.worker);
    var j, row := k.phase.j, s.head[k.position];
    if j == |k.copy| {
      EndRows(row, k.copy);
    } else if row[j] == k.copy[j] {
      SkipRows(row, k.copy, j);
    } else {
      SwapRows(row, k.copy, j);
    }
  }

  lemma StepUndo(runs: Formula -> bool, s: State, m: Move)
    requires Structured(s) && Enabled(s, m.worker) && s.workers[m.worker].phase.Undo?
    ensures RowReady(s, m.worker) && WorkerOk(Step(runs, s, m), m.worker)
  {
    hide AllFalse, Totals, Settled, HolderOk, Apart, Falsified, FalseCount;
    var k := s.workers[m.worker];
    assert WorkerOk(s, m.worker);
    var j, row := k.phase.j, s.head[k.position];
    if j < |k.copy| {
      var next := row[j := k.copy[j]];
      assert k.copy[..j + 1] == k.copy[..j] + [k.copy[j]] == next[..j + 1];
    }
  }

  lemma StepOther(runs: Formula -> bool, s: State, m: Move)
    requires Structured(s) && Enabled(s, m.worker)
    requires var p := s.workers[m.worker].phase; p.Fetch? || p.Lock? || p.Check? || p.Release?
    ensures RowReady(s, m.worker) && WorkerOk(Step(runs, s, m), m.worker)
  {
    hide AllFalse, Totals, Settled, HolderOk, Apart, FalseCount;
    var k := s.workers[m.worker];
    assert WorkerOk(s, m.worker);
    if k.phase.Lock? {
      EndRows(s.head[k.position], k.copy);
    }
  }

  lemma StepWorker(runs: Formula -> bool, s: State, m: Move)
    requires Structured(s) && Enabled(s, m.worker)
    ensures RowReady(s, m.worker) && WorkerOk(Step(runs, s, m), m.worker)
  {
    hide WorkerOk, RowReady, Step, HolderOk, Apart;
    var p := s.workers[m.worker].phase;
    if p.Local? {
      StepLocal(runs, s, m);
    } else if p.Swap? {
      StepSwap(runs, s, m);
    } else if p.Undo? {
      StepUndo(runs, s, m);
    } else {
      StepOther(runs, s, m);
    }
  }

  lemma OtherWorker(s: State, t: State, w: nat, v: nat)
    requires Structured(s) && OwnStep(s, t, w) && v < |s.workers| && v != w
    ensures WorkerOk(t, v)
  {
    assert WorkerOk(s, v);
    var p := s.workers[w].position;
    if t.head != s.head && s.workers[v].position < s.workers[v].end {
      assert s.workers[v].position != p;
    }
  }

  lemma StepHolder(runs: Formula -> bool, s: State, m: Move)
    requires Structured(s) && Enabled(s, m.worker)
    ensures RowReady(s, m.worker) && HolderOk(Step(runs, s, m)) && Apart(Step(runs, s, m).workers)
  {
    hide WorkerOk;
    StepOwn(runs, s, m);
  }

  lemma StepStructured(runs: Formula -> bool, s: State, m: Move)
    requires Structured(s) && Enabled(s, m.worker)
    ensures RowReady(s, m.worker) && Structured(Step(runs, s, m))
  {
    hide Step, WorkerOk, HolderOk, Apart, RowReady;
    StepOwn(runs, s, m);
    var t := Step(runs, s, m);
    StepHolder(runs, s, m);
    StepWorker(runs, s, m);
    forall v: nat | v < |t.workers| ensures WorkerOk(t, v) {
      if v != m.worker {
        OtherWorker(s, t, m.worker, v);
      }
    }
  }

  /** The step at which a proposal is accepted. */
  predicate Accepts(runs: Formula -> bool, s: State, m: Move) {
    m.worker < |s.workers| && s.workers[m.worker].phase.Check? && runs(s.head)
  }

  lemma SettledBystander(runs: Formula -> bool, s: State, m: Move)
    requires Structured(s) && Enabled(s, m.worker) && s.holder != None && s.holder != Some(m.worker)
    ensures RowReady(s, m.worker) && Structured(Step(runs, s, m)) && Settled(Step(runs, s, m)) == Settled(s)
  {
    StepStructured(runs, s, m);
    var t := Step(runs, s, m);
    assert t.head == s.head && t.holder == s.holder;
    assert t.workers[s.holder.value] == s.workers[s.holder.value];
  }

  lemma SettledHolder(runs: Formula -> bool, s: State, m: Move)
    requires Structured(s) && Enabled(s, m.worker) && s.holder == Some(m.worker) && !Accepts(runs, s, m)
    ensures RowReady(s, m.worker) && Structured(Step(runs, s, m)) && Settled(Step(runs, s, m)) == Settled(s)
  {
    hide Falsified, FalseCount, Apart;
    StepStructured(runs, s, m);
    var t := Step(runs, s, m);
    var k := s.workers[m.worker];
    assert WorkerOk(s, m.worker);
    assert Critical(k.phase);
    var row := s.head[k.position];
    match k.phase
    case Swap(j) =>
      if j == |k.copy| {
        EndRows(row, k.copy);
      } else if row[j] == k.copy[j] {
        SkipRows(row, k.copy, j);
      } else {
        SwapRows(row, k.copy, j);
        var next := row[j := k.copy[j]];
        assert t.head == s.head[k.position := next];
        assert t.workers[m.worker].copy == k.copy[j := row[j]];
        assert s.head[k.position := next][k.position := OldRow(k, row)] == s.head[k.position := OldRow(k, row)];
      }
    case Check =>
    case Undo(j) =>
      if j == |k.copy| {
        assert k.copy[..j] == k.copy && row[..j] == row;
      } else {
        var next := row[j := k.copy[j]];
        assert s.head[k.position := next][k.position := k.copy] == s.head[k.position := k.copy];
      }
    case Release =>
  }

  lemma SettledFree(runs: Formula -> bool, s: State, m: Move)
    requires Structured(s) && Enabled(s, m.worker) && s.holder == None
    ensures RowReady(s, m.worker) && Structured(Step(runs, s, m)) && Settled(Step(runs, s, m)) == Settled(s)
  {
    hide Falsified, FalseCount, Apart;
    StepStructured(runs, s, m);
    var t := Step(runs, s, m);
    var k := s.workers[m.worker];
    assert WorkerOk(s, m.worker);
    assert !Critical(k.phase);
    assert t.head == s.head;
    if k.phase.Lock? {
      var row := s.head[k.position];
      EndRows(row, k.copy);
      assert s.head[k.position := row] == s.head;
    }
  }

  lemma SettledAccept(runs: Formula -> bool, s: State, m: Move)
    requires Structured(s) && Enabled(s, m.worker) && Accepts(runs, s, m)
    ensures RowReady(s, m.worker) && Structured(Step(runs, s, m))
    ensures Settled(Step(runs, s, m)) == s.head
    ensures AllFalsified(Settled(s), s.head)
    ensures AllFalse(s.head) == AllFalse(Settled(s)) + s.workers[m.worker].removed
  {
    hide Apart;
    StepStructured(runs, s, m);
    var k := s.workers[m.worker];
    var p, row := k.position, s.head[k.position];
    assert WorkerOk(s, m.worker);
    assert Critical(k.phase);
    assert Settled(s) == s.head[p := k.copy];
    assert s.head[p := row] == s.head;
    AllFalseUpdate(s.head, p, k.copy);
    forall i: nat | i < |s.head| ensures Falsified(Settled(s)[i], s.head[i]) {
      if i != p {
        assert Settled(s)[i] == s.head[i];
      }
    }
  }

  /** Outside acceptance a step leaves the settled formula alone; acceptance replaces it by one that runs as expected. */
  lemma SettledStep(runs: Formula -> bool, s: State, m: Move)
    requires Structured(s) && Enabled(s, m.worker)
    ensures RowReady(s, m.worker) && Structured(Step(runs, s, m))
    ensures !Accepts(runs, s, m) ==> Settled(Step(runs, s, m)) == Settled(s)
    ensures Accepts(runs, s, m) ==> runs(Settled(Step(runs, s, m)))
    ensures AllFalsified(Settled(s), Settled(Step(runs, s, m)))
    ensures AllFalse(Settled(Step(runs, s, m)))
         == AllFalse(Settled(s)) + if Accepts(runs, s, m) then s.workers[m.worker].removed else 0
  {
    hide RowReady, Structured, Step, Enabled, Settled;
    if Accepts(runs, s, m) {
      SettledAccept(runs, s, m);
    } else if s.holder == None {
      SettledFree(runs, s, m);
    } else if s.holder == Some(m.worker) {
      SettledHolder(runs, s, m);
    } else {
      SettledBystander(runs, s, m);
    }
  }

  lemma StepTotals(runs: Formula -> bool, s: State, m: Move)
    requires Enabled(s, m.worker) && RowReady(s, m.worker)
    ensures Totals(Step(runs, s, m).workers) == Totals(s.workers) + if Accepts(runs, s, m) then s.workers[m.worker].removed else 0
  {
    var t := Step(runs, s, m);
    TotalsUpdate(s.workers, m.worker, t.workers[m.worker]);
    assert t.workers == s.workers[m.worker := t.workers[m.worker]];
  }

  lemma FalsifiedTransitive(f: Formula, g: Formula, h: Formula)
    requires AllFalsified(f, g) && AllFalsified(g, h)
    ensures AllFalsified(f, h)
  {
    forall i: nat | i < |f| ensures Falsified(f[i], h[i]) {
      assert Falsified(f[i], g[i]) && Falsified(g[i], h[i]);
    }
  }

  lemma AllFalsifiedSelf(f: Formula)
    ensures AllFalsified(f, f)
  {
  }

  /** Every step of every interleaving keeps the invariant. */
  lemma StepKeeps(runs: Formula -> bool, start: Formula, s: State, m: Move)
    requires Inv(runs, start, s) && Enabled(s, m.worker)
    ensures RowReady(s, m.worker) && Inv(runs, start, Step(runs, s, m))
  {
    hide RowReady, Structured, Step, Enabled, Settled, Accepts, AllFalsified;
    SettledStep(runs, s, m);
    StepTotals(runs, s, m);
    FalsifiedTransitive(start, Settled(s), Settled(Step(runs, s, m)));
  }

  // ---- every interleaving ends ----

  function RowsFrom(head: Formula, from: nat, end: nat): nat
    decreases end - from
  {
    if from >= end || end > |head| then 0 else 3 * |head[from]| + 8 + RowsFrom(head, from + 1, end)
  }

  /** An upper bound on the steps a worker still makes. */
  function Work(head: Formula, k: Worker): nat {
    var later := RowsFrom(head, k.position + 1, k.end) + 1;
    var n := |k.copy|;
    match k.phase
    case Fetch => RowsFrom(head, k.position, k.end) + 1
    case Local(j) => later + (if j <= n then n - j else 0) + 2 * n + 6
    case Lock => later + 2 * n + 5
    case Swap(j) => later + (if j <= n then n - j else 0) + n + 4
    case Check => later + n + 3
    case Undo(j) => later + (if j <= n then n - j else 0) + 2
    case Release => later + 1
    case Finished => 0
  }

  function AllWork(head: Formula, ws: seq<Worker>): nat {
    if ws == [] then 0 else Work(head, ws[0]) + AllWork(head, ws[1..])
  }

  predicate SameLengths(f: Formula, g: Formula) {
    |f| == |g| && forall i: nat :: i < |f| ==> |f[i]| == |g[i]|
  }

  lemma {:induction false} SameRows(f: Formula, g: Formula, from: nat, end: nat)
    requires SameLengths(f, g)
    ensures RowsFrom(f, from, end) == RowsFrom(g, from, end)
    decreases end - from
  {
    if from < end {
      SameRows(f, g, from + 1, end);
    }
  }

  lemma {:induction false} SameWork(f: Formula, g: Formula, ws: seq<Worker>)
    requires SameLengths(f, g)
    ensures AllWork(f, ws) == AllWork(g, ws)
  {
    if ws != [] {
      var k := ws[0];
      SameRows(f, g, k.position, k.end);
      SameRows(f, g, k.position + 1, k.end);
      SameWork(f, g, ws[1..]);
    }
  }

  lemma {:induction false} WorkUpdate(head: Formula, ws: seq<Worker>, w: nat, k: Worker)
    requires w < |ws|
    ensures AllWork(head, ws[w := k]) + Work(head, ws[w]) == AllWork(head, ws) + Work(head, k)
  {
    if w > 0 {
      assert ws[w := k][1..] == ws[1..][w - 1 := k];
      WorkUpdate(head, ws[1..], w - 1, k);
    } else {
      assert ws[w := k][1..] == ws[1..];
    }
  }

  lemma StepWork(runs: Formula -> bool, s: State, m: Move)
    requires Structured(s) && Enabled(s, m.worker)
    ensures RowReady(s, m.worker) && SameLengths(s.head, Step(runs, s, m).head)
    ensures Work(s.head, Step(runs, s, m).workers[m.worker]) < Work(s.head, s.workers[m.worker])
  {
    hide AllFalse, Totals, FalseCount, Falsified, OldRow, NewRow, HolderOk, Apart;
    assert WorkerOk(s, m.worker);
  }

  /** Each step uses up work, so no schedule goes on forever. */
  lemma StepProgress(runs: Formula -> bool, s: State, m: Move)
    requires Structured(s) && Enabled(s, m.worker)
    ensures RowReady(s, m.worker)
    ensures AllWork(Step(runs, s, m).head, Step(runs, s, m).workers) < AllWork(s.head, s.workers)
  {
    StepWork(runs, s, m);
    StepOwn(runs, s, m);
    hide RowReady, Structured, Step, Enabled, SameLengths, Work;
    var t := Step(runs, s, m);
    SameWork(s.head, t.head, t.workers);
    WorkUpdate(s.head, s.workers, m.worker, t.workers[m.worker]);
  }

  predicate AllFinished(s: State) { forall w: nat :: w < |s.workers| ==> s.workers[w].phase.Finished? }

  /** Some worker can move until all have finished: the mutex never blocks everyone. */
  lemma NoDeadlock(s: State)
    requires Structured(s) && !AllFinished(s)
    ensures exists w: nat :: Enabled(s, w)
  {
    if s.holder.Some? {
      assert Critical(s.workers[s.holder.value].phase);
      assert Enabled(s, s.holder.value);
    } else {
      var w: nat :| w < |s.workers| && !s.workers[w].phase.Finished?;
      assert Enabled(s, w);
    }
  }

  lemma FinishedFree(s: State)
    requires Structured(s) && AllFinished(s)
    ensures s.holder == None
  {
    forall w: nat | w < |s.workers| ensures s.holder != Some(w) {
      assert s.workers[w].phase.Finished?;
    }
  }

  // ---- whole runs ----

  function Min(a: nat, b: nat): nat { if a < b then a else b }

  /** The workers `shrink` starts: one range of clauses each, the last taking the remainder. */
  function Spawn(head: Formula, threads: nat): State
    requires |head| > 0 && threads > 0
  {
    var n := Min(threads, |head|);
    var width := |head| / n;
    State(head, None, seq(n, (i: nat) => Worker(i * width, if i == n - 1 then |head| else i * width + width, Fetch, [], 0, 0)))
  }

  lemma RangesFit(len: nat, n: nat, i: nat, j: nat)
    requires 0 < n <= len && i < j <= n
    ensures i * (len / n) + len / n <= j * (len / n) <= len
  {
    var q := len / n;
    assert len == n * q + len % n;
    assert j * q == i * q + q + (j - i - 1) * q;
    assert n * q == j * q + (n - j) * q;
  }

  lemma {:induction false} NoTotals(ws: seq<Worker>)
    requires forall k: Worker :: k in ws ==> k.total == 0
    ensures Totals(ws) == 0
  {
    if ws != [] {
      NoTotals(ws[1..]);
    }
  }

  lemma SpawnInv(runs: Formula -> bool, head: Formula, threads: nat)
    requires |head| > 0 && threads > 0
    ensures Inv(runs, head, Spawn(head, threads))
  {
    var s := Spawn(head, threads);
    var n := |s.workers|;
    forall i: nat | i < n ensures WorkerOk(s, i) {
      RangesFit(|head|, n, i, n);
    }
    forall i: nat, j: nat | i < j < n ensures s.workers[i].end <= s.workers[j].position {
      RangesFit(|head|, n, i, j);
    }
    NoTotals(s.workers);
  }

  /** `states` are the states of a run that makes `moves`. */
  predicate Run(runs: Formula -> bool, states: seq<State>, moves: seq<Move>) {
    |states| == |moves| + 1 &&
    forall i: nat :: i < |moves| ==>
      Enabled(states[i], moves[i].worker) && RowReady(states[i], moves[i].worker) && states[i + 1] == Step(runs, states[i], moves[i])
  }

  lemma {:induction false} RunInv(runs: Formula -> bool, states: seq<State>, moves: seq<Move>, start: Formula, i: nat)
    requires Run(runs, states, moves) && i < |states| && Inv(runs, start, states[0])
    ensures Inv(runs, start, states[i])
    ensures AllWork(states[i].head, states[i].workers) + i <= AllWork(states[0].head, states[0].workers)
  {
    if i > 0 {
      RunInv(runs, states, moves, start, i - 1);
      StepKeeps(runs, start, states[i - 1], moves[i - 1]);
      StepProgress(runs, states[i - 1], moves[i - 1]);
    }
  }

  /**
   * Under every interleaving, whatever the local tests on stale views said: whenever the mutex is free the shared
   * formula is the original one or runs as expected, differs from the original only by literals turned FALSE, and
   * the workers' counters add up to their number.
   */
  lemma ShrinkSafe(runs: Formula -> bool, head: Formula, threads: nat, states: seq<State>, moves: seq<Move>, i: nat)
    requires |head| > 0 && threads > 0
    requires Run(runs, states, moves) && states[0] == Spawn(head, threads) && i < |states|
    requires states[i].holder == None
    ensures states[i].head == head || runs(states[i].head)
    ensures AllFalsified(head, states[i].head)
    ensures AllFalse(states[i].head) == AllFalse(head) + Totals(states[i].workers)
  {
    SpawnInv(runs, head, threads);
    RunInv(runs, states, moves, head, i);
  }

  /** What was FALSE when the mutex was free stays FALSE whenever it is free again. */
  lemma {:induction false} ShrinkForward(runs: Formula -> bool, states: seq<State>, moves: seq<Move>, start: Formula, i: nat, j: nat)
    requires Run(runs, states, moves) && i <= j < |states| && Inv(runs, start, states[0])
    ensures Structured(states[i]) && Structured(states[j]) && AllFalsified(Settled(states[i]), Settled(states[j]))
  {
    hide Structured, Step, Enabled, RowReady, Settled, AllFalsified, AllFalse, Totals, AllWork;
    RunInv(runs, states, moves, start, i);
    RunInv(runs, states, moves, start, j);
    if i == j {
      AllFalsifiedSelf(Settled(states[i]));
    } else {
      ShrinkForward(runs, states, moves, start, i, j - 1);
      RunInv(runs, states, moves, start, j - 1);
      SettledStep(runs, states[j - 1], moves[j - 1]);
      FalsifiedTransitive(Settled(states[i]), Settled(states[j - 1]), Settled(states[j]));
    }
  }

  /** A run is never longer than the initial work; one that cannot go on has finished with the mutex free. */
  lemma ShrinkEnds(runs: Formula -> bool, head: Formula, threads: nat, states: seq<State>, moves: seq<Move>)
    requires |head| > 0 && threads > 0
    requires Run(runs, states, moves) && states[0] == Spawn(head, threads)
    ensures |moves| <= AllWork(head, Spawn(head, threads).workers)
    ensures (forall w: nat :: !Enabled(states[|moves|], w)) ==> AllFinished(states[|moves|]) && states[|moves|].holder == None
  {
    SpawnInv(runs, head, threads);
    var last := states[|moves|];
    RunInv(runs, states, moves, head, |moves|);
    if forall w: nat :: !Enabled(last, w) {
      if !AllFinished(last) {
        NoDeadlock(last);
      }
      FinishedFree(last);
    }
  }
}
